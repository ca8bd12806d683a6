/**
 * Saving a floor plan (models/table.py `update_borders`, `update_tables`;
 * owners/routes.py `save_precision`, `save_planner_info`).
 *
 * `update_tables` matches the submitted tables to the stored ones by their
 * `real_id`. The stored rows are first folded into a dictionary keyed by
 * `real_id`; each submitted table then either overwrites the row found there
 * (and removes it from the dictionary) or becomes a new row. The rows still in
 * the dictionary at the end are deleted together with their reservations,
 * except that a reservation that has already ended only loses its table.
 */
module PlanStore {
  import opened Common
  import opened Geometry
  import opened Store
  import opened PlanValidator

  // ---------------------------------------------------------------------
  // Borders
  // ---------------------------------------------------------------------

  /** The border rows after a full replace: other restaurants' rows as they
      were, and the submitted borders under consecutive new ids from `base`. */
  function ReplacedBorders(borders: map<int, BorderRow>, rid: int, newBorders: seq<Border>, base: int): map<int, BorderRow>
  {
    (map k | k in borders && borders[k].restaurant != rid :: borders[k])
    + (map k | base <= k < base + |newBorders| && InBlock(k, base, |newBorders|) :: BorderRow(rid, newBorders[k - base]))
  }

  /** `k` is one of the `n` consecutive ids starting at `base`. */
  predicate InBlock(k: int, base: int, n: int)
  {
    base <= k < base + n
  }

  /** `update_borders`: deletes the restaurant's borders, then adds the
      submitted ones in order. */
  method UpdateBorders(db: Session, rid: int, newBorders: seq<Border>)
    modifies db`borders
    ensures exists base ::
      && (forall k :: k in old(db.borders) ==> k < base)
      && db.borders == ReplacedBorders(old(db.borders), rid, newBorders, base)
  {
    var base := FreshKey(db.borders);
    db.borders := map k | k in db.borders && db.borders[k].restaurant != rid :: db.borders[k];
    ghost var kept := db.borders;
    for i := 0 to |newBorders|
      invariant forall k :: k in db.borders <==> k in kept || base <= k < base + i
      invariant forall k :: k in kept ==> k < base && db.borders[k] == kept[k]
      invariant forall k :: base <= k < base + i ==> db.borders[k] == BorderRow(rid, newBorders[k - base])
    {
      db.borders := db.borders[base + i := BorderRow(rid, newBorders[i])];
    }
    assert db.borders == ReplacedBorders(old(db.borders), rid, newBorders, base);
  }

  /** After the replace, the restaurant's borders in id order are exactly the
      submitted ones, and every other restaurant's borders are untouched. */
  lemma ReplacedBordersAreSubmitted(borders: map<int, BorderRow>, rid: int, newBorders: seq<Border>, base: int)
    requires forall k :: k in borders ==> k < base
    ensures var r := ReplacedBorders(borders, rid, newBorders, base);
      && (forall i :: 0 <= i < |newBorders| ==> base + i in r && r[base + i] == BorderRow(rid, newBorders[i]))
      && (forall k :: k in r && r[k].restaurant == rid ==> base <= k < base + |newBorders|)
      && (forall k :: k in borders && borders[k].restaurant != rid ==> k in r && r[k] == borders[k])
      && (forall k :: k in r && r[k].restaurant != rid ==> k in borders && r[k] == borders[k])
  {
  }

  // ---------------------------------------------------------------------
  // Tables
  // ---------------------------------------------------------------------

  /** The restaurant's row ids. */
  function RowsOf(tables: map<int, TableRow>, rid: int): set<int>
  {
    set k | k in tables && tables[k].restaurant == rid
  }

  /** The real ids of the restaurant's rows. */
  function RealIdsOf(tables: map<int, TableRow>, rid: int): set<string>
  {
    set k | k in tables && tables[k].restaurant == rid :: tables[k].table.realId
  }

  /** No two rows of the restaurant share a real id. */
  predicate UniqueRealIds(tables: map<int, TableRow>, rid: int)
  {
    forall k, l ::
      (k in tables && l in tables && tables[k].restaurant == rid && tables[l].restaurant == rid
       && tables[k].table.realId == tables[l].table.realId) ==> k == l
  }

  /** `tableDict`: for every real id of the restaurant, the row the dictionary
      keeps when later rows overwrite earlier ones (the largest id). */
  predicate IsTableDict(tables: map<int, TableRow>, rid: int, d: map<string, int>)
  {
    && (forall r :: r in d ==> d[r] in tables && tables[d[r]].restaurant == rid && tables[d[r]].table.realId == r)
    && (forall k :: k in tables && tables[k].restaurant == rid ==>
          tables[k].table.realId in d && k <= d[tables[k].table.realId])
  }

  /** Folds the restaurant's rows into the dictionary. */
  method BuildTableDict(tables: map<int, TableRow>, rid: int) returns (d: map<string, int>)
    ensures IsTableDict(tables, rid, d)
  {
    d := map[];
    var rest := tables.Keys;
    while rest != {}
      invariant rest <= tables.Keys
      invariant forall r :: r in d ==>
        (d[r] in tables && d[r] !in rest && tables[d[r]].restaurant == rid && tables[d[r]].table.realId == r)
      invariant forall k :: k in tables && k !in rest && tables[k].restaurant == rid ==>
        tables[k].table.realId in d && k <= d[tables[k].table.realId]
      decreases rest
    {
      EmptyIff(rest);
      var k :| k in rest;
      if tables[k].restaurant == rid {
        var r := tables[k].table.realId;
        if r !in d || d[r] < k {
          d := d[r := k];
        }
      }
      rest := rest - {k};
    }
  }

  /** The rows of the restaurant carrying one real id. */
  function RowsWith(tables: map<int, TableRow>, rid: int, realId: string): set<int>
  {
    set k | k in tables && tables[k].restaurant == rid && tables[k].table.realId == realId
  }

  /** The dictionary, defined from the rows: each real id of the restaurant
      maps to the largest row id carrying it. */
  ghost function TableDictOf(tables: map<int, TableRow>, rid: int): (d: map<string, int>)
    ensures d.Keys == RealIdsOf(tables, rid)
    ensures forall r :: r in d ==>
      (d[r] in RowsWith(tables, rid, r) && forall k :: k in RowsWith(tables, rid, r) ==> k <= d[r])
  {
    map r | r in RealIdsOf(tables, rid) :: (RealIdHasRow(tables, rid, r); MaxKey(RowsWith(tables, rid, r)))
  }

  lemma RealIdHasRow(tables: map<int, TableRow>, rid: int, r: string)
    requires r in RealIdsOf(tables, rid)
    ensures RowsWith(tables, rid, r) != {}
  {
    var k :| k in tables && tables[k].restaurant == rid && tables[k].table.realId == r;
    assert k in RowsWith(tables, rid, r);
  }

  lemma RowRealIdListed(tables: map<int, TableRow>, rid: int, k: int)
    requires k in tables && tables[k].restaurant == rid
    ensures tables[k].table.realId in RealIdsOf(tables, rid)
    ensures k in RowsWith(tables, rid, tables[k].table.realId)
  {
  }

  /** The defined dictionary is the one the fold builds. */
  lemma TableDictOfIsTableDict(tables: map<int, TableRow>, rid: int)
    ensures IsTableDict(tables, rid, TableDictOf(tables, rid))
  {
    var d := TableDictOf(tables, rid);
    forall k | k in tables && tables[k].restaurant == rid
      ensures tables[k].table.realId in d && k <= d[tables[k].table.realId]
    {
      RowRealIdListed(tables, rid, k);
    }
  }

  /** The dictionary is determined by the rows. */
  lemma TableDictDetermined(tables: map<int, TableRow>, rid: int, d: map<string, int>)
    requires IsTableDict(tables, rid, d)
    ensures d == TableDictOf(tables, rid)
  {
    var e := TableDictOf(tables, rid);
    TableDictOfIsTableDict(tables, rid);
    forall r | r in d
      ensures r in e && d[r] == e[r]
    {
      RowRealIdListed(tables, rid, d[r]);
      assert r in e;
      assert tables[e[r]].restaurant == rid && tables[e[r]].table.realId == r;
      assert d[r] <= e[r];
      assert e[r] <= d[r];
    }
    forall r | r in e
      ensures r in d
    {
      assert tables[e[r]].restaurant == rid && tables[e[r]].table.realId == r;
    }
    assert d.Keys == e.Keys;
  }

  /** The dictionary when the restaurant's real ids are unique: each real id
      maps to its only row. */
  lemma UniqueTableDict(tables: map<int, TableRow>, rid: int, d: map<string, int>)
    requires IsTableDict(tables, rid, d) && UniqueRealIds(tables, rid)
    ensures forall k :: k in tables && tables[k].restaurant == rid ==> d[tables[k].table.realId] == k
  {
  }

  /** The rows and the dictionary while the submitted tables are processed. */
  datatype Plan = Plan(tables: map<int, TableRow>, dict: map<string, int>)

  /** One submitted table: overwrite the matched row and drop it from the
      dictionary, or insert a new row. */
  ghost function Place(p: Plan, rid: int, t: Table): Plan
  {
    if t.realId in p.dict then
      Plan(p.tables[p.dict[t.realId] := TableRow(rid, t)], p.dict - {t.realId})
    else
      Plan(p.tables[NextKey(p.tables.Keys) := TableRow(rid, t)], p.dict)
  }

  /** The submitted tables, in order. */
  ghost function PlaceAll(p: Plan, rid: int, ts: seq<Table>): Plan
    decreases |ts|
  {
    if ts == [] then p else Place(PlaceAll(p, rid, ts[..|ts| - 1]), rid, ts[|ts| - 1])
  }

  /** The row ids left in the dictionary. */
  function Leftover(d: map<string, int>): set<int>
  {
    set r | r in d :: d[r]
  }

  /** The rows after the leftovers are deleted. */
  function WithoutRows(tables: map<int, TableRow>, gone: set<int>): map<int, TableRow>
  {
    map k | k in tables && k !in gone :: tables[k]
  }

  /** The reservation is the restaurant's and sits at one of the `gone` tables. */
  predicate AtRemovedTable(x: Reservation, rid: int, gone: set<int>)
  {
    x.restaurant == rid && x.table.Some? && x.table.value in gone
  }

  /** The reservation ended before `now` (only meaningful when the restaurant
      exists: the queries join on it). */
  predicate EndedBefore(x: Reservation, restaurants: map<int, Restaurant>, rid: int, now: int)
    requires rid in restaurants
  {
    EndOf(x, restaurants[rid].lengthMinutes) < now
  }

  /** The reservations after the tables `gone` are deleted: ended ones lose
      their table, the others at those tables are deleted. */
  function Detach(res: map<int, Reservation>, restaurants: map<int, Restaurant>, rid: int, gone: set<int>, now: int): map<int, Reservation>
  {
    if rid !in restaurants then res
    else
      map k | k in res && !(AtRemovedTable(res[k], rid, gone) && !EndedBefore(res[k], restaurants, rid, now))
        :: if AtRemovedTable(res[k], rid, gone) then res[k].(table := None) else res[k]
  }

  /** The rows and reservations `update_tables` leaves behind. */
  ghost function Reconciled(tables: map<int, TableRow>, rid: int, newTables: seq<Table>): map<int, TableRow>
  {
    var p := PlaceAll(Plan(tables, TableDictOf(tables, rid)), rid, newTables);
    WithoutRows(p.tables, Leftover(p.dict))
  }

  /** The rows `update_tables` deletes. */
  ghost function LeftoverRows(tables: map<int, TableRow>, rid: int, newTables: seq<Table>): set<int>
  {
    Leftover(PlaceAll(Plan(tables, TableDictOf(tables, rid)), rid, newTables).dict)
  }

  /** Deletes one leftover table and settles its reservations. */
  method RemoveTable(db: Session, rid: int, id: int, now: int)
    modifies db`tables, db`reservations
    ensures db.tables == WithoutRows(old(db.tables), {id})
    ensures db.reservations == Detach(old(db.reservations), db.restaurants, rid, {id}, now)
  {
    db.reservations := Detach(db.reservations, db.restaurants, rid, {id}, now);
    db.tables := WithoutRows(db.tables, {id});
  }

  /** `update_tables`. */
  method UpdateTables(db: Session, rid: int, newTables: seq<Table>, now: int)
    modifies db`tables, db`reservations
    ensures db.tables == Reconciled(old(db.tables), rid, newTables)
    ensures db.reservations == Detach(old(db.reservations), db.restaurants, rid, LeftoverRows(old(db.tables), rid, newTables), now)
  {
    var d := BuildTableDict(db.tables, rid);
    TableDictDetermined(db.tables, rid, d);
    ghost var p0 := Plan(db.tables, d);
    ghost var r0 := db.reservations;
    for i := 0 to |newTables|
      invariant Plan(db.tables, d) == PlaceAll(p0, rid, newTables[..i])
      invariant db.reservations == r0
    {
      var t := newTables[i];
      if t.realId in d {
        db.tables := db.tables[d[t.realId] := TableRow(rid, t)];
        d := d - {t.realId};
      } else {
        var k := FreshKey(db.tables);
        db.tables := db.tables[k := TableRow(rid, t)];
      }
      assert newTables[..i + 1][..i] == newTables[..i];
    }
    assert newTables[..|newTables|] == newTables;
    ghost var placed := db.tables;
    var gone := Leftover(d);
    var todo := gone;
    DetachNothing(r0, db.restaurants, rid, now);
    assert gone - todo == {};
    while todo != {}
      invariant todo <= gone
      invariant db.tables == WithoutRows(placed, gone - todo)
      invariant db.reservations == Detach(r0, db.restaurants, rid, gone - todo, now)
      decreases todo
    {
      EmptyIff(todo);
      var id :| id in todo;
      RemoveTable(db, rid, id, now);
      DetachTwice(r0, db.restaurants, rid, gone - todo, id, now);
      assert (gone - todo) + {id} == gone - (todo - {id});
      assert WithoutRows(WithoutRows(placed, gone - todo), {id}) == WithoutRows(placed, gone - (todo - {id}));
      todo := todo - {id};
    }
    assert gone - todo == gone;
  }

  /** Deleting no table changes no reservation. */
  lemma DetachNothing(res: map<int, Reservation>, restaurants: map<int, Restaurant>, rid: int, now: int)
    ensures Detach(res, restaurants, rid, {}, now) == res
  {
    var d := Detach(res, restaurants, rid, {}, now);
    assert forall k :: k in res ==> !AtRemovedTable(res[k], rid, {});
    assert d.Keys == res.Keys;
  }

  /** Deleting tables one after the other settles the reservations the same
      way as deleting them together. */
  lemma DetachTwice(res: map<int, Reservation>, restaurants: map<int, Restaurant>, rid: int, gone: set<int>, id: int, now: int)
    requires id !in gone
    ensures Detach(Detach(res, restaurants, rid, gone, now), restaurants, rid, {id}, now)
      == Detach(res, restaurants, rid, gone + {id}, now)
  {
    var m := Detach(res, restaurants, rid, gone, now);
    var a := Detach(m, restaurants, rid, {id}, now);
    var b := Detach(res, restaurants, rid, gone + {id}, now);
    if rid in restaurants {
      forall k | k in res
        ensures (k in a <==> k in b) && (k in a ==> a[k] == b[k])
      {
        var x := res[k];
        if AtRemovedTable(x, rid, gone) {
          assert AtRemovedTable(x, rid, gone + {id});
          if k in m {
            assert !AtRemovedTable(m[k], rid, {id});
          }
        } else {
          assert k in m && m[k] == x;
          assert AtRemovedTable(x, rid, {id}) <==> AtRemovedTable(x, rid, gone + {id});
        }
      }
      assert a.Keys == b.Keys;
    }
  }

  // Properties of the reconciliation ---------------------------------------

  /** The rows of the restaurant that are no longer in the dictionary. */
  function Settled(p: Plan, rid: int): set<int>
  {
    set k | k in p.tables && p.tables[k].restaurant == rid && k !in Leftover(p.dict)
  }

  /** Every dictionary entry names a row of the restaurant with that real id. */
  predicate DictOk(p: Plan, rid: int)
  {
    forall r :: r in p.dict ==>
      (p.dict[r] in p.tables && p.tables[p.dict[r]].restaurant == rid && p.tables[p.dict[r]].table.realId == r)
  }

  /** One step keeps the dictionary well formed, settles exactly the rows it
      touches, and gives them the submitted table. */
  lemma PlaceStep(p: Plan, rid: int, t: Table)
    requires DictOk(p, rid)
    ensures DictOk(Place(p, rid, t), rid)
    ensures var q := Place(p, rid, t);
      && (forall k :: k in Settled(q, rid) ==>
            (k in Settled(p, rid) && q.tables[k] == p.tables[k]) || q.tables[k] == TableRow(rid, t))
      && (exists k :: k in Settled(q, rid) && q.tables[k] == TableRow(rid, t))
      && (forall k :: k in Settled(p, rid) ==> k in Settled(q, rid) && q.tables[k] == p.tables[k])
  {
    var q := Place(p, rid, t);
    if t.realId in p.dict {
      var kd := p.dict[t.realId];
      forall r | r in q.dict
        ensures q.dict[r] != kd
      {
        assert p.tables[p.dict[r]].table.realId == r;
      }
      forall x | x in Leftover(p.dict)
        ensures x in Leftover(q.dict) || x == kd
      {
        var r :| r in p.dict && p.dict[r] == x;
        if r != t.realId {
          assert r in q.dict;
        }
      }
      assert Leftover(p.dict) == Leftover(q.dict) + {kd};
      assert kd in Settled(q, rid);
      forall k | k in Settled(p, rid)
        ensures k in Settled(q, rid) && q.tables[k] == p.tables[k]
      {
        assert k != kd;
      }
    } else {
      var kn := NextKey(p.tables.Keys);
      assert kn !in Leftover(q.dict);
      assert kn in Settled(q, rid);
    }
  }

  /** The table rows the submitted tables have produced so far. */
  ghost predicate SettledAreSubmitted(p: Plan, rid: int, ts: seq<Table>)
  {
    && (forall k :: k in Settled(p, rid) ==> p.tables[k].table in ts)
    && (forall i :: 0 <= i < |ts| ==> exists k :: k in Settled(p, rid) && p.tables[k] == TableRow(rid, ts[i]))
  }

  /** With unique stored real ids every row of the restaurant starts out in
      the dictionary; each submitted table then settles one row holding it,
      and nothing else becomes settled. */
  lemma {:induction false} PlaceAllSettles(p0: Plan, rid: int, ts: seq<Table>)
    requires IsTableDict(p0.tables, rid, p0.dict) && UniqueRealIds(p0.tables, rid)
    ensures DictOk(PlaceAll(p0, rid, ts), rid)
    ensures SettledAreSubmitted(PlaceAll(p0, rid, ts), rid, ts)
    decreases |ts|
  {
    if ts == [] {
      forall k | k in p0.tables && p0.tables[k].restaurant == rid
        ensures k in Leftover(p0.dict)
      {
        UniqueTableDict(p0.tables, rid, p0.dict);
        assert p0.dict[p0.tables[k].table.realId] == k;
      }
      assert Settled(p0, rid) == {};
    } else {
      var front, t := ts[..|ts| - 1], ts[|ts| - 1];
      PlaceAllSettles(p0, rid, front);
      assert ts == front + [t];
      SettleStep(PlaceAll(p0, rid, front), rid, front, t);
    }
  }

  /** One more submitted table keeps the settled rows those of the submitted
      tables. */
  lemma SettleStep(p: Plan, rid: int, front: seq<Table>, t: Table)
    requires DictOk(p, rid) && SettledAreSubmitted(p, rid, front)
    ensures DictOk(Place(p, rid, t), rid)
    ensures SettledAreSubmitted(Place(p, rid, t), rid, front + [t])
  {
    var ts := front + [t];
    var q := Place(p, rid, t);
    PlaceStep(p, rid, t);
    forall k | k in Settled(q, rid)
      ensures q.tables[k].table in ts
    {
      if q.tables[k] != TableRow(rid, t) {
        assert p.tables[k].table in front;
      }
    }
    forall i | 0 <= i < |ts|
      ensures exists k :: k in Settled(q, rid) && q.tables[k] == TableRow(rid, ts[i])
    {
      if i < |front| {
        assert ts[i] == front[i];
        var k :| k in Settled(p, rid) && p.tables[k] == TableRow(rid, front[i]);
        assert k in Settled(q, rid) && q.tables[k] == p.tables[k];
      }
    }
  }

  /** When the restaurant's stored real ids are unique, after `update_tables`
      its rows are exactly the submitted tables: every row holds a submitted
      table, every submitted table is held by a row, and so the set of real
      ids is the submitted one. */
  lemma ReconciledRowsAreSubmitted(tables: map<int, TableRow>, rid: int, newTables: seq<Table>)
    requires UniqueRealIds(tables, rid)
    ensures var r := Reconciled(tables, rid, newTables);
      && (forall k :: k in r && r[k].restaurant == rid ==> r[k].table in newTables)
      && (forall t :: t in newTables ==> exists k :: k in r && r[k] == TableRow(rid, t))
      && RealIdsOf(r, rid) == set t | t in newTables :: t.realId
  {
    var d := TableDictOf(tables, rid);
    TableDictOfIsTableDict(tables, rid);
    var p := PlaceAll(Plan(tables, d), rid, newTables);
    var r := WithoutRows(p.tables, Leftover(p.dict));
    PlaceAllSettles(Plan(tables, d), rid, newTables);
    forall t | t in newTables
      ensures exists k :: k in r && r[k] == TableRow(rid, t)
    {
      var i :| 0 <= i < |newTables| && newTables[i] == t;
      var k :| k in Settled(p, rid) && p.tables[k] == TableRow(rid, newTables[i]);
      assert k in r;
    }
    forall s | s in RealIdsOf(r, rid)
      ensures s in set t | t in newTables :: t.realId
    {
      var k :| k in r && r[k].restaurant == rid && r[k].table.realId == s;
      assert k in Settled(p, rid);
      assert r[k].table in newTables;
    }
    forall s | s in set t | t in newTables :: t.realId
      ensures s in RealIdsOf(r, rid)
    {
      var t :| t in newTables && t.realId == s;
      var k :| k in r && r[k] == TableRow(rid, t);
      assert r[k].restaurant == rid && r[k].table.realId == s;
    }
  }

  /** Rows of other restaurants are never touched. */
  lemma {:induction false} PlaceAllKeepsOthers(p0: Plan, rid: int, ts: seq<Table>)
    requires DictOk(p0, rid)
    ensures DictOk(PlaceAll(p0, rid, ts), rid)
    ensures forall k :: k in p0.tables && p0.tables[k].restaurant != rid ==>
      k in PlaceAll(p0, rid, ts).tables && PlaceAll(p0, rid, ts).tables[k] == p0.tables[k]
    decreases |ts|
  {
    if ts != [] {
      var front, t := ts[..|ts| - 1], ts[|ts| - 1];
      PlaceAllKeepsOthers(p0, rid, front);
      var p := PlaceAll(p0, rid, front);
      PlaceStep(p, rid, t);
    }
  }

  /** `update_tables` leaves every other restaurant's rows as they were. */
  lemma ReconciledKeepsOtherRestaurants(tables: map<int, TableRow>, rid: int, newTables: seq<Table>)
    ensures var r := Reconciled(tables, rid, newTables);
      forall k :: k in tables && tables[k].restaurant != rid ==> k in r && r[k] == tables[k]
  {
    var d := TableDictOf(tables, rid);
    TableDictOfIsTableDict(tables, rid);
    var p := PlaceAll(Plan(tables, d), rid, newTables);
    PlaceAllKeepsOthers(Plan(tables, d), rid, newTables);
    forall k | k in tables && tables[k].restaurant != rid
      ensures k !in Leftover(p.dict)
    {
      assert forall r :: r in p.dict ==> p.tables[p.dict[r]].restaurant == rid;
    }
  }

  /** Distinct real ids in a submitted list. */
  predicate DistinctRealIds(ts: seq<Table>)
  {
    forall i, j :: 0 <= i < j < |ts| ==> ts[i].realId != ts[j].realId
  }

  /** With distinct submitted real ids, a real id is still in the dictionary
      exactly when no submitted table so far carries it, and the matched row
      of every submitted table keeps its id and holds that table. */
  lemma {:induction false} PlaceAllMatches(p0: Plan, rid: int, ts: seq<Table>)
    requires DictOk(p0, rid) && DistinctRealIds(ts)
    ensures var p := PlaceAll(p0, rid, ts);
      && (forall r :: r in p.dict <==> r in p0.dict && forall t :: t in ts ==> t.realId != r)
      && (forall r :: r in p.dict ==> p.dict[r] == p0.dict[r])
      && (forall t :: t in ts && t.realId in p0.dict ==>
            p0.dict[t.realId] in p.tables && p.tables[p0.dict[t.realId]] == TableRow(rid, t))
    decreases |ts|
  {
    if ts != [] {
      var front, t := ts[..|ts| - 1], ts[|ts| - 1];
      assert DistinctRealIds(front);
      PlaceAllMatches(p0, rid, front);
      PlaceAllKeepsOthers(p0, rid, front);
      var p := PlaceAll(p0, rid, front);
      var q := Place(p, rid, t);
      assert forall u :: u in front ==> u.realId != t.realId;
      forall u | u in ts && u.realId in p0.dict
        ensures p0.dict[u.realId] in q.tables && q.tables[p0.dict[u.realId]] == TableRow(rid, u)
      {
        if u != t {
          assert u in front;
          assert u.realId != t.realId;
          if t.realId in p.dict {
            assert p.tables[p.dict[t.realId]].table.realId == t.realId;
            assert p.dict[t.realId] != p0.dict[u.realId];
          }
        }
      }
    }
  }

  /** With distinct submitted real ids, a submitted table whose real id is
      stored overwrites that row in place: the row keeps its id. */
  lemma MatchedRowsKeepTheirId(tables: map<int, TableRow>, rid: int, newTables: seq<Table>)
    requires DistinctRealIds(newTables)
    ensures var d, r := TableDictOf(tables, rid), Reconciled(tables, rid, newTables);
      forall t :: t in newTables && t.realId in d ==> d[t.realId] in r && r[d[t.realId]] == TableRow(rid, t)
  {
    var d := TableDictOf(tables, rid);
    TableDictOfIsTableDict(tables, rid);
    var p := PlaceAll(Plan(tables, d), rid, newTables);
    PlaceAllMatches(Plan(tables, d), rid, newTables);
    forall t | t in newTables && t.realId in d
      ensures d[t.realId] !in Leftover(p.dict)
    {
      forall r | r in p.dict
        ensures p.dict[r] != d[t.realId]
      {
        assert tables[d[r]].table.realId == r;
      }
    }
  }

  /** After the deletion no reservation of the restaurant refers to a deleted
      table; reservations elsewhere are untouched, ended ones are kept. */
  lemma DetachLeavesNoDangling(res: map<int, Reservation>, restaurants: map<int, Restaurant>, rid: int, gone: set<int>, now: int)
    requires rid in restaurants
    ensures var r := Detach(res, restaurants, rid, gone, now);
      && (forall k :: k in r ==> !AtRemovedTable(r[k], rid, gone))
      && (forall k :: k in res && !AtRemovedTable(res[k], rid, gone) ==> k in r && r[k] == res[k])
      && (forall k :: k in res && AtRemovedTable(res[k], rid, gone) ==>
            (k in r <==> EndOf(res[k], restaurants[rid].lengthMinutes) < now))
      && (forall k :: k in r ==> k in res && r[k].(table := res[k].table) == res[k])
  {
  }

  // ---------------------------------------------------------------------
  // The planner handlers
  // ---------------------------------------------------------------------

  /** `update_precision`. */
  method UpdatePrecision(db: Session, rid: int, precision: int)
    modifies db`restaurants
    ensures db.restaurants == if rid in old(db.restaurants)
      then old(db.restaurants)[rid := old(db.restaurants)[rid].(precision := precision)]
      else old(db.restaurants)
  {
    if rid in db.restaurants {
      db.restaurants := db.restaurants[rid := db.restaurants[rid].(precision := precision)];
    }
  }

  /** `save_precision`: a precision outside [15, 50] is refused with 400. */
  method SavePrecision(db: Session, rid: int, precision: int) returns (reply: Reply<()>)
    modifies db`restaurants
    ensures reply.Refused? <==> !(MinPrecision <= precision <= MaxPrecision)
    ensures reply.Refused? ==> reply.status == 400 && db.restaurants == old(db.restaurants)
    ensures reply.Ok? ==> db.restaurants == if rid in old(db.restaurants)
      then old(db.restaurants)[rid := old(db.restaurants)[rid].(precision := precision)]
      else old(db.restaurants)
    ensures !reply.Crash?
  {
    if precision < 15 || precision > 50 {
      return Refused(400);
    }
    UpdatePrecision(db, rid, precision);
    return Ok(());
  }

  /** `save_planner_info`: validates the plan and, only when no check fails,
      stores the precision, the tables and the borders; otherwise it answers
      400 with the messages and writes nothing. Storing the tables detaches
      the reservations of tables that leave the plan. */
  method SavePlannerInfo(db: Session, rid: int, info: PlannerInfo, now: int) returns (reply: Reply<()>, messages: set<string>)
    modifies db`restaurants, db`tables, db`borders, db`reservations
    ensures reply.Ok? <==> PlanIsValid(info)
    ensures !reply.Crash?
    ensures reply.Refused? ==> reply.status == 400 && messages == Messages(ValidationErrors(info)) && messages != {}
    ensures reply.Refused? ==> unchanged(db`restaurants, db`tables, db`borders, db`reservations)
    ensures reply.Ok? ==> db.tables == Reconciled(old(db.tables), rid, info.tables)
    ensures reply.Ok? && UniqueRealIds(old(db.tables), rid) ==>
      RealIdsOf(db.tables, rid) == set t | t in info.tables :: t.realId
    ensures reply.Ok? ==> db.restaurants == if rid in old(db.restaurants)
      then old(db.restaurants)[rid := old(db.restaurants)[rid].(precision := info.precision)]
      else old(db.restaurants)
    ensures reply.Ok? ==>
      db.reservations == Detach(old(db.reservations), db.restaurants, rid, LeftoverRows(old(db.tables), rid, info.tables), now)
    ensures reply.Ok? ==> exists base ::
      && (forall k :: k in old(db.borders) ==> k < base)
      && db.borders == ReplacedBorders(old(db.borders), rid, info.borders, base)
  {
    var errors := IsDataValid(info);
    NoErrorsIffValid(info);
    MessagesEmptyIff(errors);
    messages := Messages(errors);
    if messages != {} {
      return Refused(400), messages;
    }
    UpdatePrecision(db, rid, info.precision);
    UpdateTables(db, rid, info.tables, now);
    if UniqueRealIds(old(db.tables), rid) {
      ReconciledRowsAreSubmitted(old(db.tables), rid, info.tables);
    }
    UpdateBorders(db, rid, info.borders);
    return Ok(()), messages;
  }
}
