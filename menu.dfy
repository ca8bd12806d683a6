/**
 * The restaurant's menu: categories and items, their display order, prices,
 * and the patching of open orders when an item is edited.
 *
 * The item queries of the backend scope items with
 * `category.has(restaurant_id == restaurant_id)`, which compares the
 * parameter with itself; the condition is therefore only "the item's category
 * exists", and items are not scoped to the owner's restaurant. The model
 * follows that.
 */
module Menu {
  import opened Common
  import opened Store
  import opened Reservations

  // ------------------------------------------------------------- helpers

  /** `str(n)` for a natural number. */
  function NatToString(n: nat): (s: string)
    ensures |s| >= 1 && forall i :: 0 <= i < |s| ==> '0' <= s[i] <= '9'
  {
    var d := ['0', '1', '2', '3', '4', '5', '6', '7', '8', '9'][n % 10];
    if n < 10 then [d] else NatToString(n / 10) + [d]
  }

  /** The ids of a restaurant's categories. */
  function CategoryIds(cats: map<int, Category>, rid: int): set<int>
  {
    set c | c in cats && cats[c].restaurant == rid
  }

  // ---------------------------------------------------- adding a category

  /** The display order of a restaurant's categories. */
  function OrdersOf(cats: map<int, Category>, rid: int): map<int, int>
  {
    map c | c in cats && cats[c].restaurant == rid :: cats[c].order
  }

  /** The order values in use in an order map. */
  function Values(ord: map<int, int>): set<int>
  {
    set c | c in ord :: ord[c]
  }

  /** The order a new entry receives: one past the largest in use, or 1. */
  ghost function NextOrder(ord: map<int, int>): (o: int)
    ensures forall c :: c in ord ==> ord[c] < o
    ensures ord == map[] ==> o == 1
    ensures ord != map[] ==> exists c :: c in ord && o == ord[c] + 1
  {
    var vs := Values(ord);
    assert forall c :: c in ord ==> ord[c] in vs;
    if vs == {} then
      assert ord.Keys == {};
      1
    else
      MaxKey(vs) + 1
  }

  /** Computes `NextOrder`. */
  method FindNextOrder(ord: map<int, int>) returns (o: int)
    ensures o == NextOrder(ord)
  {
    var vs := Values(ord);
    if vs == {} {
      o := 1;
    } else {
      var top := FindMax(vs);
      o := top + 1;
    }
  }

  /** The name of the n-th category. */
  function DefaultCategoryName(n: nat): string
  {
    "Kategoria" + NatToString(n)
  }

  /** Adds a visible category, named after the number of categories the
      restaurant will then have, placed after the others. */
  method AddNewCategory(db: Session, rid: int) returns (id: int)
    modifies db`categories
    ensures id !in old(db.categories) && id == NextKey(old(db.categories).Keys)
    ensures db.categories == old(db.categories)[id :=
      Category(rid, DefaultCategoryName(|CategoryIds(old(db.categories), rid)| + 1),
               NextOrder(OrdersOf(old(db.categories), rid)), true)]
  {
    var count := |CategoryIds(db.categories, rid)|;
    var order := FindNextOrder(OrdersOf(db.categories, rid));
    id := FreshKey(db.categories);
    db.categories := db.categories[id := Category(rid, DefaultCategoryName(count + 1), order, true)];
  }

  /** A new category goes after every category of its restaurant, and is the
      first one at order 1 when there were none. */
  lemma NewCategoryGoesLast(cats: map<int, Category>, rid: int, id: int)
    requires id !in cats
    ensures var c := Category(rid, DefaultCategoryName(|CategoryIds(cats, rid)| + 1), NextOrder(OrdersOf(cats, rid)), true);
            (forall k :: k in cats && cats[k].restaurant == rid ==> cats[k].order < c.order)
            && (CategoryIds(cats, rid) == {} ==> c.order == 1)
            && OrdersOf(cats[id := c], rid) == OrdersOf(cats, rid)[id := c.order]
  {
    var c := Category(rid, DefaultCategoryName(|CategoryIds(cats, rid)| + 1), NextOrder(OrdersOf(cats, rid)), true);
    forall k | k in cats && cats[k].restaurant == rid
      ensures cats[k].order < c.order
    {
      assert k in OrdersOf(cats, rid);
    }
    assert OrdersOf(cats, rid).Keys == CategoryIds(cats, rid);
    assert OrdersOf(cats[id := c], rid) == OrdersOf(cats, rid)[id := c.order];
  }

  // -------------------------------------------------- deleting a category

  /** The items left when a category's items are deleted. */
  function ItemsOutside(items: map<int, Item>, cid: int): (r: map<int, Item>)
    ensures forall k :: k in r ==> r[k].category != Some(cid)
    ensures forall k :: k in items && items[k].category != Some(cid) ==> k in r && r[k] == items[k]
    ensures r.Keys <= items.Keys
  {
    map k | k in items && items[k].category != Some(cid) :: items[k]
  }

  /** Deletes one of the restaurant's categories with all its items; a
      category of another restaurant, or none, is refused unchanged. */
  method DeleteRestaurantCategory(db: Session, rid: int, cid: int) returns (ok: bool)
    modifies db`categories, db`items
    ensures ok == (cid in old(db.categories) && old(db.categories)[cid].restaurant == rid)
    ensures ok ==> db.categories == old(db.categories) - {cid} && db.items == ItemsOutside(old(db.items), cid)
    ensures !ok ==> db.categories == old(db.categories) && db.items == old(db.items)
  {
    ok := cid in db.categories && db.categories[cid].restaurant == rid;
    if !ok {
      return;
    }
    var doomed := set k | k in db.items && db.items[k].category == Some(cid);
    var todo := doomed;
    while todo != {}
      invariant todo <= doomed
      invariant db.categories == old(db.categories)
      invariant db.items == map k | k in old(db.items) && (k !in doomed || k in todo) :: old(db.items)[k]
      decreases todo
    {
      EmptyIff(todo);
      var k :| k in todo;
      db.items := db.items - {k};
      todo := todo - {k};
    }
    assert db.items == ItemsOutside(old(db.items), cid);
    db.categories := db.categories - {cid};
  }

  // --------------------------------------------------- category visibility

  /** The categories with one category's visibility flipped. */
  function Flipped(cats: map<int, Category>, cid: int): map<int, Category>
    requires cid in cats
  {
    cats[cid := cats[cid].(visible := !cats[cid].visible)]
  }

  /** Shows a hidden category of the restaurant or hides a shown one; another
      restaurant's category, or none, is refused unchanged. */
  method UpdateCategoryVisibility(db: Session, rid: int, cid: int) returns (ok: bool)
    modifies db`categories
    ensures ok == (cid in old(db.categories) && old(db.categories)[cid].restaurant == rid)
    ensures db.categories == if ok then Flipped(old(db.categories), cid) else old(db.categories)
  {
    ok := cid in db.categories && db.categories[cid].restaurant == rid;
    if ok {
      db.categories := Flipped(db.categories, cid);
    }
  }

  /** Switching twice restores every category; one switch changes only the
      visibility of the one category. */
  lemma FlipTwiceRestores(cats: map<int, Category>, cid: int)
    requires cid in cats
    ensures Flipped(cats, cid)[cid].visible == !cats[cid].visible
    ensures Flipped(cats, cid)[cid].(visible := cats[cid].visible) == cats[cid]
    ensures Flipped(Flipped(cats, cid), cid) == cats
  {
    assert Flipped(Flipped(cats, cid), cid).Keys == cats.Keys;
  }

  // -------------------------------------------------------- the move rule

  /** `x` is listed before `y` when ordered by order value (ties broken by id). */
  predicate Before(ord: map<int, int>, x: int, y: int)
    requires x in ord && y in ord
  {
    ord[x] < ord[y] || (ord[x] == ord[y] && x < y)
  }

  /** Strictly between the order values of `x` and `y`. */
  predicate Between(ord: map<int, int>, x: int, y: int, v: int)
    requires x in ord && y in ord
  {
    (ord[x] < v < ord[y]) || (ord[y] < v < ord[x])
  }

  /** The "move" of entry `id1` to the place of entry `id2`: with `lo` and
      `hi` the order values of the earlier and the later of the two, the
      entries strictly between them shift one step toward `id1`'s value, and
      the two selected entries take `hi` and `hi - 1` (moving down the list)
      or `lo + 1` and `lo` (moving up). `None` unless both are present and
      different. */
  function Moved(ord: map<int, int>, id1: int, id2: int): (r: Option<map<int, int>>)
    ensures r.Some? <==> id1 != id2 && id1 in ord && id2 in ord
    ensures r.Some? ==> r.value.Keys == ord.Keys
  {
    if id1 == id2 || id1 !in ord || id2 !in ord then None
    else
      var down := Before(ord, id1, id2);
      var a := if down then id1 else id2;
      var b := if down then id2 else id1;
      var lo := ord[a];
      var hi := ord[b];
      Some(map c | c in ord ::
        if c == a then (if down then hi else lo + 1)
        else if c == b then (if down then hi - 1 else lo)
        else if lo < ord[c] < hi then (if down then ord[c] - 1 else ord[c] + 1)
        else ord[c])
  }

  /** The move in terms of the two requested entries: `id1` takes `id2`'s old
      value, `id2` and every entry strictly between them shift one step toward
      `id1`'s old value, and every other entry keeps its value. */
  lemma MoveRule(ord: map<int, int>, id1: int, id2: int)
    requires Moved(ord, id1, id2).Some?
    ensures Moved(ord, id1, id2).value[id1] == ord[id2]
    ensures Moved(ord, id1, id2).value[id2] == ord[id2] + (if Before(ord, id1, id2) then -1 else 1)
    ensures forall c :: c in ord && c != id1 && c != id2 ==>
      Moved(ord, id1, id2).value[c] ==
        if Between(ord, id1, id2, ord[c]) then ord[c] + (if Before(ord, id1, id2) then -1 else 1) else ord[c]
  {
  }

  /** No two entries share an order value. */
  ghost predicate DistinctOrders(ord: map<int, int>)
  {
    forall x, y :: x in ord && y in ord && x != y ==> ord[x] != ord[y]
  }

  /** Every value from one of the two entries' order to the other's is in use. */
  ghost predicate Consecutive(ord: map<int, int>, id1: int, id2: int)
    requires id1 in ord && id2 in ord
  {
    forall v :: (ord[id1] <= v <= ord[id2] || ord[id2] <= v <= ord[id1]) ==> v in Values(ord)
  }

  /** When the values from one entry's order to the other's are consecutive
      and distinct, the move permutes them: the values in use stay the same
      and stay distinct. */
  lemma MoveKeepsOrderValues(ord: map<int, int>, id1: int, id2: int)
    requires Moved(ord, id1, id2).Some?
    requires DistinctOrders(ord) && Consecutive(ord, id1, id2)
    ensures DistinctOrders(Moved(ord, id1, id2).value)
    ensures Values(Moved(ord, id1, id2).value) == Values(ord)
  {
    MoveCoversValues(ord, id1, id2);
    MoveStaysWithinValues(ord, id1, id2);
    MoveKeepsDistinct(ord, id1, id2);
  }

  /** Every value in use before the move is still in use after it. */
  lemma MoveCoversValues(ord: map<int, int>, id1: int, id2: int)
    requires Moved(ord, id1, id2).Some?
    requires DistinctOrders(ord) && Consecutive(ord, id1, id2)
    ensures Values(ord) <= Values(Moved(ord, id1, id2).value)
  {
    var m := Moved(ord, id1, id2).value;
    var down := Before(ord, id1, id2);
    var a := if down then id1 else id2;
    var b := if down then id2 else id1;
    var lo := ord[a];
    var hi := ord[b];
    assert lo < hi;
    forall v | v in Values(ord)
      ensures v in Values(m)
    {
      var c :| c in ord && ord[c] == v;
      if v < lo || hi < v {
        assert m[c] == v;
      } else if down {
        if v == hi {
          assert m[a] == v;
        } else {
          assert v + 1 in Values(ord);
          var e :| e in ord && ord[e] == v + 1;
          assert m[e] == v;
        }
      } else {
        if v == lo {
          assert m[b] == v;
        } else {
          assert v - 1 in Values(ord);
          var e :| e in ord && ord[e] == v - 1;
          assert m[e] == v;
        }
      }
    }
  }

  /** The move hands out no value that was not in use. */
  lemma MoveStaysWithinValues(ord: map<int, int>, id1: int, id2: int)
    requires Moved(ord, id1, id2).Some?
    requires DistinctOrders(ord) && Consecutive(ord, id1, id2)
    ensures Values(Moved(ord, id1, id2).value) <= Values(ord)
  {
    var m := Moved(ord, id1, id2).value;
    var down := Before(ord, id1, id2);
    var lo := if down then ord[id1] else ord[id2];
    var hi := if down then ord[id2] else ord[id1];
    assert lo < hi;
    forall v | v in Values(m)
      ensures v in Values(ord)
    {
      var c :| c in m && m[c] == v;
      assert lo <= v <= hi ==> v in Values(ord);
    }
  }

  /** The move gives no two entries the same value. */
  lemma MoveKeepsDistinct(ord: map<int, int>, id1: int, id2: int)
    requires Moved(ord, id1, id2).Some?
    requires DistinctOrders(ord)
    ensures DistinctOrders(Moved(ord, id1, id2).value)
  {
  }


  /** Rewrites the order values of the entries an order map names. */
  function WithOrders(cats: map<int, Category>, ord: map<int, int>): map<int, Category>
  {
    map c | c in cats :: if c in ord then cats[c].(order := ord[c]) else cats[c]
  }

  /** Computes the move: the entries strictly between the two shift one at a
      time, then the two endpoints take their new values. */
  method MoveOrders(ord: map<int, int>, id1: int, id2: int) returns (next: map<int, int>)
    requires Moved(ord, id1, id2).Some?
    ensures next == Moved(ord, id1, id2).value
  {
    var down := Before(ord, id1, id2);
    var a := if down then id1 else id2;
    var b := if down then id2 else id1;
    var lo := ord[a];
    var hi := ord[b];
    var between := set c | c in ord && lo < ord[c] < hi;
    next := ord;
    var todo := between;
    while todo != {}
      invariant todo <= between
      invariant next.Keys == ord.Keys
      invariant forall c :: c in next ==>
        next[c] == if c in between && c !in todo then (if down then ord[c] - 1 else ord[c] + 1) else ord[c]
      decreases todo
    {
      EmptyIff(todo);
      var c :| c in todo;
      next := next[c := if down then next[c] - 1 else next[c] + 1];
      todo := todo - {c};
    }
    next := next[a := if down then hi else lo + 1];
    next := next[b := if down then hi - 1 else lo];
    forall c | c in next
      ensures next[c] == Moved(ord, id1, id2).value[c]
    {
    }
  }

  /** Applies the move to the restaurant's categories. */
  method UpdateCategoriesOrders(db: Session, rid: int, id1: int, id2: int) returns (ok: bool)
    modifies db`categories
    ensures ok == Moved(OrdersOf(old(db.categories), rid), id1, id2).Some?
    ensures ok ==> db.categories == WithOrders(old(db.categories), Moved(OrdersOf(old(db.categories), rid), id1, id2).value)
    ensures !ok ==> db.categories == old(db.categories)
  {
    var ord := OrdersOf(db.categories, rid);
    if id1 == id2 || id1 !in ord || id2 !in ord {
      return false;
    }
    var next := MoveOrders(ord, id1, id2);
    db.categories := WithOrders(db.categories, next);
    ok := true;
  }

  // ----------------------------------------------------- renaming a category

  /** The names of a restaurant's categories. */
  function NamesOf(cats: map<int, Category>, rid: int): set<string>
  {
    set c | c in cats && cats[c].restaurant == rid :: cats[c].name
  }

  /** Renames one of the restaurant's categories, unless the new name is
      already used by any category of the restaurant (its own included). */
  method UpdateCategoryName(db: Session, rid: int, cid: int, name: string) returns (ok: bool)
    modifies db`categories
    ensures ok == (name !in NamesOf(old(db.categories), rid) && cid in old(db.categories)
                   && old(db.categories)[cid].restaurant == rid)
    ensures db.categories == if ok then old(db.categories)[cid := old(db.categories)[cid].(name := name)] else old(db.categories)
  {
    if name in NamesOf(db.categories, rid) {
      return false;
    }
    if cid !in db.categories || db.categories[cid].restaurant != rid {
      return false;
    }
    var others := set c | c in db.categories && db.categories[c].restaurant == rid && c != cid :: db.categories[c].name;
    if name in others {
      return false;
    }
    db.categories := db.categories[cid := db.categories[cid].(name := name)];
    ok := true;
  }

  /** The restaurant's category names are pairwise different. */
  predicate UniqueNames(cats: map<int, Category>, rid: int)
  {
    forall x, y :: x in cats && y in cats && x != y && cats[x].restaurant == rid && cats[y].restaurant == rid
      ==> cats[x].name != cats[y].name
  }

  /** A rename the handler accepts keeps the names unique, and renaming a
      category to its own name is refused. */
  lemma RenameKeepsNamesUnique(cats: map<int, Category>, rid: int, cid: int, name: string)
    requires UniqueNames(cats, rid)
    requires cid in cats && cats[cid].restaurant == rid
    ensures cats[cid].name in NamesOf(cats, rid)
    ensures name !in NamesOf(cats, rid) ==> UniqueNames(cats[cid := cats[cid].(name := name)], rid)
  {
    if name !in NamesOf(cats, rid) {
      var after := cats[cid := cats[cid].(name := name)];
      forall x, y | x in after && y in after && x != y && after[x].restaurant == rid && after[y].restaurant == rid
        ensures after[x].name != after[y].name
      {
        if x == cid {
          assert cats[y].name in NamesOf(cats, rid);
        } else if y == cid {
          assert cats[x].name in NamesOf(cats, rid);
        }
      }
    }
  }

  // ------------------------------------------------------------------ items

  const MinPrice: int := 10
  const MaxPrice: int := 999999

  /** The price bounds of an item: from 0,10 zł to 9999,99 zł. */
  predicate PriceOk(price: int)
  {
    MinPrice <= price <= MaxPrice
  }

  /** Items whose category exists: what `category.has(...)` keeps. */
  predicate HasCategory(items: map<int, Item>, cats: map<int, Category>, k: int)
  {
    k in items && items[k].category.Some? && items[k].category.value in cats
  }

  /** The order values of every item that has a category -- of all
      restaurants. */
  function ItemOrders(items: map<int, Item>, cats: map<int, Category>): map<int, int>
  {
    map k | k in items && HasCategory(items, cats, k) :: items[k].order
  }

  /** The order values of the items of one category. */
  function CategoryItemOrders(items: map<int, Item>, cats: map<int, Category>, cid: int): map<int, int>
  {
    map k | k in items && HasCategory(items, cats, k) && items[k].category == Some(cid) :: items[k].order
  }

  /** The item a create or an update stores: the submitted fields, in the
      given category at the given order. */
  function Placed(item: Item, cid: int, order: int): Item
  {
    item.(category := Some(cid), order := order)
  }

  /** Adds an item to one of the restaurant's categories, after every item of
      every category; a missing category or a price out of bounds is
      refused. */
  method CreateMenuItem(db: Session, rid: int, item: Item, cid: int) returns (ok: bool, id: int)
    modifies db`items
    ensures ok == (cid in db.categories && db.categories[cid].restaurant == rid && PriceOk(item.price))
    ensures ok ==>
      (id !in old(db.items) && id == NextKey(old(db.items).Keys)
       && db.items == old(db.items)[id := Placed(item, cid, NextOrder(ItemOrders(old(db.items), db.categories)))])
    ensures !ok ==> db.items == old(db.items)
  {
    id := 0;
    ok := cid in db.categories && db.categories[cid].restaurant == rid && PriceOk(item.price);
    if !ok {
      return;
    }
    var order := FindNextOrder(ItemOrders(db.items, db.categories));
    id := FreshKey(db.items);
    db.items := db.items[id := Placed(item, cid, order)];
  }

  /** The fields an update rewrites: name, description, price, status and
      photo; the category and the order stay. */
  function Edited(old_: Item, item: Item): (r: Item)
    ensures r.category == old_.category && r.order == old_.order
    ensures r.name == item.name && r.description == item.description && r.price == item.price
    ensures r.status == item.status && r.photo == item.photo
  {
    old_.(name := item.name, description := item.description, price := item.price,
          status := item.status, photo := item.photo)
  }

  /** An open order containing the item: accepted, not ended, with a line for
      the item. */
  predicate OpenOrderWith(x: Reservation, restaurants: map<int, Restaurant>, id: int, now: int)
  {
    x.status == Accepted && NotEnded(x, restaurants, now) && id in x.order
  }

  /** One order after the item was edited: the item's line is dropped when the
      item became inactive, otherwise it takes the item's new name and the
      price of its count. */
  function PatchedOrder(order: map<int, OrderLine>, id: int, item: Item): map<int, OrderLine>
    requires id in order
  {
    if item.status == Inactive then order - {id}
    else order[id := OrderLine(order[id].count, item.name, item.price * order[id].count)]
  }

  /** Every reservation after the item was edited. */
  function Patched(res: map<int, Reservation>, restaurants: map<int, Restaurant>, id: int, item: Item, now: int)
    : map<int, Reservation>
  {
    map r | r in res ::
      if OpenOrderWith(res[r], restaurants, id, now) then res[r].(order := PatchedOrder(res[r].order, id, item))
      else res[r]
  }

  /** Patching touches only the item's line of open orders: the line keeps its
      count and takes the new name and price, or disappears when the item
      became inactive, so that no open order holds an inactive item. */
  lemma PatchRule(res: map<int, Reservation>, restaurants: map<int, Restaurant>, id: int, item: Item, now: int)
    ensures Patched(res, restaurants, id, item, now).Keys == res.Keys
    ensures forall r :: r in res && !OpenOrderWith(res[r], restaurants, id, now) ==>
      Patched(res, restaurants, id, item, now)[r] == res[r]
    ensures forall r :: r in res && OpenOrderWith(res[r], restaurants, id, now) ==>
      (var after := Patched(res, restaurants, id, item, now)[r];
       after.(order := res[r].order) == res[r]
       && (forall k :: k != id ==> (k in after.order <==> k in res[r].order))
       && (forall k :: k != id && k in res[r].order ==> after.order[k] == res[r].order[k])
       && (item.status == Inactive ==> id !in after.order)
       && (item.status != Inactive ==>
             id in after.order && after.order[id].count == res[r].order[id].count
             && after.order[id].name == item.name
             && after.order[id].totalPrice == item.price * res[r].order[id].count))
    ensures item.status == Inactive ==>
      forall r :: r in res ==> !OpenOrderWith(Patched(res, restaurants, id, item, now)[r], restaurants, id, now)
  {
  }

  /** The loop of `update_menu_item` over the open orders holding the item:
      each one's line takes the new name and price, or goes when the item
      became inactive. */
  method PatchOpenOrders(res0: map<int, Reservation>, restaurants: map<int, Restaurant>, id: int, edited: Item, now: int)
    returns (res: map<int, Reservation>)
    ensures res == Patched(res0, restaurants, id, edited, now)
  {
    var open := set r | r in res0 && OpenOrderWith(res0[r], restaurants, id, now);
    var todo := open;
    res := res0;
    while todo != {}
      invariant todo <= open
      invariant res.Keys == res0.Keys
      invariant forall r :: r in res ==>
        res[r] == if r in open && r !in todo then res0[r].(order := PatchedOrder(res0[r].order, id, edited)) else res0[r]
      decreases todo
    {
      EmptyIff(todo);
      var r :| r in todo;
      var x := res[r];
      var line := x.order[id];
      var patched := if edited.status == Inactive then x.order - {id}
                     else x.order[id := OrderLine(line.count, edited.name, edited.price * line.count)];
      res := res[r := x.(order := patched)];
      todo := todo - {r};
    }
    forall r | r in res
      ensures res[r] == Patched(res0, restaurants, id, edited, now)[r]
    {
    }
    assert res.Keys == Patched(res0, restaurants, id, edited, now).Keys;
  }

  /** Rewrites an item that the restaurant's category holds at the given
      order, and patches every open order containing it; a missing item or a
      price out of bounds is refused unchanged. */
  method UpdateMenuItem(db: Session, rid: int, id: int, order: int, item: Item, cid: int, now: int) returns (ok: bool)
    modifies db`items, db`reservations
    ensures ok == (HasCategory(old(db.items), db.categories, id) && old(db.items)[id].order == order
                   && old(db.items)[id].category == Some(cid) && PriceOk(item.price))
    ensures ok ==>
      (db.items == old(db.items)[id := Edited(old(db.items)[id], item)]
       && db.reservations == Patched(old(db.reservations), db.restaurants, id, Edited(old(db.items)[id], item), now))
    ensures !ok ==> db.items == old(db.items) && db.reservations == old(db.reservations)
  {
    ok := HasCategory(db.items, db.categories, id) && db.items[id].order == order
          && db.items[id].category == Some(cid) && PriceOk(item.price);
    if !ok {
      return;
    }
    var edited := Edited(db.items[id], item);
    db.items := db.items[id := edited];
    var res := PatchOpenOrders(db.reservations, db.restaurants, id, edited, now);
    db.reservations := res;
  }

  /** Rewrites the order values of the items an order map names. */
  function WithItemOrders(items: map<int, Item>, ord: map<int, int>): map<int, Item>
  {
    map k | k in items :: if k in ord then items[k].(order := ord[k]) else items[k]
  }

  /** Applies the move to the items of one category. */
  method UpdateItemsOrders(db: Session, rid: int, cid: int, id1: int, id2: int) returns (ok: bool)
    modifies db`items
    ensures ok == Moved(CategoryItemOrders(old(db.items), db.categories, cid), id1, id2).Some?
    ensures ok ==> db.items == WithItemOrders(old(db.items), Moved(CategoryItemOrders(old(db.items), db.categories, cid), id1, id2).value)
    ensures !ok ==> db.items == old(db.items)
  {
    var ord := CategoryItemOrders(db.items, db.categories, cid);
    if id1 == id2 || id1 !in ord || id2 !in ord {
      return false;
    }
    var next := MoveOrders(ord, id1, id2);
    db.items := WithItemOrders(db.items, next);
    ok := true;
  }

  /** Deletes an item, as written: any item whose category exists, whichever
      restaurant that category belongs to. */
  method DeleteRestaurantItem(db: Session, rid: int, id: int) returns (ok: bool)
    modifies db`items
    ensures ok == HasCategory(old(db.items), db.categories, id)
    ensures db.items == if ok then old(db.items) - {id} else old(db.items)
  {
    ok := HasCategory(db.items, db.categories, id);
    if ok {
      db.items := db.items - {id};
    }
  }

  /** An item in one of the restaurant's categories. */
  predicate OwnItem(items: map<int, Item>, cats: map<int, Category>, rid: int, id: int)
  {
    HasCategory(items, cats, id) && cats[items[id].category.value].restaurant == rid
  }

  /** As written, an owner deletes another restaurant's item: restaurant 1's
      owner removes item 1 of restaurant 2's category. */
  lemma ForeignItemDeletable()
    ensures var cats := map[1 := Category(2, "Zupy", 1, true)];
            var items := map[1 := Item(Some(1), "Rosol", 1, "", 1500, Available, "")];
            HasCategory(items, cats, 1) && !OwnItem(items, cats, 1, 1)
  {
  }

  /** Deletes an item as evidently intended: only one of the restaurant's own
      items; every other item stays. */
  method DeleteOwnRestaurantItem(db: Session, rid: int, id: int) returns (ok: bool)
    modifies db`items
    ensures ok == OwnItem(old(db.items), db.categories, rid, id)
    ensures db.items == if ok then old(db.items) - {id} else old(db.items)
    ensures forall k :: k in old(db.items) && !OwnItem(old(db.items), db.categories, rid, k) ==>
      k in db.items && db.items[k] == old(db.items)[k]
  {
    ok := OwnItem(db.items, db.categories, rid, id);
    if ok {
      db.items := db.items - {id};
    }
  }

  /** `update_item`: an id or an order of -1 marks a new item; otherwise the
      item is updated. A refusal of either is answered with 400. */
  method UpdateItem(db: Session, rid: int, id: int, order: int, item: Item, cid: int, now: int) returns (r: Reply<()>)
    modifies db`items, db`reservations
    ensures r == Ok(()) || r == Refused(400)
    ensures (id == -1 || order == -1) ==>
      db.reservations == old(db.reservations)
      && (r.Ok? <==> cid in db.categories && db.categories[cid].restaurant == rid && PriceOk(item.price))
      && (r.Ok? ==>
            db.items == old(db.items)[NextKey(old(db.items).Keys) :=
                                      Placed(item, cid, NextOrder(ItemOrders(old(db.items), db.categories)))])
    ensures !(id == -1 || order == -1) ==>
      (r.Ok? <==> HasCategory(old(db.items), db.categories, id) && old(db.items)[id].order == order
                  && old(db.items)[id].category == Some(cid) && PriceOk(item.price))
      && (r.Ok? ==>
            db.items == old(db.items)[id := Edited(old(db.items)[id], item)]
            && db.reservations == Patched(old(db.reservations), db.restaurants, id, Edited(old(db.items)[id], item), now))
    ensures r.Refused? ==> db.items == old(db.items) && db.reservations == old(db.reservations)
  {
    var ok: bool;
    if id == -1 || order == -1 {
      var newId;
      ok, newId := CreateMenuItem(db, rid, item, cid);
    } else {
      ok := UpdateMenuItem(db, rid, id, order, item, cid, now);
    }
    r := if ok then Ok(()) else Refused(400);
  }
}
