/**
 * `PlannerInfo.isDataValid` of models/table.py: the checks a submitted floor
 * plan must pass before it is stored. The result is the set of error messages
 * (in Polish, as the backend sends them); the plan is accepted when it is empty.
 *
 * The specification is built in the order the nested loops visit the plan, so
 * that the method is proved against it directly; the lemmas below then say,
 * check by check, which message each fault produces and that the set is empty
 * exactly when the plan satisfies the declarative `PlanIsValid`.
 */
module PlanValidator {
  import opened Geometry

  datatype PlannerInfo = PlannerInfo(precision: int, tables: seq<Table>, borders: seq<Border>)

  const MinPrecision: int := 15
  const MaxPrecision: int := 50

  /** The faults `isDataValid` reports. Each is sent as the Polish message
      `Message` gives; a border with a negative coordinate and a gap between
      consecutive borders share one message, so they are one fault here. */
  datatype PlanError =
    | DuplicateId(realId: string)
    | TablesOverlap(first: string, second: string)
    | TableHitsBorder(realId: string)
    | TableCoordinates(realId: string)
    | SeatsLeft(realId: string)
    | SeatsRight(realId: string)
    | SeatsTop(realId: string)
    | SeatsBottom(realId: string)
    | BordersCoordinates
    | BordersOverlap
    | BordersNotClosed
    | BadPrecision

  function Message(e: PlanError): string
  {
    match e
    case DuplicateId(id) => "Występuje kilka stołów o identyfikatorze równym:" + id
    case TablesOverlap(a, b) => "Stoliki o identyfikatorach " + a + " i " + b + " nachodzą na siebie"
    case TableHitsBorder(id) => "Stolik o identyfikatorze " + id + " nachodzi na granice"
    case TableCoordinates(id) => "Stolik o identyfikatorze " + id + " ma nieprawidłowe współrzędne"
    case SeatsLeft(id) => "Stolik o identyfikatorze " + id + " ma nieprawidłową liczbę stolików z lewej strony"
    case SeatsRight(id) => "Stolik o identyfikatorze " + id + " ma nieprawidłową liczbę stolików z prawej strony"
    case SeatsTop(id) => "Stolik o identyfikatorze " + id + " ma nieprawidłową liczbę stolików od góry"
    case SeatsBottom(id) => "Stolik o identyfikatorze " + id + " ma nieprawidłową liczbę stolików od dołu"
    case BordersCoordinates => "Granice mają nieprawidłowe współrzędne"
    case BordersOverlap => "Granice nachodzą na siebie"
    case BordersNotClosed => "Granica nie jest zamknięta"
    case BadPrecision => "Błędna wartość precyzji"
  }

  /** The set of strings the endpoint answers with. */
  function Messages(errors: set<PlanError>): (r: set<string>)
    ensures forall e :: e in errors ==> Message(e) in r
  {
    set e | e in errors :: Message(e)
  }

  /** The plan is answered with no message exactly when no fault was found. */
  lemma MessagesEmptyIff(errors: set<PlanError>)
    ensures Messages(errors) == {} <==> errors == {}
  {
    ErrorsEmptyIff(errors);
    MessagesEmptyIffNoMessage(Messages(errors));
    if errors != {} {
      var e :| e in errors;
      assert Message(e) in Messages(errors);
    }
  }

  lemma ErrorsEmptyIff(errors: set<PlanError>)
    ensures errors == {} <==> forall e :: e !in errors
  {
    if forall e :: e !in errors {
      assert errors == {};
    }
  }

  lemma MessagesEmptyIffNoMessage(r: set<string>)
    ensures r == {} <==> forall m :: m !in r
  {
    if forall m :: m !in r {
      assert r == {};
    }
  }

  /** A side holds `seats` chairs, each `precision` wide, along a side of
      length `side`. */
  predicate SeatsFit(seats: int, precision: int, side: int)
  {
    !(seats * precision > side || seats < 0)
  }

  /** The table's rectangle meets some border's raw rectangle. */
  predicate HitsBorder(t: Table, bs: seq<Border>, precision: int)
  {
    exists m :: 0 <= m < |bs| && Overlaps(TableRect(t, precision), BorderRect(bs[m], precision))
  }

  predicate NegativeBorder(b: Border)
  {
    b.left < 0 || b.top < 0
  }

  // ---------------------------------------------------------------------
  // The errors, in the order the loops of isDataValid find them

  /** What comparing table i with a later table j adds. */
  function PairErrors(info: PlannerInfo, i: int, j: int): set<PlanError>
    requires 0 <= i < j < |info.tables|
  {
    var s, t, p := info.tables[i], info.tables[j], info.precision;
    (if s.realId == t.realId then {DuplicateId(s.realId)} else {})
    + (if Overlaps(TableRect(s, p), TableRect(t, p)) then {TablesOverlap(s.realId, t.realId)} else {})
  }

  /** What comparing table i with tables i+1 .. j-1 adds. */
  function PairErrorsUpTo(info: PlannerInfo, i: int, j: int): set<PlanError>
    requires 0 <= i < |info.tables| && i < j <= |info.tables|
    decreases j
  {
    if j == i + 1 then {} else PairErrorsUpTo(info, i, j - 1) + PairErrors(info, i, j - 1)
  }

  /** What the checks of table i on its own add. */
  function OwnErrors(t: Table, bs: seq<Border>, p: int): set<PlanError>
  {
    HitErrors(t, bs, p) + BoundsErrors(t, p)
  }

  function HitErrors(t: Table, bs: seq<Border>, p: int): set<PlanError>
  {
    if HitsBorder(t, bs, p) then {TableHitsBorder(t.realId)} else {}
  }

  /** The faults of a table's coordinates and seat counts. */
  function BoundsErrors(t: Table, p: int): set<PlanError>
  {
    var id := t.realId;
    set e | e in {TableCoordinates(id), SeatsLeft(id), SeatsRight(id), SeatsTop(id), SeatsBottom(id)}
      && OutOfBounds(e, t, p)
  }

  /** The table check named by `e` fails for `t`. */
  predicate OutOfBounds(e: PlanError, t: Table, p: int)
  {
    match e
    case TableCoordinates(_) => t.left < 0 || t.top < 0
    case SeatsLeft(_) => !SeatsFit(t.seatsLeft, p, t.height)
    case SeatsRight(_) => !SeatsFit(t.seatsRight, p, t.height)
    case SeatsTop(_) => !SeatsFit(t.seatsTop, p, t.width)
    case SeatsBottom(_) => !SeatsFit(t.seatsBottom, p, t.width)
    case _ => false
  }

  /** One turn of the outer table loop. */
  function TableRowErrors(info: PlannerInfo, i: int): set<PlanError>
    requires 0 <= i < |info.tables|
  {
    PairErrorsUpTo(info, i, |info.tables|) + OwnErrors(info.tables[i], info.borders, info.precision)
  }

  /** The first `n` turns of the table loop. */
  function TableErrorsUpTo(info: PlannerInfo, n: int): set<PlanError>
    requires 0 <= n <= |info.tables|
  {
    if n == 0 then {} else TableErrorsUpTo(info, n - 1) + TableRowErrors(info, n - 1)
  }

  /** The index of the first border with a negative coordinate at or after
      `from`, or the number of borders when there is none. */
  function FirstNegativeFrom(bs: seq<Border>, from: int): (k: int)
    requires 0 <= from <= |bs|
    ensures from <= k <= |bs|
    ensures forall m :: from <= m < k ==> !NegativeBorder(bs[m])
    ensures k < |bs| ==> NegativeBorder(bs[k])
    decreases |bs| - from
  {
    if from == |bs| || NegativeBorder(bs[from]) then from else FirstNegativeFrom(bs, from + 1)
  }

  function FirstNegative(bs: seq<Border>): int
  {
    FirstNegativeFrom(bs, 0)
  }

  /** What comparing border i's raw rectangle with borders i+1 .. j-1 adds. */
  function BorderPairsUpTo(info: PlannerInfo, i: int, j: int): set<PlanError>
    requires 0 <= i < |info.borders| && i < j <= |info.borders|
    decreases j
  {
    if j == i + 1 then {}
    else
      BorderPairsUpTo(info, i, j - 1)
      + (if Overlaps(BorderRect(info.borders[i], info.precision), BorderRect(info.borders[j - 1], info.precision))
         then {BordersOverlap} else {})
  }

  /** Border i does not continue border i-1. */
  predicate Gap(info: PlannerInfo, i: int)
    requires 0 < i < |info.borders|
  {
    !Overlaps(BroadenedRect(info.borders[i], info.precision), BroadenedRect(info.borders[i - 1], info.precision))
  }

  /** One turn of the border loop, for a border with no negative coordinate. */
  function BorderRowErrors(info: PlannerInfo, i: int): set<PlanError>
    requires 0 <= i < |info.borders|
  {
    BorderPairsUpTo(info, i, |info.borders|) + (if i > 0 && Gap(info, i) then {BordersCoordinates} else {})
  }

  function BorderErrorsUpTo(info: PlannerInfo, n: int): set<PlanError>
    requires 0 <= n <= |info.borders|
  {
    if n == 0 then {} else BorderErrorsUpTo(info, n - 1) + BorderRowErrors(info, n - 1)
  }

  /** The border loop: it stops at the first border with a negative
      coordinate, after reporting it. */
  function BorderErrors(info: PlannerInfo): set<PlanError>
  {
    var k := FirstNegative(info.borders);
    BorderErrorsUpTo(info, k) + (if k < |info.borders| then {BordersCoordinates} else {})
  }

  predicate NotClosed(info: PlannerInfo)
  {
    var bs := info.borders;
    |bs| > 2 && !Overlaps(BroadenedRect(bs[|bs| - 1], info.precision), BroadenedRect(bs[0], info.precision))
  }

  function ValidationErrors(info: PlannerInfo): set<PlanError>
  {
    TableErrorsUpTo(info, |info.tables|) + BorderErrors(info)
    + (if NotClosed(info) then {BordersNotClosed} else {})
    + (if info.precision < MinPrecision || info.precision > MaxPrecision then {BadPrecision} else {})
  }

  // ---------------------------------------------------------------------
  // The method

  /** `PlannerInfo.isDataValid`: the table loop, the border loop, then the
      closure of the outline and the precision. */
  method IsDataValid(info: PlannerInfo) returns (errors: set<PlanError>)
    ensures errors == ValidationErrors(info)
  {
    var bs, p := info.borders, info.precision;
    errors := CheckTables(info);
    errors := CheckBorders(info, errors);
    if |bs| > 2 && !Overlaps(BroadenedRect(bs[|bs| - 1], p), BroadenedRect(bs[0], p)) {
      errors := errors + {BordersNotClosed};
    }
    if p < MinPrecision || p > MaxPrecision {
      errors := errors + {BadPrecision};
    }
  }

  /** The table loop of `isDataValid`. */
  method CheckTables(info: PlannerInfo) returns (errors: set<PlanError>)
    ensures errors == TableErrorsUpTo(info, |info.tables|)
  {
    errors := {};
    for i := 0 to |info.tables|
      invariant errors == TableErrorsUpTo(info, i)
    {
      errors := CheckTable(info, i, errors);
    }
  }

  /** The border loop of `isDataValid`: it stops at the first border with
      a negative coordinate, after reporting it. */
  method CheckBorders(info: PlannerInfo, errors0: set<PlanError>) returns (errors: set<PlanError>)
    ensures errors == errors0 + BorderErrors(info)
  {
    var bs := info.borders;
    errors := errors0;
    ghost var k := FirstNegative(bs);
    var b := 0;
    while b < |bs|
      invariant 0 <= b <= k
      invariant errors == errors0 + BorderErrorsUpTo(info, b)
    {
      if bs[b].left < 0 || bs[b].top < 0 {
        errors := errors + {BordersCoordinates};
        break;
      }
      errors := CheckBorder(info, b, errors);
      b := b + 1;
    }
    assert b == k;
  }

  /** One turn of the table loop of `isDataValid`: table i against every
      later table, against the borders, then its own coordinates and seats. */
  method CheckTable(info: PlannerInfo, i: int, errors0: set<PlanError>) returns (errors: set<PlanError>)
    requires 0 <= i < |info.tables|
    ensures errors == errors0 + TableRowErrors(info, i)
  {
    var t, bs, p := info.tables[i], info.borders, info.precision;
    errors := CheckPairs(info, i, errors0);
    errors := CheckHits(t, bs, p, errors);
    errors := CheckBounds(t, p, errors);
  }

  /** Table i against every later table. */
  method CheckPairs(info: PlannerInfo, i: int, errors0: set<PlanError>) returns (errors: set<PlanError>)
    requires 0 <= i < |info.tables|
    ensures errors == errors0 + PairErrorsUpTo(info, i, |info.tables|)
  {
    var ts, p := info.tables, info.precision;
    var t := ts[i];
    errors := errors0;
    var j := i + 1;
    while j < |ts|
      invariant i + 1 <= j <= |ts|
      invariant errors == errors0 + PairErrorsUpTo(info, i, j)
    {
      if t.realId == ts[j].realId {
        errors := errors + {DuplicateId(t.realId)};
      }
      if Overlaps(TableRect(t, p), TableRect(ts[j], p)) {
        errors := errors + {TablesOverlap(t.realId, ts[j].realId)};
      }
      j := j + 1;
    }
  }

  /** A table against the borders' raw rectangles, stopping at the first
      border it meets. */
  method CheckHits(t: Table, bs: seq<Border>, p: int, errors0: set<PlanError>) returns (errors: set<PlanError>)
    ensures errors == errors0 + HitErrors(t, bs, p)
  {
    errors := errors0;
    var m := 0;
    while m < |bs|
      invariant 0 <= m <= |bs|
      invariant errors == errors0
      invariant forall m' :: 0 <= m' < m ==> !Overlaps(TableRect(t, p), BorderRect(bs[m'], p))
    {
      if Overlaps(TableRect(t, p), BorderRect(bs[m], p)) {
        errors := errors + {TableHitsBorder(t.realId)};
        break;
      }
      m := m + 1;
    }
  }

  /** A table's coordinates and the seat counts of its four sides. */
  method CheckBounds(t: Table, p: int, errors0: set<PlanError>) returns (errors: set<PlanError>)
    ensures errors == errors0 + BoundsErrors(t, p)
  {
    errors := errors0;
    if t.left < 0 || t.top < 0 {
      errors := errors + {TableCoordinates(t.realId)};
    }
    if t.seatsLeft * p > t.height || t.seatsLeft < 0 {
      errors := errors + {SeatsLeft(t.realId)};
    }
    if t.seatsRight * p > t.height || t.seatsRight < 0 {
      errors := errors + {SeatsRight(t.realId)};
    }
    if t.seatsTop * p > t.width || t.seatsTop < 0 {
      errors := errors + {SeatsTop(t.realId)};
    }
    if t.seatsBottom * p > t.width || t.seatsBottom < 0 {
      errors := errors + {SeatsBottom(t.realId)};
    }
  }

  /** One turn of the border loop of `isDataValid` for a border with no
      negative coordinate: its raw rectangle against every later border, then
      its broadened rectangle against the previous one. */
  method CheckBorder(info: PlannerInfo, b: int, errors0: set<PlanError>) returns (errors: set<PlanError>)
    requires 0 <= b < |info.borders|
    ensures errors == errors0 + BorderRowErrors(info, b)
  {
    var bs, p := info.borders, info.precision;
    errors := errors0;
    var j := b + 1;
    while j < |bs|
      invariant b + 1 <= j <= |bs|
      invariant errors == errors0 + BorderPairsUpTo(info, b, j)
    {
      if Overlaps(BorderRect(bs[b], p), BorderRect(bs[j], p)) {
        errors := errors + {BordersOverlap};
      }
      j := j + 1;
    }
    if b > 0 {
      if !Overlaps(BroadenedRect(bs[b], p), BroadenedRect(bs[b - 1], p)) {
        errors := errors + {BordersCoordinates};
      }
    }
  }

  // ---------------------------------------------------------------------
  // What the set means

  /** A table satisfies every check that concerns it alone. */
  predicate TableInBounds(t: Table, p: int)
  {
    t.left >= 0 && t.top >= 0
    && SeatsFit(t.seatsLeft, p, t.height) && SeatsFit(t.seatsRight, p, t.height)
    && SeatsFit(t.seatsTop, p, t.width) && SeatsFit(t.seatsBottom, p, t.width)
  }

  /** The plan the backend accepts, stated check by check. */
  predicate PlanIsValid(info: PlannerInfo)
  {
    var ts, bs, p := info.tables, info.borders, info.precision;
    (forall i, j :: 0 <= i < j < |ts| ==> ts[i].realId != ts[j].realId)
    && (forall i, j :: 0 <= i < j < |ts| ==> !Overlaps(TableRect(ts[i], p), TableRect(ts[j], p)))
    && (forall i, m :: 0 <= i < |ts| && 0 <= m < |bs| ==> !Overlaps(TableRect(ts[i], p), BorderRect(bs[m], p)))
    && (forall i :: 0 <= i < |ts| ==> TableInBounds(ts[i], p))
    && (forall m :: 0 <= m < |bs| ==> !NegativeBorder(bs[m]))
    && (forall i, j :: 0 <= i < j < |bs| ==> !Overlaps(BorderRect(bs[i], p), BorderRect(bs[j], p)))
    && (forall i :: 0 < i < |bs| ==> !Gap(info, i))
    && !NotClosed(info)
    && MinPrecision <= p <= MaxPrecision
  }

  lemma {:induction false} PairErrorsUpToEmpty(info: PlannerInfo, i: int, j: int)
    requires 0 <= i < |info.tables| && i < j <= |info.tables|
    ensures PairErrorsUpTo(info, i, j) == {} <==> forall k :: i < k < j ==> PairErrors(info, i, k) == {}
    decreases j
  {
    if j > i + 1 {
      PairErrorsUpToEmpty(info, i, j - 1);
    }
  }

  lemma {:induction false} TableErrorsUpToEmpty(info: PlannerInfo, n: int)
    requires 0 <= n <= |info.tables|
    ensures TableErrorsUpTo(info, n) == {} <==> forall i :: 0 <= i < n ==> TableRowErrors(info, i) == {}
  {
    if n > 0 {
      TableErrorsUpToEmpty(info, n - 1);
    }
  }

  lemma {:induction false} BorderPairsUpToEmpty(info: PlannerInfo, i: int, j: int)
    requires 0 <= i < |info.borders| && i < j <= |info.borders|
    ensures BorderPairsUpTo(info, i, j) == {} <==>
      forall k :: i < k < j ==> !Overlaps(BorderRect(info.borders[i], info.precision), BorderRect(info.borders[k], info.precision))
    decreases j
  {
    if j > i + 1 {
      BorderPairsUpToEmpty(info, i, j - 1);
    }
  }

  lemma {:induction false} BorderErrorsUpToEmpty(info: PlannerInfo, n: int)
    requires 0 <= n <= |info.borders|
    ensures BorderErrorsUpTo(info, n) == {} <==> forall i :: 0 <= i < n ==> BorderRowErrors(info, i) == {}
  {
    if n > 0 {
      BorderErrorsUpToEmpty(info, n - 1);
    }
  }

  lemma TableRowEmpty(info: PlannerInfo, i: int)
    requires 0 <= i < |info.tables|
    ensures TableRowErrors(info, i) == {} <==>
      (forall j :: i < j < |info.tables| ==> PairErrors(info, i, j) == {})
      && !HitsBorder(info.tables[i], info.borders, info.precision)
      && TableInBounds(info.tables[i], info.precision)
  {
    PairErrorsUpToEmpty(info, i, |info.tables|);
    BoundsErrorsEmptyIff(info.tables[i], info.precision);
  }

  /** A table passes its own coordinate and seat checks exactly when it is
      in bounds. */
  lemma BoundsErrorsEmptyIff(t: Table, p: int)
    ensures BoundsErrors(t, p) == {} <==> TableInBounds(t, p)
  {
    var id := t.realId;
    if !TableInBounds(t, p) {
      if t.left < 0 || t.top < 0 {
        assert TableCoordinates(id) in BoundsErrors(t, p);
      } else if !SeatsFit(t.seatsLeft, p, t.height) {
        assert SeatsLeft(id) in BoundsErrors(t, p);
      } else if !SeatsFit(t.seatsRight, p, t.height) {
        assert SeatsRight(id) in BoundsErrors(t, p);
      } else if !SeatsFit(t.seatsTop, p, t.width) {
        assert SeatsTop(id) in BoundsErrors(t, p);
      } else {
        assert SeatsBottom(id) in BoundsErrors(t, p);
      }
    } else {
      ErrorsEmptyIff(BoundsErrors(t, p));
    }
  }

  /** The tables pass exactly when no table check fires. */
  lemma TablesPassIff(info: PlannerInfo)
    ensures var ts, bs, p := info.tables, info.borders, info.precision;
      TableErrorsUpTo(info, |ts|) == {} <==>
      (forall i, j :: 0 <= i < j < |ts| ==> ts[i].realId != ts[j].realId)
      && (forall i, j :: 0 <= i < j < |ts| ==> !Overlaps(TableRect(ts[i], p), TableRect(ts[j], p)))
      && (forall i, m :: 0 <= i < |ts| && 0 <= m < |bs| ==> !Overlaps(TableRect(ts[i], p), BorderRect(bs[m], p)))
      && (forall i :: 0 <= i < |ts| ==> TableInBounds(ts[i], p))
  {
    var ts, bs, p := info.tables, info.borders, info.precision;
    TableErrorsUpToEmpty(info, |ts|);
    forall i | 0 <= i < |ts| {
      TableRowEmpty(info, i);
    }
    if TableErrorsUpTo(info, |ts|) == {} {
      forall i, j | 0 <= i < j < |ts|
        ensures ts[i].realId != ts[j].realId
        ensures !Overlaps(TableRect(ts[i], p), TableRect(ts[j], p))
      {
        assert PairErrors(info, i, j) == {};
      }
      forall i, m | 0 <= i < |ts| && 0 <= m < |bs|
        ensures !Overlaps(TableRect(ts[i], p), BorderRect(bs[m], p))
      {
        assert !HitsBorder(ts[i], bs, p);
      }
    }
  }

  /** The borders pass exactly when none is negative, no two overlap and each
      continues the one before it. */
  lemma BordersPassIff(info: PlannerInfo)
    ensures var bs, p := info.borders, info.precision;
      BorderErrors(info) == {} <==>
      (forall m :: 0 <= m < |bs| ==> !NegativeBorder(bs[m]))
      && (forall i, j :: 0 <= i < j < |bs| ==> !Overlaps(BorderRect(bs[i], p), BorderRect(bs[j], p)))
      && (forall i :: 0 < i < |bs| ==> !Gap(info, i))
  {
    var bs, p := info.borders, info.precision;
    var k := FirstNegative(bs);
    BorderErrorsUpToEmpty(info, k);
    forall i | 0 <= i < k {
      BorderPairsUpToEmpty(info, i, |bs|);
    }
    if BorderErrors(info) == {} {
      assert k == |bs|;
      forall i, j | 0 <= i < j < |bs|
        ensures !Overlaps(BorderRect(bs[i], p), BorderRect(bs[j], p))
      {
        assert BorderRowErrors(info, i) == {};
      }
      forall i | 0 < i < |bs|
        ensures !Gap(info, i)
      {
        assert BorderRowErrors(info, i) == {};
      }
    } else if forall m :: 0 <= m < |bs| ==> !NegativeBorder(bs[m]) {
      assert k == |bs|;
    }
  }

  /** The plan is accepted (no error) exactly when it satisfies every check. */
  lemma NoErrorsIffValid(info: PlannerInfo)
    ensures ValidationErrors(info) == {} <==> PlanIsValid(info)
  {
    TablesPassIff(info);
    BordersPassIff(info);
  }

  // ---------------------------------------------------------------------
  // Which fault produces which message

  lemma {:induction false} PairErrorsUpToHas(info: PlannerInfo, i: int, j: int, k: int)
    requires 0 <= i < k < j <= |info.tables|
    ensures PairErrors(info, i, k) <= PairErrorsUpTo(info, i, j)
    decreases j
  {
    if k < j - 1 {
      PairErrorsUpToHas(info, i, j - 1, k);
    }
  }

  lemma {:induction false} TableErrorsUpToHas(info: PlannerInfo, n: int, i: int)
    requires 0 <= i < n <= |info.tables|
    ensures TableRowErrors(info, i) <= TableErrorsUpTo(info, n)
  {
    if i < n - 1 {
      TableErrorsUpToHas(info, n - 1, i);
    }
  }

  /** Every fault found while looking at table i, alone or against a later
      table, is reported. */
  lemma TableRowReported(info: PlannerInfo, i: int)
    requires 0 <= i < |info.tables|
    ensures TableRowErrors(info, i) <= ValidationErrors(info)
  {
    TableErrorsUpToHas(info, |info.tables|, i);
  }

  /** Two tables with the same `real_id` are reported. */
  lemma DuplicateIdReported(info: PlannerInfo, i: int, j: int)
    requires 0 <= i < j < |info.tables|
    requires info.tables[i].realId == info.tables[j].realId
    ensures DuplicateId(info.tables[i].realId) in ValidationErrors(info)
  {
    PairErrorsUpToHas(info, i, |info.tables|, j);
    TableRowReported(info, i);
  }

  /** Two tables whose widened rectangles overlap are reported, earlier one
      first in the message. */
  lemma TablesOverlapReported(info: PlannerInfo, i: int, j: int)
    requires 0 <= i < j < |info.tables|
    requires Overlaps(TableRect(info.tables[i], info.precision), TableRect(info.tables[j], info.precision))
    ensures TablesOverlap(info.tables[i].realId, info.tables[j].realId) in ValidationErrors(info)
  {
    PairErrorsUpToHas(info, i, |info.tables|, j);
    TableRowReported(info, i);
  }

  /** A table that meets any border's raw rectangle is reported. */
  lemma TableHitsBorderReported(info: PlannerInfo, i: int, m: int)
    requires 0 <= i < |info.tables| && 0 <= m < |info.borders|
    requires Overlaps(TableRect(info.tables[i], info.precision), BorderRect(info.borders[m], info.precision))
    ensures TableHitsBorder(info.tables[i].realId) in ValidationErrors(info)
  {
    TableRowReported(info, i);
  }

  /** A table with a negative coordinate or a side whose chairs do not fit is
      reported with the matching message. */
  lemma TableBoundsReported(info: PlannerInfo, i: int)
    requires 0 <= i < |info.tables|
    ensures var t, p, e := info.tables[i], info.precision, ValidationErrors(info);
      && (t.left < 0 || t.top < 0 ==> TableCoordinates(t.realId) in e)
      && (!SeatsFit(t.seatsLeft, p, t.height) ==> SeatsLeft(t.realId) in e)
      && (!SeatsFit(t.seatsRight, p, t.height) ==> SeatsRight(t.realId) in e)
      && (!SeatsFit(t.seatsTop, p, t.width) ==> SeatsTop(t.realId) in e)
      && (!SeatsFit(t.seatsBottom, p, t.width) ==> SeatsBottom(t.realId) in e)
  {
    TableRowReported(info, i);
  }

  lemma {:induction false} BorderPairsUpToHas(info: PlannerInfo, i: int, j: int)
    requires 0 <= i < |info.borders| && i < j <= |info.borders|
    ensures BorderPairsUpTo(info, i, j) <= {BordersOverlap}
    ensures BordersOverlap in BorderPairsUpTo(info, i, j) <==>
      exists k :: i < k < j && Overlaps(BorderRect(info.borders[i], info.precision), BorderRect(info.borders[k], info.precision))
    decreases j
  {
    if j > i + 1 {
      BorderPairsUpToHas(info, i, j - 1);
    }
  }

  lemma {:induction false} BorderErrorsUpToKinds(info: PlannerInfo, n: int)
    requires 0 <= n <= |info.borders|
    ensures BorderErrorsUpTo(info, n) <= {BordersOverlap, BordersCoordinates}
  {
    if n > 0 {
      BorderErrorsUpToKinds(info, n - 1);
      BorderPairsUpToHas(info, n - 1, |info.borders|);
    }
  }

  lemma {:induction false} BorderErrorsUpToOverlap(info: PlannerInfo, n: int)
    requires 0 <= n <= |info.borders|
    ensures BordersOverlap in BorderErrorsUpTo(info, n) <==>
      exists i, k :: 0 <= i < n && i < k < |info.borders|
        && Overlaps(BorderRect(info.borders[i], info.precision), BorderRect(info.borders[k], info.precision))
  {
    if n > 0 {
      BorderErrorsUpToOverlap(info, n - 1);
      BorderPairsUpToHas(info, n - 1, |info.borders|);
    }
  }

  lemma {:induction false} BorderErrorsUpToGap(info: PlannerInfo, n: int)
    requires 0 <= n <= |info.borders|
    ensures BordersCoordinates in BorderErrorsUpTo(info, n) <==> exists i :: 0 < i < n && Gap(info, i)
  {
    if n > 0 {
      BorderErrorsUpToGap(info, n - 1);
      BorderPairsUpToHas(info, n - 1, |info.borders|);
    }
  }

  /** Overlapping border rectangles are reported only when the first of the
      two comes before the first border with a negative coordinate: the loop
      stops there. */
  lemma BordersOverlapReportedIff(info: PlannerInfo)
    ensures var bs, p := info.borders, info.precision;
      BordersOverlap in BorderErrors(info) <==>
      exists i, k :: 0 <= i < FirstNegative(bs) && i < k < |bs| && Overlaps(BorderRect(bs[i], p), BorderRect(bs[k], p))
  {
    BorderErrorsUpToOverlap(info, FirstNegative(info.borders));
  }

  /** The coordinates message of the borders is reported exactly when some
      border is negative, or some border before the first negative one does
      not continue its predecessor. */
  lemma BordersCoordinatesReportedIff(info: PlannerInfo)
    ensures var bs := info.borders;
      BordersCoordinates in BorderErrors(info) <==>
      (exists m :: 0 <= m < |bs| && NegativeBorder(bs[m]))
      || (exists i :: 0 < i < FirstNegative(bs) && Gap(info, i))
  {
    var bs := info.borders;
    var k := FirstNegative(bs);
    BorderErrorsUpToGap(info, k);
    if exists m :: 0 <= m < |bs| && NegativeBorder(bs[m]) {
      var m :| 0 <= m < |bs| && NegativeBorder(bs[m]);
      assert k <= m;
    }
  }

  /** The border faults land in the final set exactly as the border loop
      produces them: no table fault is one of them. */
  lemma BorderFaultsOnlyFromBorders(info: PlannerInfo)
    ensures BordersOverlap in ValidationErrors(info) <==> BordersOverlap in BorderErrors(info)
    ensures BordersCoordinates in ValidationErrors(info) <==> BordersCoordinates in BorderErrors(info)
  {
    TableFaultsAreAboutTables(info, |info.tables|);
  }

  /** The closure and precision faults are reported exactly when their
      checks fail. */
  lemma OutlineAndPrecisionReportedIff(info: PlannerInfo)
    ensures BordersNotClosed in ValidationErrors(info) <==> NotClosed(info)
    ensures BadPrecision in ValidationErrors(info) <==> info.precision < MinPrecision || info.precision > MaxPrecision
  {
    TableFaultsAreAboutTables(info, |info.tables|);
    BorderErrorsUpToKinds(info, FirstNegative(info.borders));
  }

  predicate AboutTable(e: PlanError)
  {
    !(e.BordersCoordinates? || e.BordersOverlap? || e.BordersNotClosed? || e.BadPrecision?)
  }

  lemma {:induction false} TableFaultsAreAboutTables(info: PlannerInfo, n: int)
    requires 0 <= n <= |info.tables|
    ensures forall e :: e in TableErrorsUpTo(info, n) ==> AboutTable(e)
  {
    if n > 0 {
      TableFaultsAreAboutTables(info, n - 1);
      PairFaultsAreAboutTables(info, n - 1, |info.tables|);
      OwnFaultsAreAboutTables(info.tables[n - 1], info.borders, info.precision);
    }
  }

  lemma OwnFaultsAreAboutTables(t: Table, bs: seq<Border>, p: int)
    ensures forall e :: e in OwnErrors(t, bs, p) ==> AboutTable(e)
  {
  }

  lemma {:induction false} PairFaultsAreAboutTables(info: PlannerInfo, i: int, j: int)
    requires 0 <= i < |info.tables| && i < j <= |info.tables|
    ensures forall e :: e in PairErrorsUpTo(info, i, j) ==> AboutTable(e)
    decreases j
  {
    if j > i + 1 {
      PairFaultsAreAboutTables(info, i, j - 1);
    }
  }

}
