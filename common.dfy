/**
 * Vocabulary shared by every part of the model: optional values, the replies a
 * request handler gives, the clock arithmetic of the backend, and how a row is
 * picked out of a query result whose order the database does not fix.
 *
 * Instants are whole minutes counted from a Monday, 00:00, so that the day of
 * an instant is `t / 1440` and Python's `weekday()` of that day is `day % 7`.
 */
module Common {

  datatype Option<+T> = None | Some(value: T)

  /** What a request handler answers: a value, a refusal carrying the status
      code of the `HTTPException` it raises, or an unhandled Python exception
      (the framework turns that into status 500). */
  datatype Reply<+T> = Ok(value: T) | Refused(status: int) | Crash

  const MinutesPerDay: int := 1440
  const SlotMinutes: int := 15

  /** `datetime.date()`: the calendar day an instant falls on. */
  function DayOf(t: int): int
  {
    t / MinutesPerDay
  }

  /** `date.weekday()`: Monday is 0 and Sunday is 6. */
  function Weekday(day: int): (w: int)
    ensures 0 <= w < 7
  {
    day % 7
  }

  /** The first minute of a calendar day. */
  function DayStart(day: int): (t: int)
    ensures DayOf(t) == day
  {
    day * MinutesPerDay
  }

  /** A set of ids is empty exactly when nothing is in it. */
  lemma EmptyIff(s: set<int>)
    ensures s == {} <==> forall y :: y !in s
  {
    if forall y :: y !in s {
      assert s == {};
    }
  }

  lemma {:induction false} MinimumExists(s: set<int>)
    requires s != {}
    ensures exists m :: m in s && forall k :: k in s ==> m <= k
  {
    EmptyIff(s);
    var x :| x in s;
    if s != {x} {
      MinimumExists(s - {x});
      var m :| m in s - {x} && forall k :: k in s - {x} ==> m <= k;
      forall k | k in s && k != x
        ensures m <= k
      {
        assert k in s - {x};
      }
    } else {
      assert forall k :: k in s ==> x <= k;
    }
  }

  lemma {:induction false} MaximumExists(s: set<int>)
    requires s != {}
    ensures exists m :: m in s && forall k :: k in s ==> k <= m
  {
    EmptyIff(s);
    var x :| x in s;
    if s != {x} {
      MaximumExists(s - {x});
      var m :| m in s - {x} && forall k :: k in s - {x} ==> k <= m;
      forall k | k in s && k != x
        ensures k <= m
      {
        assert k in s - {x};
      }
    } else {
      assert forall k :: k in s ==> k <= x;
    }
  }

  /** The row an unordered `.first()` is taken to return: the smallest id. */
  ghost function MinKey(s: set<int>): (m: int)
    requires s != {}
    ensures m in s && forall k :: k in s ==> m <= k
  {
    MinimumExists(s);
    var m :| m in s && forall k :: k in s ==> m <= k;
    m
  }

  /** The row that wins when a query result is folded into a dictionary
      (later entries overwrite earlier ones): the largest id. */
  ghost function MaxKey(s: set<int>): (m: int)
    requires s != {}
    ensures m in s && forall k :: k in s ==> k <= m
  {
    MaximumExists(s);
    var m :| m in s && forall k :: k in s ==> k <= m;
    m
  }

  /** Finds the smallest element of a non-empty set by scanning it. */
  method FindMin(s: set<int>) returns (m: int)
    requires s != {}
    ensures m in s && forall k :: k in s ==> m <= k
    ensures m == MinKey(s)
  {
    EmptyIff(s);
    m :| m in s;
    var rest := s - {m};
    while rest != {}
      invariant rest <= s && m in s
      invariant forall k :: k in s && k !in rest ==> m <= k
      decreases rest
    {
      EmptyIff(rest);
      var x :| x in rest;
      if x < m {
        m := x;
      }
      rest := rest - {x};
    }
  }

  /** Finds the largest element of a non-empty set by scanning it. */
  method FindMax(s: set<int>) returns (m: int)
    requires s != {}
    ensures m in s && forall k :: k in s ==> k <= m
    ensures m == MaxKey(s)
  {
    EmptyIff(s);
    m :| m in s;
    var rest := s - {m};
    while rest != {}
      invariant rest <= s && m in s
      invariant forall k :: k in s && k !in rest ==> k <= m
      decreases rest
    {
      EmptyIff(rest);
      var x :| x in rest;
      if m < x {
        m := x;
      }
      rest := rest - {x};
    }
  }

  /** The id a database sequence hands out next: one past the largest id in
      use, or 1 in an empty table. */
  ghost function NextKey(s: set<int>): (k: int)
    ensures k !in s && forall j :: j in s ==> j < k
  {
    if s == {} then 1 else MaxKey(s) + 1
  }

  /** Computes the id a new row receives. */
  method FreshKey<V>(m: map<int, V>) returns (k: int)
    ensures k !in m
    ensures forall j :: j in m ==> j < k
    ensures k == NextKey(m.Keys)
  {
    if m.Keys == {} {
      k := 1;
    } else {
      var top := FindMax(m.Keys);
      k := top + 1;
    }
  }

  /** Python's `<` on strings: code point by code point, a proper prefix
      first. */
  predicate TextLess(a: string, b: string)
  {
    if a == [] then b != []
    else if b == [] then false
    else if a[0] != b[0] then a[0] < b[0]
    else TextLess(a[1..], b[1..])
  }

  /** `TextLess` is a strict total order, so sorting by it is well defined. */
  lemma {:induction false} TextLessIrreflexive(a: string)
    ensures !TextLess(a, a)
  {
    if a != [] {
      TextLessIrreflexive(a[1..]);
    }
  }

  lemma {:induction false} TextLessTransitive(a: string, b: string, c: string)
    requires TextLess(a, b) && TextLess(b, c)
    ensures TextLess(a, c)
  {
    if a != [] && b != [] && c != [] && a[0] == b[0] && b[0] == c[0] {
      TextLessTransitive(a[1..], b[1..], c[1..]);
    }
  }

  lemma {:induction false} TextLessTotal(a: string, b: string)
    ensures a == b || TextLess(a, b) || TextLess(b, a)
  {
    if a != [] && b != [] && a[0] == b[0] {
      TextLessTotal(a[1..], b[1..]);
      if a[1..] == b[1..] {
        assert a == [a[0]] + a[1..] && b == [b[0]] + b[1..];
      }
    }
  }
}
