/**
 * Which tables and which times can still be booked (models/table.py
 * `get_free_tables_for_time`, `is_table_free_now`,
 * `get_restaurant_free_timeslots_for_day`).
 *
 * The outer joins of the original queries keep a table exactly when no
 * reservation satisfies the join condition, so each query is a filter over
 * the tables with a "no such reservation" test. A missing restaurant makes
 * the reservation length `None`, and adding it to a date raises: `Crash`.
 */
module Availability {
  import opened Common
  import opened Geometry
  import opened Store

  // ---------------------------------------------------------------------
  // Tables free for a booking
  // ---------------------------------------------------------------------

  /** A table of the restaurant with room for the guests and, when asked
      for, the requested real id. */
  predicate Suits(row: TableRow, rid: int, guests: int, realId: Option<string>)
  {
    row.restaurant == rid && Seats(row.table) >= guests
    && (realId.Some? ==> row.table.realId == realId.value)
  }

  /** The reservation holds table `k` and is one the booking query sees:
      not rejected and starting strictly between `from` and `until`. */
  predicate Blocks(x: Reservation, k: int, from: int, until: int)
  {
    x.table == Some(k) && x.status != Rejected && from < x.date < until
  }

  /** `get_free_tables_for_time`: the ids of the restaurant's suitable tables
      that no reservation blocks between `date` and `end_date` (or `date`)
      plus the reservation length. */
  function FreeTablesForTime(
    restaurants: map<int, Restaurant>, tables: map<int, TableRow>, reservations: map<int, Reservation>,
    rid: int, date: int, guests: int, realId: Option<string>, endDate: Option<int>): (r: Reply<set<int>>)
    ensures r.Crash? <==> rid !in restaurants
    ensures !r.Refused?
    ensures r.Ok? ==> forall k :: k in r.value ==> k in tables && Suits(tables[k], rid, guests, realId)
  {
    if rid !in restaurants then Crash
    else
      var until := (if endDate.Some? then endDate.value else date) + restaurants[rid].lengthMinutes;
      Ok(set k | k in tables && Suits(tables[k], rid, guests, realId)
                 && forall m :: m in reservations ==> !Blocks(reservations[m], k, date, until))
  }

  /** The end of the window the booking query looks at. */
  function BookingEnd(restaurants: map<int, Restaurant>, rid: int, date: int, endDate: Option<int>): int
    requires rid in restaurants
  {
    (if endDate.Some? then endDate.value else date) + restaurants[rid].lengthMinutes
  }

  /** A table is offered exactly when it is one of the restaurant's, seats
      the guests, carries the requested real id if one was given, and no
      reservation on it that is not rejected starts strictly inside the
      window. */
  lemma FreeTablesIff(
    restaurants: map<int, Restaurant>, tables: map<int, TableRow>, reservations: map<int, Reservation>,
    rid: int, date: int, guests: int, realId: Option<string>, endDate: Option<int>, k: int)
    requires rid in restaurants
    ensures var r := FreeTablesForTime(restaurants, tables, reservations, rid, date, guests, realId, endDate);
      var until := BookingEnd(restaurants, rid, date, endDate);
      k in r.value <==>
        && k in tables && tables[k].restaurant == rid
        && tables[k].table.seatsBottom + tables[k].table.seatsLeft + tables[k].table.seatsRight + tables[k].table.seatsTop >= guests
        && (realId.Some? ==> tables[k].table.realId == realId.value)
        && forall m :: m in reservations && reservations[m].table == Some(k) && reservations[m].status != Rejected
             ==> reservations[m].date <= date || until <= reservations[m].date
  {
  }

  /** Asking for more guests never offers more tables. */
  lemma MoreGuestsFewerTables(
    restaurants: map<int, Restaurant>, tables: map<int, TableRow>, reservations: map<int, Reservation>,
    rid: int, date: int, g1: int, g2: int, realId: Option<string>, endDate: Option<int>)
    requires rid in restaurants && g1 <= g2
    ensures FreeTablesForTime(restaurants, tables, reservations, rid, date, g2, realId, endDate).value
         <= FreeTablesForTime(restaurants, tables, reservations, rid, date, g1, realId, endDate).value
  {
    var r2 := FreeTablesForTime(restaurants, tables, reservations, rid, date, g2, realId, endDate).value;
    var r1 := FreeTablesForTime(restaurants, tables, reservations, rid, date, g1, realId, endDate).value;
    forall k | k in r2
      ensures k in r1
    {
      assert Suits(tables[k], rid, g1, realId);
    }
  }

  /** Rejecting a reservation can only free tables. */
  lemma RejectingFreesTables(
    restaurants: map<int, Restaurant>, tables: map<int, TableRow>, reservations: map<int, Reservation>,
    rid: int, date: int, guests: int, realId: Option<string>, endDate: Option<int>, m: int)
    requires rid in restaurants && m in reservations
    ensures FreeTablesForTime(restaurants, tables, reservations, rid, date, guests, realId, endDate).value
         <= FreeTablesForTime(restaurants, tables, reservations[m := reservations[m].(status := Rejected)],
                              rid, date, guests, realId, endDate).value
  {
    var res' := reservations[m := reservations[m].(status := Rejected)];
    forall k | k in FreeTablesForTime(restaurants, tables, reservations, rid, date, guests, realId, endDate).value
      ensures k in FreeTablesForTime(restaurants, tables, res', rid, date, guests, realId, endDate).value
    {
      var until := BookingEnd(restaurants, rid, date, endDate);
      forall n | n in res'
        ensures !Blocks(res'[n], k, date, until)
      {
        if n != m {
          assert res'[n] == reservations[n];
        }
      }
    }
  }

  /** The window's lower end is open: a pending reservation on the table that
      starts at the very instant asked for does not stop the table from being
      offered again for that instant. */
  lemma SameStartIsNotSeen(name: string, t: Table, date: int, lengthMinutes: int)
    requires lengthMinutes > 0 && Seats(t) >= 1
    ensures var restaurants := map[1 := Restaurant(name, lengthMinutes, 15)];
      var tables := map[1 := TableRow(1, t)];
      var reservations := map[1 := Reservation(Some(1), 1, Some(1), date, Pending, 1, map[], "", false)];
      FreeTablesForTime(restaurants, tables, reservations, 1, date, 1, None, None) == Ok({1})
  {
    var restaurants := map[1 := Restaurant(name, lengthMinutes, 15)];
    var tables := map[1 := TableRow(1, t)];
    var reservations := map[1 := Reservation(Some(1), 1, Some(1), date, Pending, 1, map[], "", false)];
    var r := FreeTablesForTime(restaurants, tables, reservations, 1, date, 1, None, None);
    assert 1 in r.value;
    assert r.value == {1};
  }

  /** A reservation of the restaurant's length starting at `x` occupies the
      table during [x, x + length); it clashes with the window [from, until)
      when the two intervals share an instant. */
  predicate Clashes(x: Reservation, k: int, lengthMinutes: int, from: int, until: int)
  {
    x.table == Some(k) && x.status != Rejected && x.date < until && from < x.date + lengthMinutes
  }

  /** The booking query with the overlap test it evidently intends: a
      reservation that started before the window and is still running, or
      that starts together with it, keeps the table out. */
  function FreeTablesOverlapping(
    restaurants: map<int, Restaurant>, tables: map<int, TableRow>, reservations: map<int, Reservation>,
    rid: int, date: int, guests: int, realId: Option<string>, endDate: Option<int>): (r: Reply<set<int>>)
    ensures r.Crash? <==> rid !in restaurants
    ensures !r.Refused?
  {
    if rid !in restaurants then Crash
    else
      var len := restaurants[rid].lengthMinutes;
      var until := (if endDate.Some? then endDate.value else date) + len;
      Ok(set k | k in tables && Suits(tables[k], rid, guests, realId)
                 && forall m :: m in reservations ==> !Clashes(reservations[m], k, len, date, until))
  }

  /** With the overlap test, booking an offered table for `date` never puts
      two live reservations of the table at the same instant. */
  lemma OverlappingQueryPreventsDoubleBooking(
    restaurants: map<int, Restaurant>, tables: map<int, TableRow>, reservations: map<int, Reservation>,
    rid: int, date: int, guests: int, k: int, m: int)
    requires rid in restaurants && restaurants[rid].lengthMinutes > 0
    requires k in FreeTablesOverlapping(restaurants, tables, reservations, rid, date, guests, None, None).value
    requires m in reservations && reservations[m].table == Some(k) && reservations[m].status != Rejected
    ensures var len := restaurants[rid].lengthMinutes;
      reservations[m].date + len <= date || date + len <= reservations[m].date
  {
    assert !Clashes(reservations[m], k, restaurants[rid].lengthMinutes, date, date + restaurants[rid].lengthMinutes);
  }

  /** Everything the overlap test offers, the query as written offers too. */
  lemma OverlappingQueryIsStricter(
    restaurants: map<int, Restaurant>, tables: map<int, TableRow>, reservations: map<int, Reservation>,
    rid: int, date: int, guests: int, realId: Option<string>, endDate: Option<int>)
    requires rid in restaurants && restaurants[rid].lengthMinutes >= 0
    ensures FreeTablesOverlapping(restaurants, tables, reservations, rid, date, guests, realId, endDate).value
         <= FreeTablesForTime(restaurants, tables, reservations, rid, date, guests, realId, endDate).value
  {
    var len := restaurants[rid].lengthMinutes;
    var until := BookingEnd(restaurants, rid, date, endDate);
    forall k, m | m in reservations && Blocks(reservations[m], k, date, until)
      ensures Clashes(reservations[m], k, len, date, until)
    {
    }
  }

  // ---------------------------------------------------------------------
  // A table free right now
  // ---------------------------------------------------------------------

  /** The restaurant's tables with the real id that no accepted reservation
      holds with a start strictly inside (now, now + length). */
  function FreeNowCandidates(
    restaurants: map<int, Restaurant>, tables: map<int, TableRow>, reservations: map<int, Reservation>,
    rid: int, realId: string, now: int): set<int>
    requires rid in restaurants
  {
    var until := now + restaurants[rid].lengthMinutes;
    set k | k in tables && tables[k].restaurant == rid && tables[k].table.realId == realId
      && forall m :: m in reservations ==>
           !(reservations[m].table == Some(k) && reservations[m].status == Accepted && now < reservations[m].date < until)
  }

  /** `is_table_free_now`: the first such table, if any. */
  method IsTableFreeNow(db: Session, rid: int, realId: string, now: int) returns (r: Reply<Option<int>>)
    ensures r.Crash? <==> rid !in db.restaurants
    ensures !r.Refused?
    ensures r.Ok? ==> var c := FreeNowCandidates(db.restaurants, db.tables, db.reservations, rid, realId, now);
      && (r.value.None? <==> c == {})
      && (r.value.Some? ==> r.value.value in c && forall k :: k in c ==> r.value.value <= k)
  {
    if rid !in db.restaurants {
      return Crash;
    }
    var c := FreeNowCandidates(db.restaurants, db.tables, db.reservations, rid, realId, now);
    if c == {} {
      return Ok(None);
    }
    var k := FindMin(c);
    return Ok(Some(k));
  }

  /** Only accepted reservations count for a walk-in, so a table the booking
      query offers for `now` is also free now. */
  lemma BookableNowIsFreeNow(
    restaurants: map<int, Restaurant>, tables: map<int, TableRow>, reservations: map<int, Reservation>,
    rid: int, realId: string, now: int, guests: int)
    requires rid in restaurants
    ensures FreeTablesForTime(restaurants, tables, reservations, rid, now, guests, Some(realId), None).value
         <= FreeNowCandidates(restaurants, tables, reservations, rid, realId, now)
  {
  }

  /** A pending reservation does not stop a walk-in even when it starts in
      the next minute. */
  lemma PendingDoesNotStopWalkIn(name: string, t: Table, now: int, lengthMinutes: int)
    requires lengthMinutes > 1
    ensures var restaurants := map[1 := Restaurant(name, lengthMinutes, 15)];
      var tables := map[1 := TableRow(1, t)];
      var reservations := map[1 := Reservation(Some(1), 1, Some(1), now + 1, Pending, 1, map[], "", false)];
      FreeNowCandidates(restaurants, tables, reservations, 1, t.realId, now) == {1}
  {
    var restaurants := map[1 := Restaurant(name, lengthMinutes, 15)];
    var tables := map[1 := TableRow(1, t)];
    var reservations := map[1 := Reservation(Some(1), 1, Some(1), now + 1, Pending, 1, map[], "", false)];
    assert 1 in FreeNowCandidates(restaurants, tables, reservations, 1, t.realId, now);
  }

  // ---------------------------------------------------------------------
  // Free time slots of a day
  // ---------------------------------------------------------------------

  /** The opening hours row the query's `.first()` returns for a weekday. */
  function HoursRows(hours: map<int, Hours>, rid: int, weekday: int): set<int>
  {
    set k | k in hours && hours[k].restaurant == rid && hours[k].day == weekday
  }

  ghost function HoursFor(hours: map<int, Hours>, rid: int, day: int): Option<Hours>
  {
    var rows := HoursRows(hours, rid, Weekday(day));
    if rows == {} then None else Some(hours[MinKey(rows)])
  }

  /** A clock time with its minutes rounded down to the quarter hour. */
  function QuarterFloor(m: Clock): (q: int)
    ensures 0 <= q <= m < q + SlotMinutes && q % SlotMinutes == 0
  {
    m / 60 * 60 + m % 60 / 15 * 15
  }

  /** The suitable tables: the restaurant's tables seating the guests. */
  function Pool(tables: map<int, TableRow>, rid: int, guests: int): set<int>
  {
    set k | k in tables && tables[k].restaurant == rid && Seats(tables[k].table) >= guests
  }

  /** The day's reservations that are not rejected and sit at a pool table. */
  function DayReservations(reservations: map<int, Reservation>, rid: int, pool: set<int>, day: int): set<int>
  {
    set m | m in reservations && reservations[m].restaurant == rid && reservations[m].status != Rejected
      && reservations[m].table.Some? && reservations[m].table.value in pool && DayOf(reservations[m].date) == day
  }

  /** The reservations whose closed interval [start, start + length] meets
      the slot's [t, t + length]. */
  function Meeting(reservations: map<int, Reservation>, day: set<int>, t: int, len: int): set<int>
    requires day <= reservations.Keys
  {
    set m | m in day && !(t + len < reservations[m].date || reservations[m].date + len < t)
  }

  /** A slot is offered when fewer reservations meet it than there are
      suitable tables. */
  predicate SlotOpen(reservations: map<int, Reservation>, day: set<int>, pool: set<int>, t: int, len: int)
    requires day <= reservations.Keys
  {
    |Meeting(reservations, day, t, len)| < |pool|
  }

  /** `get_restaurant_free_timeslots_for_day`. */
  method FreeTimeslotsForDay(db: Session, rid: int, day: int, guests: int) returns (r: Reply<seq<int>>)
    ensures !r.Refused?
    ensures var h := HoursFor(db.hours, rid, day);
      (h.None? || h.value.closed) ==> r == Ok([])
    ensures var h := HoursFor(db.hours, rid, day);
      r.Crash? <==> h.Some? && !h.value.closed
                    && (rid !in db.restaurants || h.value.open.None? || h.value.close.None?)
    ensures var h := HoursFor(db.hours, rid, day);
      r.Ok? && h.Some? && !h.value.closed ==>
        var start, end := DayStart(day) + QuarterFloor(h.value.open.value), DayStart(day) + QuarterFloor(h.value.close.value);
        var len := db.restaurants[rid].lengthMinutes;
        var pool := Pool(db.tables, rid, guests);
        var dayRes := DayReservations(db.reservations, rid, pool, day);
        && (forall i, j :: 0 <= i < j < |r.value| ==> r.value[i] < r.value[j])
        && (forall i :: 0 <= i < |r.value| ==>
              start <= r.value[i] <= end && (r.value[i] - start) % SlotMinutes == 0)
        && (forall t :: t in r.value <==>
              start <= t <= end && (t - start) % SlotMinutes == 0 && SlotOpen(db.reservations, dayRes, pool, t, len))
        && (pool == {} ==> r.value == [])
  {
    var rows := HoursRows(db.hours, rid, Weekday(day));
    if rows == {} {
      return Ok([]);
    }
    var first := FindMin(rows);
    var h := db.hours[first];
    if h.closed {
      return Ok([]);
    }
    if rid !in db.restaurants || h.open.None? || h.close.None? {
      return Crash;
    }
    var len := db.restaurants[rid].lengthMinutes;
    var start := DayStart(day) + QuarterFloor(h.open.value);
    var end := DayStart(day) + QuarterFloor(h.close.value);
    var pool := Pool(db.tables, rid, guests);
    var dayRes := DayReservations(db.reservations, rid, pool, day);
    var slots := CollectSlots(db.reservations, dayRes, pool, start, end, len);
    return Ok(slots);
  }

  /** The quarter hours from `start` counted by the slot loop. */
  predicate OnQuarter(start: int, t: int)
  {
    (t - start) % SlotMinutes == 0
  }

  /** The open quarter hours from `t` to `end` inclusive, in the order the
      slot loop visits them. */
  function OpenQuarters(reservations: map<int, Reservation>, dayRes: set<int>, pool: set<int>,
                        end: int, len: int, t: int): seq<int>
    requires dayRes <= reservations.Keys
    decreases end - t
  {
    if t > end then
      []
    else
      (if SlotOpen(reservations, dayRes, pool, t, len) then [t] else [])
      + OpenQuarters(reservations, dayRes, pool, end, len, t + SlotMinutes)
  }

  /** The open quarter hours are increasing, lie between `t` and `end` on the
      quarter grid of `start`, and are exactly the open ones there. */
  lemma {:induction false} OpenQuartersFacts(reservations: map<int, Reservation>, dayRes: set<int>, pool: set<int>,
                                             start: int, end: int, len: int, t: int)
    requires dayRes <= reservations.Keys && OnQuarter(start, t)
    ensures var q := OpenQuarters(reservations, dayRes, pool, end, len, t);
      && (forall i, j :: 0 <= i < j < |q| ==> q[i] < q[j])
      && (forall i :: 0 <= i < |q| ==> t <= q[i] <= end && OnQuarter(start, q[i]))
      && (forall u :: u in q <==> t <= u <= end && OnQuarter(start, u) && SlotOpen(reservations, dayRes, pool, u, len))
      && (pool == {} ==> q == [])
    decreases end - t
  {
    if t <= end {
      OpenQuartersFacts(reservations, dayRes, pool, start, end, len, t + SlotMinutes);
      var rest := OpenQuarters(reservations, dayRes, pool, end, len, t + SlotMinutes);
      var q := OpenQuarters(reservations, dayRes, pool, end, len, t);
      assert q == (if SlotOpen(reservations, dayRes, pool, t, len) then [t] else []) + rest;
      forall u | t <= u <= end && OnQuarter(start, u) && SlotOpen(reservations, dayRes, pool, u, len)
        ensures u in q
      {
        if u < t + SlotMinutes {
          NoQuarterBetween(start, t, u);
        } else {
          assert u in rest;
        }
      }
    }
  }

  /** Two quarter hours counted from `start` less than a quarter apart are
      the same. */
  lemma NoQuarterBetween(start: int, t: int, u: int)
    requires OnQuarter(start, t) && OnQuarter(start, u)
    requires t <= u < t + SlotMinutes
    ensures u == t
  {
  }

  /** The loop of `get_restaurant_free_timeslots_for_day`: every quarter hour
      from `start` to `end` inclusive that is open. */
  method CollectSlots(reservations: map<int, Reservation>, dayRes: set<int>, pool: set<int>, start: int, end: int, len: int)
    returns (slots: seq<int>)
    requires dayRes <= reservations.Keys
    ensures forall i, j :: 0 <= i < j < |slots| ==> slots[i] < slots[j]
    ensures forall i :: 0 <= i < |slots| ==> start <= slots[i] <= end && (slots[i] - start) % SlotMinutes == 0
    ensures forall t :: t in slots <==>
      start <= t <= end && (t - start) % SlotMinutes == 0 && SlotOpen(reservations, dayRes, pool, t, len)
    ensures pool == {} ==> slots == []
  {
    slots := [];
    var t := start;
    while t <= end
      invariant slots + OpenQuarters(reservations, dayRes, pool, end, len, t)
             == OpenQuarters(reservations, dayRes, pool, end, len, start)
      decreases end - t
    {
      ghost var rest := OpenQuarters(reservations, dayRes, pool, end, len, t + SlotMinutes);
      if |Meeting(reservations, dayRes, t, len)| < |pool| {
        assert OpenQuarters(reservations, dayRes, pool, end, len, t) == [t] + rest;
        slots := slots + [t];
      } else {
        assert OpenQuarters(reservations, dayRes, pool, end, len, t) == rest;
      }
      t := t + SlotMinutes;
    }
    assert slots == OpenQuarters(reservations, dayRes, pool, end, len, start);
    OpenQuartersFacts(reservations, dayRes, pool, start, end, len, start);
  }

  /** The count uses closed intervals: a reservation starting exactly when a
      slot's stay would end still counts against that slot. */
  lemma TouchingReservationCounts(reservations: map<int, Reservation>, day: set<int>, t: int, len: int, m: int)
    requires day <= reservations.Keys && m in day && reservations[m].date == t + len && len >= 0
    ensures m in Meeting(reservations, day, t, len)
  {
  }

  /** An offered slot leaves at least one suitable table that no reservation
      meeting the slot occupies. */
  lemma OpenSlotLeavesATable(reservations: map<int, Reservation>, rid: int, pool: set<int>, day: int, t: int, len: int)
    requires SlotOpen(reservations, DayReservations(reservations, rid, pool, day), pool, t, len)
    ensures exists k ::
      k in pool && forall m :: m in Meeting(reservations, DayReservations(reservations, rid, pool, day), t, len) ==> reservations[m].table != Some(k)
  {
    var meeting := Meeting(reservations, DayReservations(reservations, rid, pool, day), t, len);
    var used := TablesOf(reservations, meeting);
    TablesOfSmaller(reservations, meeting);
    assert |used| < |pool|;
    var free := pool - used;
    EmptyIff(free);
    if free == {} {
      forall y | y in pool
        ensures y in used
      {
        assert y !in free;
      }
      SubsetSmaller(pool, used);
      assert false;
    }
    var k :| k in free;
    forall m | m in meeting
      ensures reservations[m].table != Some(k)
    {
      assert reservations[m].table.value in used;
    }
  }

  /** The tables a set of reservations sits at. */
  function TablesOf(reservations: map<int, Reservation>, ms: set<int>): set<int>
    requires ms <= reservations.Keys
  {
    set m | m in ms && reservations[m].table.Some? :: reservations[m].table.value
  }

  /** No more tables than reservations. */
  lemma {:induction false} TablesOfSmaller(reservations: map<int, Reservation>, ms: set<int>)
    requires ms <= reservations.Keys
    ensures |TablesOf(reservations, ms)| <= |ms|
    decreases ms
  {
    if ms != {} {
      EmptyIff(ms);
      var m :| m in ms;
      var rest := ms - {m};
      TablesOfSmaller(reservations, rest);
      var extra := if reservations[m].table.Some? then {reservations[m].table.value} else {};
      assert TablesOf(reservations, ms) <= TablesOf(reservations, rest) + extra;
      SubsetSmaller(TablesOf(reservations, ms), TablesOf(reservations, rest) + extra);
    }
  }

  /** A subset is no larger than its superset. */
  lemma SubsetSmaller(a: set<int>, b: set<int>)
    requires a <= b
    ensures |a| <= |b|
  {
    assert b == a + (b - a);
  }
}
