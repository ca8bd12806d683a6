/**
 * The request handlers of customers and waiters around reservations: the
 * gates they apply before calling into the model, how they turn a refusal
 * into status 400, and what they return.
 *
 * `now` is the server's clock at the time of the request; the caller's
 * identity (a customer's id, a waiter's restaurant) comes from the token.
 */
module Routes {
  import opened Common
  import opened Store
  import opened Availability
  import opened Reservations
  import opened RestaurantSettings

  // ------------------------------------------------------------- customers

  /** `restaurant-search`: invalid search options are refused before any
      search runs; the search itself is not modelled. */
  function SearchGate(q: Search): (r: Reply<()>)
    ensures r == Ok(()) <==> SearchValid(q)
    ensures r != Ok(()) ==> r == Refused(400)
  {
    if !SearchValid(q) then Refused(400) else Ok(())
  }

  /** The days a customer may ask about: today and later. */
  predicate NotPastDay(date: int, now: int)
  {
    DayOf(date) >= DayOf(now)
  }

  /** `get-date-available-times`: a day before today is refused, any other
      day gets that day's free slots: none on a day without hours or a
      closed day, a crash when the restaurant or an opening time is missing,
      and otherwise every quarter hour between the rounded opening and
      closing times that fewer reservations meet than there are tables for
      the party, in increasing order. */
  method DateAvailableTimes(db: Session, rid: int, date: int, guests: int, now: int) returns (r: Reply<seq<int>>)
    ensures r == Refused(400) <==> !NotPastDay(date, now)
    ensures r.Ok? ==>
      (forall i, j :: 0 <= i < j < |r.value| ==> r.value[i] < r.value[j])
      && forall i :: 0 <= i < |r.value| ==> DayOf(r.value[i]) >= DayOf(now)
    ensures var h := HoursFor(db.hours, rid, DayOf(date));
      NotPastDay(date, now) && (h.None? || h.value.closed) ==> r == Ok([])
    ensures var h := HoursFor(db.hours, rid, DayOf(date));
      r.Crash? <==> NotPastDay(date, now) && h.Some? && !h.value.closed
                    && (rid !in db.restaurants || h.value.open.None? || h.value.close.None?)
    ensures var day := DayOf(date);
      var h := HoursFor(db.hours, rid, day);
      r.Ok? && h.Some? && !h.value.closed ==>
        var start, end := DayStart(day) + QuarterFloor(h.value.open.value), DayStart(day) + QuarterFloor(h.value.close.value);
        var len := db.restaurants[rid].lengthMinutes;
        var pool := Pool(db.tables, rid, guests);
        var dayRes := DayReservations(db.reservations, rid, pool, day);
        forall t :: t in r.value <==>
          start <= t <= end && (t - start) % SlotMinutes == 0 && SlotOpen(db.reservations, dayRes, pool, t, len)
  {
    if !NotPastDay(date, now) {
      return Refused(400);
    }
    r := FreeTimeslotsForDay(db, rid, DayOf(date), guests);
    if r.Ok? {
      ghost var h := HoursFor(db.hours, rid, DayOf(date));
      if h.Some? && !h.value.closed {
        forall i | 0 <= i < |r.value|
          ensures DayOf(r.value[i]) >= DayOf(now)
        {
          assert DayStart(DayOf(date)) <= r.value[i];
          assert DayStart(DayOf(date)) == DayOf(date) * MinutesPerDay;
        }
      }
    }
  }

  /** `available-tables-for-time`: a day before today is refused, otherwise
      the real ids of the tables the booking query offers. */
  function AvailableTablesForTime(db: Session, rid: int, date: int, guests: int, now: int): (r: Reply<set<string>>)
    reads db
    ensures r == Refused(400) <==> !NotPastDay(date, now)
    ensures r.Crash? <==> NotPastDay(date, now) && rid !in db.restaurants
    ensures r.Ok? ==> forall s :: s in r.value <==>
      exists k :: k in FreeTablesForTime(db.restaurants, db.tables, db.reservations, rid, date, guests, None, None).value
                  && k in db.tables && db.tables[k].table.realId == s
  {
    if !NotPastDay(date, now) then Refused(400)
    else
      var free := FreeTablesForTime(db.restaurants, db.tables, db.reservations, rid, date, guests, None, None);
      if free.Crash? then Crash
      else Ok(set k | k in free.value && k in db.tables :: db.tables[k].table.realId)
  }

  /** The users' `reserve-table`: a day before today is refused; otherwise the
      booking query is asked for the requested table, and the first table it
      offers is booked for the customer, pending the restaurant's decision.
      When it offers none, the request is refused and nothing is stored. */
  method ReserveTable(db: Session, user: int, rid: int, realId: Option<string>, date: int, guests: int, now: int)
    returns (r: Reply<int>)
    modifies db`reservations
    ensures !NotPastDay(date, now) ==> r == Refused(400) && db.reservations == old(db.reservations)
    ensures NotPastDay(date, now) && rid !in db.restaurants ==> r == Crash && db.reservations == old(db.reservations)
    ensures NotPastDay(date, now) && rid in db.restaurants ==>
      var free := FreeTablesForTime(db.restaurants, db.tables, old(db.reservations), rid, date, guests, realId, None).value;
      if free == {} then r == Refused(400) && db.reservations == old(db.reservations)
      else
        r == Ok(NextKey(old(db.reservations).Keys))
        && db.reservations == old(db.reservations)[r.value := NewBooking(user, rid, Some(MinKey(free)), date, guests)]
        && MinKey(free) in db.tables && Seats(db.tables[MinKey(free)].table) >= guests
        && db.tables[MinKey(free)].restaurant == rid
  {
    if !NotPastDay(date, now) {
      return Refused(400);
    }
    var free := FreeTablesForTime(db.restaurants, db.tables, db.reservations, rid, date, guests, realId, None);
    if free.Crash? {
      return Crash;
    }
    if free.value == {} {
      return Refused(400);
    }
    var k := FindMin(free.value);
    var id := CreateReservation(db, rid, Some(k), date, guests, user);
    r := Ok(id);
  }

  /** `notify-service`: the flag's new value, or 400 when the toggle is
      refused. */
  method NotifyService(db: Session, id: int, user: int, now: int) returns (r: Reply<bool>)
    modifies db`reservations
    ensures r.Ok? || r == Refused(400)
    ensures r.Ok? <==> Toggleable(old(db.reservations), db.restaurants, id, user, now)
    ensures r.Ok? ==> r.value == !old(db.reservations)[id].needService && db.reservations == Toggled(old(db.reservations), id)
    ensures !r.Ok? ==> db.reservations == old(db.reservations)
  {
    var x := ToggleNeedsService(db, id, user, now);
    if x.None? {
      return Refused(400);
    }
    r := Ok(x.value.needService);
  }

  // --------------------------------------------------------------- orders

  /** Who asks: a customer, by id, or a waiter, by restaurant. */
  datatype Caller = Customer(user: int) | Waiter(restaurant: int)

  /** The reservation a caller may see the order of: the customer's own
      visible reservation, or a visible reservation of the waiter's
      restaurant. */
  predicate CanSee(res: map<int, Reservation>, restaurants: map<int, Restaurant>, id: int, caller: Caller, now: int)
  {
    match caller
    case Customer(u) => Visible(res, restaurants, id, Some(u), now)
    case Waiter(rid) => Visible(res, restaurants, id, None, now) && res[id].restaurant == rid
  }

  /** An order as the order-items page shows it: item id to count. */
  function CountsOf(order: map<int, OrderLine>): map<int, int>
  {
    map k | k in order :: order[k].count
  }

  /** The request body `order: dict[int, int]`, as a map. */
  function RequestMap(req: seq<(int, int)>): map<int, int>
  {
    if req == [] then map[] else RequestMap(req[..|req| - 1])[req[|req| - 1].0 := req[|req| - 1].1]
  }

  /** The visible categories of a restaurant; the page shows the first one's
      items, so a restaurant without any fails. */
  function VisibleCategories(categories: map<int, Category>, rid: int): set<int>
  {
    set k | k in categories && categories[k].restaurant == rid && categories[k].visible
  }

  /** `reservation-order-items` of customers and waiters: the restaurant and
      the current order's counts. A reservation the caller may not see is
      refused; a restaurant without a visible category fails. */
  function OrderItems(res: map<int, Reservation>, restaurants: map<int, Restaurant>, categories: map<int, Category>,
                      id: int, caller: Caller, now: int): (r: Reply<(int, map<int, int>)>)
    ensures r == Refused(400) <==> !CanSee(res, restaurants, id, caller, now)
    ensures r.Crash? <==> CanSee(res, restaurants, id, caller, now) && VisibleCategories(categories, res[id].restaurant) == {}
    ensures r.Ok? ==>
      id in res && r.value.0 == res[id].restaurant
      && r.value.1.Keys == res[id].order.Keys
      && (forall k :: k in res[id].order ==> r.value.1[k] == res[id].order[k].count)
    ensures r.Ok? && caller.Waiter? ==> res[id].restaurant == caller.restaurant
    ensures r.Ok? && caller.Customer? ==> res[id].user == Some(caller.user)
  {
    if !CanSee(res, restaurants, id, caller, now) then Refused(400)
    else
      var x := res[id];
      if VisibleCategories(categories, x.restaurant) == {} then Crash
      else Ok((x.restaurant, CountsOf(x.order)))
  }

  /** What the order-items page shows after an accepted order update is the
      request itself: every requested item with its requested count. */
  lemma {:induction false} OrderShownAsRequested(items: map<int, Item>, req: seq<(int, int)>)
    requires forall i :: 0 <= i < |req| ==> req[i].0 in items
    ensures CountsOf(NewOrder(items, req)) == RequestMap(req)
  {
    if req != [] {
      var init := req[..|req| - 1];
      var last := req[|req| - 1];
      OrderShownAsRequested(items, init);
      var before := NewOrder(items, init);
      var after := before[last.0 := NewLine(items[last.0], last.1)];
      assert CountsOf(after) == CountsOf(before)[last.0 := last.1];
    }
  }

  /** `update-order` of customers and waiters. A customer's update goes to
      the model with the customer's id. A waiter's is first checked against
      `get_reservation` and the waiter's restaurant, then goes to the model
      with no user, which accepts only accepted reservations: a visible
      pending one slips through the check and fails in the model unless its
      first item is refused first. A refused update is answered with 400. */
  method UpdateOrder(db: Session, id: int, caller: Caller, req: seq<(int, int)>, now: int) returns (r: Reply<bool>)
    requires DistinctItems(req)
    modifies db`reservations
    ensures r == Ok(true) || r == Refused(400) || r == Crash
    ensures r == Ok(true) ==>
      (var user := if caller.Customer? then Some(caller.user) else None;
      OrderTarget(old(db.reservations), db.restaurants, id, user, now)
      && OrderAllowed(db.items, db.categories, db.restaurants, old(db.reservations)[id].order, req)
      && db.reservations == old(db.reservations)[id := old(db.reservations)[id].(order := NewOrder(db.items, req))])
    ensures r == Ok(true) && caller.Waiter? ==> old(db.reservations)[id].restaurant == caller.restaurant
    ensures r != Ok(true) ==> db.reservations == old(db.reservations)
    ensures caller.Waiter? && !CanSee(old(db.reservations), db.restaurants, id, caller, now) ==> r == Refused(400)
    ensures (caller.Waiter? && CanSee(old(db.reservations), db.restaurants, id, caller, now)
             && old(db.reservations)[id].status == Pending
             && (|req| == 0 || InMenu(db.items, db.categories, db.restaurants, req[0].0)))
            ==> r == Crash
    ensures (var user := if caller.Customer? then Some(caller.user) else None;
             (caller.Waiter? ==> CanSee(old(db.reservations), db.restaurants, id, caller, now))
             && OrderTarget(old(db.reservations), db.restaurants, id, user, now)
             && OrderAllowed(db.items, db.categories, db.restaurants, old(db.reservations)[id].order, req))
            ==> r == Ok(true)
    ensures caller.Customer? && !OrderTarget(old(db.reservations), db.restaurants, id, Some(caller.user), now) ==>
      r == if |req| > 0 && !InMenu(db.items, db.categories, db.restaurants, req[0].0) then Refused(400) else Crash
  {
    var user: Option<int>;
    match caller {
      case Customer(u) =>
        user := Some(u);
      case Waiter(rid) =>
        if !CanSee(db.reservations, db.restaurants, id, caller, now) {
          return Refused(400);
        }
        user := None;
    }
    var result := UpdateReservationOrder(db, id, user, req, now);
    r := if result == Ok(false) then Refused(400) else result;
  }

  // ---------------------------------------------------------------- waiters

  /** `decide-reservation`: true when the decision was taken, 400 otherwise. */
  method DecideReservation(db: Session, rid: int, id: int, accepted: bool, now: int) returns (r: Reply<bool>)
    modifies db`reservations
    ensures r == Ok(true) || r == Refused(400)
    ensures r.Ok? <==> Decidable(old(db.reservations), db.restaurants, id, rid, now)
    ensures db.reservations == if r.Ok? then Decided(old(db.reservations), id, accepted) else old(db.reservations)
  {
    var ok := UpdatePendingReservationStatus(db, id, rid, accepted, now);
    r := if ok then Ok(true) else Refused(400);
  }

  /** The waiters' `reserve-table`: the first table with the real id that is
      free now gets an accepted walk-in reservation; without one the request
      is refused and nothing is stored. */
  method WalkInReservation(db: Session, w: Worker, realId: string, now: int) returns (r: Reply<int>)
    modifies db`reservations
    ensures w.restaurant !in db.restaurants ==> r == Crash && db.reservations == old(db.reservations)
    ensures w.restaurant in db.restaurants ==>
      var free := FreeNowCandidates(db.restaurants, db.tables, old(db.reservations), w.restaurant, realId, now);
      if free == {} then r == Refused(400) && db.reservations == old(db.reservations)
      else
        r == Ok(NextKey(old(db.reservations).Keys))
        && db.reservations == old(db.reservations)[r.value := WalkIn(w, MinKey(free), now)]
        && MinKey(free) in db.tables && db.tables[MinKey(free)].restaurant == w.restaurant
        && db.tables[MinKey(free)].table.realId == realId
  {
    var table := IsTableFreeNow(db, w.restaurant, realId, now);
    if table.Crash? {
      return Crash;
    }
    if table.value.None? {
      return Refused(400);
    }
    var id := CreateWaiterReservation(db, w, table.value.value, now);
    r := Ok(id);
  }

  // ------------------------------------------------------------- restaurant

  /** The users' `restaurant-info`: an unknown restaurant is refused;
      otherwise its opening hours and its flags, each read the way that
      fills in what is missing. */
  method RestaurantInfo(db: Session, rid: int) returns (r: Reply<(seq<HourText>, seq<FlagView>)>)
    modifies db`hours, db`settings
    ensures r == Refused(400) <==> rid !in db.restaurants
    ensures r.Ok? ==>
      |r.value.0| == 7
      && (forall d :: 0 <= d < 7 ==> r.value.0[d] == HourView(LastRow(old(db.hours), rid, d)))
      && IdsOf(r.value.1) == db.flags.Keys
      && (forall i :: 0 <= i < |r.value.1| ==> r.value.1[i].on == OrTrue(SettingOf(old(db.settings), rid, r.value.1[i].id)))
    ensures r.Ok? ==>
      && (|HoursDays(old(db.hours), rid)| < 7 ==>
            forall d :: 0 <= d < 7 ==> LastRow(db.hours, rid, d).Some? && HourView(LastRow(db.hours, rid, d)) == r.value.0[d])
      && (|HoursDays(old(db.hours), rid)| >= 7 ==> db.hours == old(db.hours))
      && (forall k :: k in old(db.hours) ==> k in db.hours && db.hours[k] == old(db.hours)[k])
      && (forall k :: k in db.hours && k !in old(db.hours) ==> db.hours[k].restaurant == rid && db.hours[k].closed)
    ensures r.Ok? ==>
      && (forall i, j :: 0 <= i < j < |r.value.1| ==> r.value.1[i].id < r.value.1[j].id)
      && (forall i :: 0 <= i < |r.value.1| ==>
            r.value.1[i].id in db.flags
            && r.value.1[i].name == db.flags[r.value.1[i].id].name
            && r.value.1[i].description == db.flags[r.value.1[i].id].description)
      && (|SetFlags(old(db.settings), rid)| < |db.flags| ==>
            forall i :: 0 <= i < |r.value.1| ==> SettingOf(db.settings, rid, r.value.1[i].id) == Some(r.value.1[i].on))
      && (|SetFlags(old(db.settings), rid)| >= |db.flags| ==> db.settings == old(db.settings))
      && (forall k :: k in old(db.settings) ==> k in db.settings && db.settings[k] == old(db.settings)[k])
      && (forall k :: k in db.settings && k !in old(db.settings) ==> db.settings[k].restaurant == rid && db.settings[k].on)
    ensures !r.Ok? ==> db.hours == old(db.hours) && db.settings == old(db.settings)
  {
    if rid !in db.restaurants {
      return Refused(400);
    }
    var week := GetRestaurantHours(db, rid);
    var flags := GetRestaurantFlags(db, rid);
    r := Ok((week, flags));
  }
}
