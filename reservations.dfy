/**
 * The reservation lifecycle: creating a reservation, the customer's and the
 * restaurant's transitions on it (cancel, accept or reject, call the waiter,
 * edit the details, edit the order), the per-weekday counts of a table's coming
 * reservations, and the paginated listings.
 *
 * Every query of the backend joins the reservation with its restaurant, so a
 * reservation whose restaurant row is gone is never found; "not ended" means
 * that the start plus the restaurant's reservation length is not before now.
 */
module Reservations {
  import opened Common
  import opened Store

  /** The join with the restaurant and the "has not ended yet" filter. */
  predicate NotEnded(x: Reservation, restaurants: map<int, Restaurant>, now: int)
  {
    x.restaurant in restaurants && EndOf(x, restaurants[x.restaurant].lengthMinutes) >= now
  }

  /** Started, and not ended yet. */
  predicate Ongoing(x: Reservation, restaurants: map<int, Restaurant>, now: int)
  {
    NotEnded(x, restaurants, now) && x.date < now
  }

  // ---------------------------------------------------------------- creation

  /** The reservation a customer's booking creates. */
  function NewBooking(user: int, rid: int, table: Option<int>, date: int, guests: int): (x: Reservation)
    ensures x.status == Pending && x.order == map[] && x.user == Some(user)
    ensures x.restaurant == rid && x.table == table && x.date == date && x.guests == guests
    ensures !x.needService && x.details == ""
  {
    Reservation(Some(user), rid, table, date, Pending, guests, map[], "", false)
  }

  /** Inserts a customer's pending reservation and returns its id. */
  method CreateReservation(db: Session, rid: int, table: Option<int>, date: int, guests: int, user: int)
    returns (id: int)
    modifies db`reservations
    ensures id !in old(db.reservations) && id == NextKey(old(db.reservations).Keys)
    ensures db.reservations == old(db.reservations)[id := NewBooking(user, rid, table, date, guests)]
  {
    id := FreshKey(db.reservations);
    db.reservations := db.reservations[id := NewBooking(user, rid, table, date, guests)];
  }

  /** The note a waiter's walk-in reservation carries. */
  function WaiterNote(w: Worker): string
  {
    "Rezerwacja stworzona przez kelnera - " + w.firstName + " " + w.surname
  }

  /** The reservation a waiter creates for a walk-in guest. */
  function WalkIn(w: Worker, table: int, now: int): (x: Reservation)
    ensures x.status == Accepted && x.order == map[] && x.user == None
    ensures x.restaurant == w.restaurant && x.table == Some(table) && x.date == now && x.guests == 1
    ensures !x.needService && x.details == WaiterNote(w)
  {
    Reservation(None, w.restaurant, Some(table), now, Accepted, 1, map[], WaiterNote(w), false)
  }

  /** Inserts a waiter's accepted walk-in reservation, starting now. */
  method CreateWaiterReservation(db: Session, w: Worker, table: int, now: int) returns (id: int)
    modifies db`reservations
    ensures id !in old(db.reservations) && id == NextKey(old(db.reservations).Keys)
    ensures db.reservations == old(db.reservations)[id := WalkIn(w, table, now)]
  {
    id := FreshKey(db.reservations);
    db.reservations := db.reservations[id := WalkIn(w, table, now)];
  }

  // ------------------------------------------------------------ cancellation

  /** The customer's own reservation, not rejected, and not started yet. */
  predicate Cancellable(res: map<int, Reservation>, id: int, user: int, now: int)
  {
    id in res && res[id].user == Some(user) && res[id].status != Rejected && res[id].date >= now
  }

  /** Deletes a cancellable reservation; anything else is refused unchanged. */
  method CancelReservation(db: Session, id: int, user: int, now: int) returns (ok: bool)
    modifies db`reservations
    ensures ok == Cancellable(old(db.reservations), id, user, now)
    ensures db.reservations == if ok then old(db.reservations) - {id} else old(db.reservations)
  {
    ok := Cancellable(db.reservations, id, user, now);
    if ok {
      db.reservations := db.reservations - {id};
    }
  }

  /** A fresh booking can be cancelled by its customer exactly until it starts,
      and nobody else can cancel it. */
  lemma NewBookingCancellable(res: map<int, Reservation>, id: int, user: int, other: int,
                              rid: int, table: Option<int>, date: int, guests: int, now: int)
    ensures Cancellable(res[id := NewBooking(user, rid, table, date, guests)], id, user, now) <==> date >= now
    ensures other != user ==> !Cancellable(res[id := NewBooking(user, rid, table, date, guests)], id, other, now)
  {
  }

  // ------------------------------------------------------------ call a waiter

  /** The customer's own accepted reservation that is under way. */
  predicate Toggleable(res: map<int, Reservation>, restaurants: map<int, Restaurant>, id: int, user: int, now: int)
  {
    id in res && res[id].user == Some(user) && res[id].status == Accepted && Ongoing(res[id], restaurants, now)
  }

  /** The reservations with the "needs service" flag of one of them flipped. */
  function Toggled(res: map<int, Reservation>, id: int): map<int, Reservation>
    requires id in res
  {
    res[id := res[id].(needService := !res[id].needService)]
  }

  /** Flips the flag of a toggleable reservation and returns the reservation;
      anything else gives `None` and changes nothing. */
  method ToggleNeedsService(db: Session, id: int, user: int, now: int) returns (r: Option<Reservation>)
    modifies db`reservations
    ensures r.Some? == Toggleable(old(db.reservations), db.restaurants, id, user, now)
    ensures r.Some? ==> db.reservations == Toggled(old(db.reservations), id) && r.value == db.reservations[id]
    ensures r.None? ==> db.reservations == old(db.reservations)
  {
    if Toggleable(db.reservations, db.restaurants, id, user, now) {
      db.reservations := Toggled(db.reservations, id);
      r := Some(db.reservations[id]);
    } else {
      r := None;
    }
  }

  /** A toggle flips the flag and touches nothing else; the reservation stays
      toggleable, and a second toggle restores every reservation. */
  lemma ToggleTwiceRestores(res: map<int, Reservation>, restaurants: map<int, Restaurant>, id: int, user: int, now: int)
    requires Toggleable(res, restaurants, id, user, now)
    ensures Toggled(res, id)[id].needService == !res[id].needService
    ensures Toggled(res, id)[id].(needService := res[id].needService) == res[id]
    ensures Toggled(res, id).Keys == res.Keys
    ensures forall k :: k in res && k != id ==> Toggled(res, id)[k] == res[k]
    ensures Toggleable(Toggled(res, id), restaurants, id, user, now)
    ensures Toggled(Toggled(res, id), id) == res
  {
    var once := Toggled(res, id);
    var twice := Toggled(once, id);
    assert twice[id] == res[id];
    assert twice.Keys == res.Keys;
  }

  // -------------------------------------------------------- accept or reject

  /** A pending, not ended reservation of the deciding restaurant. */
  predicate Decidable(res: map<int, Reservation>, restaurants: map<int, Restaurant>, id: int, rid: int, now: int)
  {
    id in res && res[id].restaurant == rid && res[id].status == Pending && NotEnded(res[id], restaurants, now)
  }

  /** The reservations after the restaurant decided on one of them. */
  function Decided(res: map<int, Reservation>, id: int, accepted: bool): map<int, Reservation>
    requires id in res
  {
    res[id := res[id].(status := if accepted then Accepted else Rejected)]
  }

  /** Accepts or rejects a decidable reservation; anything else is refused
      unchanged. */
  method UpdatePendingReservationStatus(db: Session, id: int, rid: int, accepted: bool, now: int) returns (ok: bool)
    modifies db`reservations
    ensures ok == Decidable(old(db.reservations), db.restaurants, id, rid, now)
    ensures db.reservations == if ok then Decided(old(db.reservations), id, accepted) else old(db.reservations)
  {
    ok := Decidable(db.reservations, db.restaurants, id, rid, now);
    if ok {
      db.reservations := Decided(db.reservations, id, accepted);
    }
  }

  /** A decision is final: the decided reservation cannot be decided again, at
      any later time. */
  lemma DecisionIsFinal(res: map<int, Reservation>, restaurants: map<int, Restaurant>, id: int, rid: int,
                        accepted: bool, now: int, later: int, again: bool)
    requires Decidable(res, restaurants, id, rid, now)
    ensures Decided(res, id, accepted)[id].status == (if accepted then Accepted else Rejected)
    ensures !Decidable(Decided(res, id, accepted), restaurants, id, rid, later)
  {
  }

  /** A waiter's walk-in is accepted from the start: there is nothing left to
      decide on it. */
  lemma WalkInNeedsNoDecision(res: map<int, Reservation>, restaurants: map<int, Restaurant>, id: int,
                              w: Worker, table: int, now: int, later: int)
    ensures !Decidable(res[id := WalkIn(w, table, now)], restaurants, id, w.restaurant, later)
  {
  }

  // ------------------------------------------------------ additional details

  /** The longest details text the handler admits: shorter than this. */
  const DetailsLimit: int := 240

  /** The customer's own accepted reservation that has not ended. */
  predicate DetailsEditable(res: map<int, Reservation>, restaurants: map<int, Restaurant>, id: int, user: int, now: int)
  {
    id in res && res[id].user == Some(user) && res[id].status == Accepted && NotEnded(res[id], restaurants, now)
  }

  /** Replaces the details of an editable reservation when the text is short
      enough; anything else is refused unchanged. */
  method UpdateReservationAdditionalDetails(db: Session, user: int, id: int, details: string, now: int) returns (ok: bool)
    modifies db`reservations
    ensures ok == (DetailsEditable(old(db.reservations), db.restaurants, id, user, now) && |details| < DetailsLimit)
    ensures db.reservations ==
      if ok then old(db.reservations)[id := old(db.reservations)[id].(details := details)] else old(db.reservations)
  {
    ok := DetailsEditable(db.reservations, db.restaurants, id, user, now) && |details| < DetailsLimit;
    if ok {
      db.reservations := db.reservations[id := db.reservations[id].(details := details)];
    }
  }

  // ------------------------------------------------------------------ lookup

  /** What `get_reservation` finds: the reservation, unless it was rejected,
      has ended, or (when a user is given) belongs to someone else. */
  predicate Visible(res: map<int, Reservation>, restaurants: map<int, Restaurant>, id: int, user: Option<int>, now: int)
  {
    id in res && res[id].status != Rejected && NotEnded(res[id], restaurants, now)
    && (user.Some? ==> res[id].user == user)
  }

  /** `get_reservation`. */
  function GetReservation(res: map<int, Reservation>, restaurants: map<int, Restaurant>, id: int, user: Option<int>, now: int)
    : (r: Option<Reservation>)
    ensures r.Some? <==> Visible(res, restaurants, id, user, now)
    ensures r.Some? ==> id in res && r.value == res[id]
  {
    if Visible(res, restaurants, id, user, now) then Some(res[id]) else None
  }

  // ------------------------------------------------------------ order update

  /** The menu the order update looks items up in: items that are not inactive,
      in a visible category whose restaurant exists -- of ANY restaurant. */
  predicate InMenu(items: map<int, Item>, categories: map<int, Category>, restaurants: map<int, Restaurant>, itemId: int)
  {
    itemId in items && items[itemId].status != Inactive && items[itemId].category.Some?
    && items[itemId].category.value in categories
    && categories[items[itemId].category.value].visible
    && categories[items[itemId].category.value].restaurant in restaurants
  }

  /** The per-line rules: an item new to the order must be available, and the
      count of an unavailable item already ordered must not change. */
  predicate LineAllowed(current: map<int, OrderLine>, itemId: int, count: int, item: Item)
  {
    (itemId !in current ==> item.status == Available)
    && (itemId in current && count != current[itemId].count ==> item.status != Unavailable)
  }

  /** A requested order maps item ids to counts, so no id appears twice. */
  predicate DistinctItems(req: seq<(int, int)>)
  {
    forall i, j :: 0 <= i < j < |req| ==> req[i].0 != req[j].0
  }

  /** Every requested line is on the menu and passes the per-line rules. */
  predicate OrderAllowed(items: map<int, Item>, categories: map<int, Category>, restaurants: map<int, Restaurant>,
                         current: map<int, OrderLine>, req: seq<(int, int)>)
  {
    forall i :: 0 <= i < |req| ==>
      InMenu(items, categories, restaurants, req[i].0) && LineAllowed(current, req[i].0, req[i].1, items[req[i].0])
  }

  /** The line recorded for an item: the requested count, the item's current
      name and the line's total price. */
  function NewLine(item: Item, count: int): OrderLine
  {
    OrderLine(count, item.name, item.price * count)
  }

  /** The order built from the requested lines, in request order. */
  function NewOrder(items: map<int, Item>, req: seq<(int, int)>): map<int, OrderLine>
    requires forall i :: 0 <= i < |req| ==> req[i].0 in items
  {
    if req == [] then map[]
    else NewOrder(items, req[..|req| - 1])[req[|req| - 1].0 := NewLine(items[req[|req| - 1].0], req[|req| - 1].1)]
  }

  /** The new order holds exactly the requested items, each with its requested
      count and the menu's current name: nothing else survives. */
  lemma {:induction false} NewOrderIsTheRequest(items: map<int, Item>, req: seq<(int, int)>)
    requires forall i :: 0 <= i < |req| ==> req[i].0 in items
    requires DistinctItems(req)
    ensures forall k :: k in NewOrder(items, req) <==> exists i :: 0 <= i < |req| && req[i].0 == k
    ensures forall i :: 0 <= i < |req| ==> NewOrder(items, req)[req[i].0] == NewLine(items[req[i].0], req[i].1)
  {
    if req != [] {
      var init := req[..|req| - 1];
      NewOrderIsTheRequest(items, init);
      forall k | k in NewOrder(items, req)
        ensures exists i :: 0 <= i < |req| && req[i].0 == k
      {
        if k != req[|req| - 1].0 {
          var i :| 0 <= i < |init| && init[i].0 == k;
          assert req[i].0 == k;
        }
      }
      forall k | exists i :: 0 <= i < |req| && req[i].0 == k
        ensures k in NewOrder(items, req)
      {
        var i :| 0 <= i < |req| && req[i].0 == k;
        if i < |init| {
          assert init[i].0 == k;
        }
      }
      forall i | 0 <= i < |req|
        ensures NewOrder(items, req)[req[i].0] == NewLine(items[req[i].0], req[i].1)
      {
        if i < |init| {
          assert init[i] == req[i];
        }
      }
    }
  }

  /** Submitting the same order again, with the menu unchanged, is accepted and
      gives the same order. */
  lemma ResubmitIsAccepted(items: map<int, Item>, categories: map<int, Category>, restaurants: map<int, Restaurant>,
                           current: map<int, OrderLine>, req: seq<(int, int)>)
    requires DistinctItems(req)
    requires OrderAllowed(items, categories, restaurants, current, req)
    ensures OrderAllowed(items, categories, restaurants, NewOrder(items, req), req)
  {
    NewOrderIsTheRequest(items, req);
    forall i | 0 <= i < |req|
      ensures LineAllowed(NewOrder(items, req), req[i].0, req[i].1, items[req[i].0])
    {
      assert NewOrder(items, req)[req[i].0].count == req[i].1;
    }
  }

  /** An accepted update never changes how many of an unavailable item were
      ordered, and never adds an item that is not available. */
  lemma UnavailableCountsKept(items: map<int, Item>, categories: map<int, Category>, restaurants: map<int, Restaurant>,
                              current: map<int, OrderLine>, req: seq<(int, int)>, i: int)
    requires DistinctItems(req)
    requires OrderAllowed(items, categories, restaurants, current, req)
    requires 0 <= i < |req|
    ensures req[i].0 !in current ==> items[req[i].0].status == Available
    ensures req[i].0 in NewOrder(items, req)
    ensures items[req[i].0].status == Unavailable ==>
      req[i].0 in current && NewOrder(items, req)[req[i].0].count == current[req[i].0].count
  {
    NewOrderIsTheRequest(items, req);
  }

  /** The reservation whose order may be edited: accepted and not ended, and
      the caller's own when a user is given. */
  predicate OrderTarget(res: map<int, Reservation>, restaurants: map<int, Restaurant>, id: int, user: Option<int>, now: int)
  {
    id in res && res[id].status == Accepted && NotEnded(res[id], restaurants, now)
    && (user.Some? ==> res[id].user == user)
  }

  /** Replaces the order of a reservation with the requested lines.
      `Ok(false)` is a refusal. When the reservation is not found the handler
      still walks the request and touches the missing reservation's order:
      that is an unhandled error unless the first requested item is off the
      menu (which refuses first). */
  method UpdateReservationOrder(db: Session, id: int, user: Option<int>, req: seq<(int, int)>, now: int)
    returns (r: Reply<bool>)
    requires DistinctItems(req)
    modifies db`reservations
    ensures OrderTarget(old(db.reservations), db.restaurants, id, user, now) ==>
      r == Ok(OrderAllowed(db.items, db.categories, db.restaurants, old(db.reservations)[id].order, req))
    ensures !OrderTarget(old(db.reservations), db.restaurants, id, user, now) ==>
      r == if |req| > 0 && !InMenu(db.items, db.categories, db.restaurants, req[0].0) then Ok(false) else Crash
    ensures r == Ok(true) ==>
      OrderAllowed(db.items, db.categories, db.restaurants, old(db.reservations)[id].order, req)
      && db.reservations == old(db.reservations)[id := old(db.reservations)[id].(order := NewOrder(db.items, req))]
    ensures r != Ok(true) ==> db.reservations == old(db.reservations)
  {
    var target := OrderTarget(db.reservations, db.restaurants, id, user, now);
    var newOrder: map<int, OrderLine> := map[];
    var i := 0;
    while i < |req|
      invariant 0 <= i <= |req|
      invariant i > 0 ==> target
      invariant forall j :: 0 <= j < i ==> req[j].0 in db.items
      invariant target ==> forall j :: 0 <= j < i ==>
        InMenu(db.items, db.categories, db.restaurants, req[j].0)
        && LineAllowed(db.reservations[id].order, req[j].0, req[j].1, db.items[req[j].0])
      invariant newOrder == NewOrder(db.items, req[..i])
    {
      var itemId := req[i].0;
      var count := req[i].1;
      if !InMenu(db.items, db.categories, db.restaurants, itemId) {
        return Ok(false);
      }
      if !target {
        return Crash;
      }
      if !LineAllowed(db.reservations[id].order, itemId, count, db.items[itemId]) {
        return Ok(false);
      }
      assert req[..i + 1][..i] == req[..i];
      newOrder := newOrder[itemId := NewLine(db.items[itemId], count)];
      i := i + 1;
    }
    if !target {
      return Crash;
    }
    assert req[..i] == req;
    db.reservations := db.reservations[id := db.reservations[id].(order := newOrder)];
    r := Ok(true);
  }

  // --------------------------------------------------- coming-reservation counts

  /** How a weekday is numbered: PostgreSQL's `extract(DOW ...)` counts from
      Sunday, Python's `weekday()` (and the opening-hours rows) from Monday. */
  datatype Numbering = SundayFirst | MondayFirst

  /** The number of a calendar day's weekday in a numbering. */
  function DayNumber(day: int, n: Numbering): (w: int)
    ensures 0 <= w < 7
  {
    match n
    case MondayFirst => Weekday(day)
    case SundayFirst => (Weekday(day) + 1) % 7
  }

  /** A reservation the count query keeps: accepted, of the restaurant, on a
      table with the given plan id, not ended, and on a day no later than six
      days from now. */
  predicate Coming(x: Reservation, restaurants: map<int, Restaurant>, tables: map<int, TableRow>,
                   rid: int, realId: string, now: int)
  {
    x.restaurant == rid && NotEnded(x, restaurants, now) && x.status == Accepted
    && x.table.Some? && x.table.value in tables && tables[x.table.value].table.realId == realId
    && DayStart(DayOf(x.date)) <= now + 6 * MinutesPerDay
  }

  /** An opening-hours row of the restaurant that is not closed, for weekday
      number `w`. */
  predicate OpenRow(hours: map<int, Hours>, h: int, rid: int, w: int)
  {
    h in hours && hours[h].restaurant == rid && !hours[h].closed && hours[h].day == w
  }

  /** The restaurant has an open row for weekday number `w`. */
  predicate OpenOn(hours: map<int, Hours>, rid: int, w: int)
  {
    exists h | h in hours :: OpenRow(hours, h, rid, w)
  }

  /** The joined rows the query groups for one day: every coming reservation on
      that day paired with every open hours row whose weekday equals the day's
      number in numbering `n`. */
  function DayRows(res: map<int, Reservation>, restaurants: map<int, Restaurant>, tables: map<int, TableRow>,
                   hours: map<int, Hours>, rid: int, realId: string, now: int, day: int, n: Numbering): set<(int, int)>
  {
    set m, h | m in res && h in hours && Coming(res[m], restaurants, tables, rid, realId, now)
      && DayOf(res[m].date) == day && OpenRow(hours, h, rid, DayNumber(day, n)) :: (m, h)
  }

  /** The days whose group is keyed `w`: days of coming reservations numbered
      `w` whose joined group is not empty. */
  function GroupDays(res: map<int, Reservation>, restaurants: map<int, Restaurant>, tables: map<int, TableRow>,
                     hours: map<int, Hours>, rid: int, realId: string, now: int, w: int, n: Numbering): set<int>
  {
    set m | m in res && Coming(res[m], restaurants, tables, rid, realId, now)
      && DayNumber(DayOf(res[m].date), n) == w
      && DayRows(res, restaurants, tables, hours, rid, realId, now, DayOf(res[m].date), n) != {}
      :: DayOf(res[m].date)
  }

  /** The count stored under key `w`: the group of the latest such day (the
      groups come in date order and later ones overwrite), else 0 when the
      restaurant is open on `w`, else no entry. */
  ghost function CountFor(res: map<int, Reservation>, restaurants: map<int, Restaurant>, tables: map<int, TableRow>,
                          hours: map<int, Hours>, rid: int, realId: string, now: int, w: int, n: Numbering): Option<int>
  {
    var days := GroupDays(res, restaurants, tables, hours, rid, realId, now, w, n);
    if days != {} then Some(|DayRows(res, restaurants, tables, hours, rid, realId, now, MaxKey(days), n)|)
    else if OpenOn(hours, rid, w) then Some(0)
    else None
  }

  /** A group only forms on a day the restaurant is open. */
  lemma GroupNeedsOpenDay(res: map<int, Reservation>, restaurants: map<int, Restaurant>, tables: map<int, TableRow>,
                          hours: map<int, Hours>, rid: int, realId: string, now: int, w: int, n: Numbering)
    ensures GroupDays(res, restaurants, tables, hours, rid, realId, now, w, n) != {} ==> OpenOn(hours, rid, w)
  {
    var days := GroupDays(res, restaurants, tables, hours, rid, realId, now, w, n);
    if days != {} {
      var d := MaxKey(days);
      var m :| m in res && Coming(res[m], restaurants, tables, rid, realId, now)
        && DayNumber(DayOf(res[m].date), n) == w
        && DayRows(res, restaurants, tables, hours, rid, realId, now, DayOf(res[m].date), n) != {}
        && DayOf(res[m].date) == d;
      var rows := DayRows(res, restaurants, tables, hours, rid, realId, now, d, n);
      var p :| p in rows;
      assert OpenRow(hours, p.1, rid, w);
    }
  }

  /** Every weekday the restaurant is open on has an entry, and no other
      weekday has one; a positive count always comes from a group. */
  lemma CountsCoverOpenDays(res: map<int, Reservation>, restaurants: map<int, Restaurant>, tables: map<int, TableRow>,
                            hours: map<int, Hours>, rid: int, realId: string, now: int, w: int, n: Numbering)
    ensures CountFor(res, restaurants, tables, hours, rid, realId, now, w, n).Some? <==> OpenOn(hours, rid, w)
    ensures GroupDays(res, restaurants, tables, hours, rid, realId, now, w, n) == {} && OpenOn(hours, rid, w) ==>
      CountFor(res, restaurants, tables, hours, rid, realId, now, w, n) == Some(0)
  {
    GroupNeedsOpenDay(res, restaurants, tables, hours, rid, realId, now, w, n);
  }

  /** With weekdays numbered the same way on both sides, a positive count under
      `w` means a coming reservation falls on a weekday `w`. */
  lemma MondayFirstCountsAreOnTheirDay(res: map<int, Reservation>, restaurants: map<int, Restaurant>,
                                       tables: map<int, TableRow>, hours: map<int, Hours>, rid: int,
                                       realId: string, now: int, w: int, c: int)
    requires CountFor(res, restaurants, tables, hours, rid, realId, now, w, MondayFirst) == Some(c) && c > 0
    ensures exists m :: m in res && Coming(res[m], restaurants, tables, rid, realId, now) && Weekday(DayOf(res[m].date)) == w
  {
    var days := GroupDays(res, restaurants, tables, hours, rid, realId, now, w, MondayFirst);
    if days == {} {
      assert false;
    } else {
      var d := MaxKey(days);
      var m :| m in res && Coming(res[m], restaurants, tables, rid, realId, now)
        && DayNumber(DayOf(res[m].date), MondayFirst) == w
        && DayRows(res, restaurants, tables, hours, rid, realId, now, DayOf(res[m].date), MondayFirst) != {}
        && DayOf(res[m].date) == d;
    }
  }

  /** The count query as written: a single reservation on a Monday, in a
      restaurant open every day, is counted under Tuesday, and Monday shows 0. */
  lemma MondayCountedAsTuesday()
    ensures var restaurants := map[1 := Restaurant("R", 60, 15)];
            var tables := map[1 := TableRow(1, Geometry.Table("A", 0, 0, 1, 1, 1, 0, 0, 0))];
            var hours := map w | 0 <= w < 7 :: Hours(1, w, Some(600), Some(1200), false, false);
            var res := map[1 := Reservation(None, 1, Some(1), 600, Accepted, 2, map[], "", false)];
            CountFor(res, restaurants, tables, hours, 1, "A", 0, 1, SundayFirst) == Some(1)
            && CountFor(res, restaurants, tables, hours, 1, "A", 0, 0, SundayFirst) == Some(0)
  {
    var restaurants := map[1 := Restaurant("R", 60, 15)];
    var tables := map[1 := TableRow(1, Geometry.Table("A", 0, 0, 1, 1, 1, 0, 0, 0))];
    var hours := map w | 0 <= w < 7 :: Hours(1, w, Some(600), Some(1200), false, false);
    var res := map[1 := Reservation(None, 1, Some(1), 600, Accepted, 2, map[], "", false)];
    assert Coming(res[1], restaurants, tables, 1, "A", 0);
    assert DayNumber(0, SundayFirst) == 1;
    var rows := DayRows(res, restaurants, tables, hours, 1, "A", 0, 0, SundayFirst);
    assert (1, 1) in rows;
    forall p | p in rows
      ensures p == (1, 1)
    {
    }
    assert rows == {(1, 1)};
    var tue := GroupDays(res, restaurants, tables, hours, 1, "A", 0, 1, SundayFirst);
    assert 0 in tue;
    assert tue == {0};
    var mon := GroupDays(res, restaurants, tables, hours, 1, "A", 0, 0, SundayFirst);
    assert mon == {};
    assert OpenRow(hours, 0, 1, 0);
  }

  /** The offset of weekday `w` after weekday `today`, cycling through the week. */
  function Offset(w: int, today: int): (o: int)
    ensures 0 <= o < 7
  {
    (w - today) % 7
  }

  /** Computes the count stored under key `w` (see `CountFor`). */
  method CountForDay(db: Session, rid: int, realId: string, now: int, w: int) returns (c: Option<int>)
    ensures c == CountFor(db.reservations, db.restaurants, db.tables, db.hours, rid, realId, now, w, SundayFirst)
  {
    var days := GroupDays(db.reservations, db.restaurants, db.tables, db.hours, rid, realId, now, w, SundayFirst);
    if days != {} {
      var latest := FindMax(days);
      c := Some(|DayRows(db.reservations, db.restaurants, db.tables, db.hours, rid, realId, now, latest, SundayFirst)|);
    } else if exists h | h in db.hours :: OpenRow(db.hours, h, rid, w) {
      c := Some(0);
    } else {
      c := None;
    }
  }

  /** The weekday reached after `i` steps from `today` lies `i` steps on. */
  lemma OffsetOfStep(today: int, i: int)
    requires 0 <= today < 7 && 0 <= i < 7
    ensures Offset(if today + i < 7 then today + i else today + i - 7, today) == i
  {
  }

  /** Different weekdays lie at different offsets. */
  lemma OffsetInjective(v: int, w: int, today: int)
    requires 0 <= v < 7 && 0 <= w < 7 && Offset(v, today) == Offset(w, today)
    ensures v == w
  {
  }

  /** After the turns for the first `i` weekdays from `today`, `r` lists the
      entries of exactly those weekdays, in that order. */
  ghost predicate ArrangedUpTo(counts: seq<Option<int>>, today: int, r: seq<(int, int)>, i: int)
    requires |counts| == 7
  {
    && |r| <= i
    && (forall j :: 0 <= j < |r| ==> 0 <= r[j].0 < 7 && Offset(r[j].0, today) < i && counts[r[j].0] == Some(r[j].1))
    && (forall w :: 0 <= w < 7 && Offset(w, today) < i ==>
          (counts[w].Some? <==> exists j :: 0 <= j < |r| && r[j].0 == w))
    && (forall a, b :: 0 <= a < b < |r| ==> Offset(r[a].0, today) < Offset(r[b].0, today))
  }

  /** One turn of the loop in `Arrange`. */
  lemma ArrangeStep(counts: seq<Option<int>>, today: int, r: seq<(int, int)>, i: int, day: int)
    requires |counts| == 7 && 0 <= today < 7 && 0 <= i < 7
    requires day == if today + i < 7 then today + i else today + i - 7
    requires ArrangedUpTo(counts, today, r, i)
    ensures ArrangedUpTo(counts, today, if counts[day].Some? then r + [(day, counts[day].value)] else r, i + 1)
  {
    OffsetOfStep(today, i);
    var r' := if counts[day].Some? then r + [(day, counts[day].value)] else r;
    forall w | 0 <= w < 7 && Offset(w, today) < i + 1
      ensures counts[w].Some? <==> exists j :: 0 <= j < |r'| && r'[j].0 == w
    {
      if w == day {
        if counts[day].Some? {
          assert r'[|r'| - 1].0 == w;
        }
      } else {
        if Offset(w, today) == i {
          OffsetInjective(w, day, today);
        }
        ListedAfterStep(counts, r, r', day, w);
      }
    }
  }

  /** A weekday other than the one of this turn is listed after the turn
      exactly when it was listed before it. */
  lemma ListedAfterStep(counts: seq<Option<int>>, r: seq<(int, int)>, r': seq<(int, int)>, day: int, w: int)
    requires |counts| == 7 && 0 <= day < 7 && w != day
    requires r' == if counts[day].Some? then r + [(day, counts[day].value)] else r
    ensures (exists j :: 0 <= j < |r| && r[j].0 == w) <==> exists j :: 0 <= j < |r'| && r'[j].0 == w
  {
    if exists j :: 0 <= j < |r'| && r'[j].0 == w {
      var j :| 0 <= j < |r'| && r'[j].0 == w;
      assert j < |r| && r[j].0 == w;
    }
    if exists j :: 0 <= j < |r| && r[j].0 == w {
      var j :| 0 <= j < |r| && r[j].0 == w;
      assert r'[j].0 == w;
    }
  }

  /** Lists the stored counts from weekday `today` round the week once:
      `counts[w]` is the entry under key `w`, if any. */
  method Arrange(counts: seq<Option<int>>, today: int) returns (r: seq<(int, int)>)
    requires |counts| == 7 && 0 <= today < 7
    ensures |r| <= 7
    ensures forall j :: 0 <= j < |r| ==> 0 <= r[j].0 < 7 && counts[r[j].0] == Some(r[j].1)
    ensures forall w :: 0 <= w < 7 ==> (counts[w].Some? <==> exists j :: 0 <= j < |r| && r[j].0 == w)
    ensures forall i, j :: 0 <= i < j < |r| ==> Offset(r[i].0, today) < Offset(r[j].0, today)
  {
    var day := today;
    var i := 0;
    r := [];
    while i < 7
      invariant 0 <= i <= 7 && 0 <= day < 7
      invariant i < 7 ==> day == if today + i < 7 then today + i else today + i - 7
      invariant ArrangedUpTo(counts, today, r, i)
    {
      ArrangeStep(counts, today, r, i, day);
      if counts[day].Some? {
        r := r + [(day, counts[day].value)];
      }
      i := i + 1;
      day := if day == 6 then 0 else day + 1;
    }
  }

  /** `get_restaurant_table_coming_reservations_count`: the (weekday, count)
      entries in the order the reply lists them, starting at today's weekday
      and going round the week once. */
  method ComingReservationsCount(db: Session, rid: int, realId: string, now: int) returns (r: seq<(int, int)>)
    ensures |r| <= 7
    ensures forall j :: 0 <= j < |r| ==>
      (0 <= r[j].0 < 7
       && CountFor(db.reservations, db.restaurants, db.tables, db.hours, rid, realId, now, r[j].0, SundayFirst) == Some(r[j].1))
    ensures forall w :: 0 <= w < 7 ==>
      (CountFor(db.reservations, db.restaurants, db.tables, db.hours, rid, realId, now, w, SundayFirst).Some?
       <==> exists j :: 0 <= j < |r| && r[j].0 == w)
    ensures forall i, j :: 0 <= i < j < |r| ==>
      Offset(r[i].0, Weekday(DayOf(now))) < Offset(r[j].0, Weekday(DayOf(now)))
  {
    var counts: seq<Option<int>> := [];
    while |counts| < 7
      invariant |counts| <= 7
      invariant forall w :: 0 <= w < |counts| ==>
        counts[w] == CountFor(db.reservations, db.restaurants, db.tables, db.hours, rid, realId, now, w, SundayFirst)
    {
      var c := CountForDay(db, rid, realId, now, |counts|);
      counts := counts + [c];
    }
    r := Arrange(counts, Weekday(DayOf(now)));
  }

  // ------------------------------------------------------------- listings

  /** One page of a listing (pages count from 1, `limit` rows each). A page
      number below 1 asks the database for a negative offset, which it
      refuses. */
  function Page<T>(xs: seq<T>, page: int, limit: nat): (r: Reply<seq<T>>)
    ensures page < 1 <==> r == Crash
    ensures r.Ok? ==>
      (|r.value| <= limit
       && forall i :: 0 <= i < |r.value| ==>
            (page - 1) * limit + i < |xs| && r.value[i] == xs[(page - 1) * limit + i])
  {
    if page < 1 then Crash
    else
      var start := (page - 1) * limit;
      var from := if start < |xs| then start else |xs|;
      var to := if start + limit < |xs| then start + limit else |xs|;
      Ok(xs[from..to])
  }

  /** Concatenation of a listing's pages. */
  function PagesUpTo<T>(xs: seq<T>, n: nat, limit: nat): seq<T>
  {
    if n == 0 then [] else PagesUpTo(xs, n - 1, limit) + Page(xs, n, limit).value
  }

  /** The first `n` pages, read in turn, give the listing's first `n * limit`
      rows: pages neither skip nor repeat a row. */
  lemma {:induction false} PagesCoverListing<T>(xs: seq<T>, n: nat, limit: nat)
    ensures PagesUpTo(xs, n, limit) == xs[..if n * limit < |xs| then n * limit else |xs|]
  {
    if n > 0 {
      PagesCoverListing(xs, n - 1, limit);
      var a := if (n - 1) * limit < |xs| then (n - 1) * limit else |xs|;
      var b := if n * limit < |xs| then n * limit else |xs|;
      assert n * limit == (n - 1) * limit + limit;
      assert xs[..a] + xs[a..b] == xs[..b];
    }
  }

  /** A reservation in the restaurant's current listing: accepted, not ended,
      and starting no later than the start of the sixth day from today. */
  predicate Current(x: Reservation, restaurants: map<int, Restaurant>, rid: int, now: int)
  {
    x.restaurant == rid && NotEnded(x, restaurants, now) && x.status == Accepted
    && x.date <= DayStart(DayOf(now) + 6)
  }

  /** A customer's past reservation: its end is before now. */
  predicate Past(x: Reservation, restaurants: map<int, Restaurant>, user: int, now: int)
  {
    x.user == Some(user) && x.restaurant in restaurants && EndOf(x, restaurants[x.restaurant].lengthMinutes) < now
  }

  /** `listing` holds each of the given reservations once and no other id,
      ordered by date (ascending or descending). */
  predicate ListedByDate(res: map<int, Reservation>, ids: set<int>, listing: seq<int>, ascending: bool)
  {
    (forall i :: 0 <= i < |listing| ==> listing[i] in ids && listing[i] in res)
    && (forall k :: k in ids ==> k in listing)
    && (forall i, j :: 0 <= i < j < |listing| ==> listing[i] != listing[j])
    && (forall i, j :: 0 <= i < j < |listing| ==>
          if ascending then res[listing[i]].date <= res[listing[j]].date
          else res[listing[j]].date <= res[listing[i]].date)
  }

  /** The restaurant's current reservations. */
  function CurrentIds(res: map<int, Reservation>, restaurants: map<int, Restaurant>, rid: int, now: int): set<int>
  {
    set m | m in res && Current(res[m], restaurants, rid, now)
  }

  /** The customer's past reservations. */
  function PastIds(res: map<int, Reservation>, restaurants: map<int, Restaurant>, user: int, now: int): set<int>
  {
    set m | m in res && Past(res[m], restaurants, user, now)
  }

  const CurrentPageSize: nat := 12
  const HistoryPageSize: nat := 8

  /** `get_restaurant_current_reservations` as written: it reads the first row
      of the page before building the reply, so an empty page (no current
      reservations, or a page past the end) is an unhandled error. */
  function CurrentReservationsAsWritten(res: map<int, Reservation>, restaurants: map<int, Restaurant>, rid: int,
                                        now: int, listing: seq<int>, page: int): (r: Reply<seq<int>>)
    requires ListedByDate(res, CurrentIds(res, restaurants, rid, now), listing, true)
    ensures r.Ok? ==> r == Page(listing, page, CurrentPageSize) && r.value != []
    ensures r.Ok? <==> Page(listing, page, CurrentPageSize).Ok? && Page(listing, page, CurrentPageSize).value != []
    ensures page < 1 || (page - 1) * CurrentPageSize >= |listing| ==> r == Crash
  {
    var p := Page(listing, page, CurrentPageSize);
    if p.Ok? && p.value == [] then Crash else p
  }

  /** The listing as evidently intended: an empty page is an empty reply. */
  function CurrentReservations(res: map<int, Reservation>, restaurants: map<int, Restaurant>, rid: int,
                               now: int, listing: seq<int>, page: int): (r: Reply<seq<int>>)
    requires ListedByDate(res, CurrentIds(res, restaurants, rid, now), listing, true)
    ensures page >= 1 ==> r.Ok?
    ensures r.Ok? ==> forall i :: 0 <= i < |r.value| ==>
      r.value[i] in res && Current(res[r.value[i]], restaurants, rid, now)
    ensures r.Ok? ==> forall i, j :: 0 <= i < j < |r.value| ==> res[r.value[i]].date <= res[r.value[j]].date
  {
    Page(listing, page, CurrentPageSize)
  }

  /** A restaurant with no current reservations cannot open the first page of
      its listing. */
  lemma NoCurrentReservationsCrashes(res: map<int, Reservation>, restaurants: map<int, Restaurant>, rid: int, now: int)
    requires CurrentIds(res, restaurants, rid, now) == {}
    ensures CurrentReservationsAsWritten(res, restaurants, rid, now, [], 1) == Crash
    ensures CurrentReservations(res, restaurants, rid, now, [], 1) == Ok([])
  {
  }

  /** `get_current_user_reservations_history`: a page of the customer's past
      reservations, latest first. */
  function ReservationsHistory(res: map<int, Reservation>, restaurants: map<int, Restaurant>, user: int,
                               now: int, listing: seq<int>, page: int): (r: Reply<seq<int>>)
    requires ListedByDate(res, PastIds(res, restaurants, user, now), listing, false)
    ensures page >= 1 ==> r.Ok?
    ensures r.Ok? ==> forall i :: 0 <= i < |r.value| ==>
      r.value[i] in res && Past(res[r.value[i]], restaurants, user, now)
    ensures r.Ok? ==> forall i, j :: 0 <= i < j < |r.value| ==> res[r.value[j]].date <= res[r.value[i]].date
  {
    Page(listing, page, HistoryPageSize)
  }
}
