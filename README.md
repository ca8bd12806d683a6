# Restauratour backend — a Dafny model

Restauratour is the backend of a restaurant-booking service. Owners draw
their dining room as a floor plan, run a menu, set opening hours and
restaurant flags, and manage their waiters' accounts. Customers search for
restaurants, book a table for a time slot, order from the menu during the
visit and call a waiter. Waiters accept or reject pending bookings, seat
walk-in guests and edit orders.

This project models the logic of that backend in Dafny and proves what it
promises:

- the floor-plan geometry and the plan validator;
- the reconciliation of a saved plan with the stored tables, borders and
  reservations;
- the availability queries: free tables for a time, a table free right
  now, and the free quarter-hour slots of a day;
- the reservation life cycle: create, cancel, decide, call a waiter, edit
  the details and the order, weekly counts and paged listings;
- the menu: categories, items, the "move" reorder, price bounds, and the
  patching of open orders when an item changes;
- the restaurant settings: search-option bounds, the settings form
  validator, and reading and writing the flags and opening hours;
- accounts: the password rule, worker status transitions, worker creation
  and restoring, the worker list, and the login, register and activation
  gates;
- the request handlers around reservations, for customers and for waiters.

The database is a `Session` object (module `Store`). It holds one map per
table, keyed by the row's id, and every operation that writes reassigns the
field it changes. Some conventions:

- Time is an integer number of minutes since a Monday 00:00; a
  reservation's length is an integer number of minutes.
- Prices are integer grosze (0,10 zł is 10).
- A new row gets the id one past the largest id in use.
- Where a query has no `ORDER BY`, its `.first()` is taken to return the row
  with the smallest id.
- Where a query's rows are folded into a dictionary, the row with the
  largest id wins.
- The clock (`now`), password hashes, token checks and e-mail delivery are
  parameters of the operations that use them.
- A handler's answer is `Reply`: `Ok(value)`, `Refused(status)` for an HTTP
  error the handler raises, or `Crash` for an unhandled exception (a failed
  index, a `None` dereference, an insert that breaks a unique column).

Modules: `Common` (time, ids, string order), `Geometry`, `Store`,
`PlanValidator`, `PlanStore`, `Availability`, `Reservations`, `Menu`,
`RestaurantSettings`, `Accounts`, `Routes`.

## Model

| member | source | states |
|---|---|---|
| Common.Weekday | models/table.py:417 | `weekday()` numbers the days of the week 0..6 |
| Common.DayStart | models/table.py:426-427 | the first minute of a calendar day falls on that day |
| Common.FindMin | models/table.py:409 | `.first()` of an unordered query: the returned row is in the result and no row has a smaller id |
| Common.FindMax | models/restaurant.py:211 | a dictionary built from a query keeps the row with the largest id: the returned id is in the set and no id is larger |
| Common.NextKey | models/reservation.py:88-90 | the id a new row receives is unused and above every id in use |
| Common.FreshKey | models/reservation.py:88-90 | the scan over the ids in use computes exactly that id |
| Common.TextLessIrreflexive | models/restaurant.py:127 | Python's string order never puts a string before itself |
| Common.TextLessTransitive | models/restaurant.py:127 | Python's string order is transitive |
| Common.TextLessTotal | models/restaurant.py:127 | of two different strings, one comes before the other in Python's string order |
| Geometry.OverlapsSymmetric | models/table.py:27-32 | the overlap test gives the same answer whichever rectangle is asked |
| Geometry.TouchingDoNotOverlap | models/table.py:27-32 | rectangles that only touch along an edge do not overlap |
| Geometry.OverlapsIffSharedCell | models/table.py:27-32 | two proper rectangles overlap exactly when they share a unit cell of the grid |
| Geometry.OverlapsMonotone | models/table.py:27-32 | enlarging two overlapping rectangles keeps them overlapping |
| Geometry.TableRectMargins | models/table.py:63-69 | a table's rectangle reaches exactly `precision` past its footprint on each side with seats and not at all on a side without |
| Geometry.FootprintCollisionDetected | models/table.py:63-69 | with a non-negative precision, tables whose footprints overlap also have overlapping rectangles |
| Geometry.BroadenedExtendsRaw | models/table.py:79-94 | a border's broadened rectangle is its raw rectangle stretched by `precision` at both ends along its length, and contains it |
| Geometry.CornerIsContinuous | models/table.py:87-94 | a horizontal wall and a vertical wall starting where it ends have overlapping broadened rectangles |
| PlanValidator.IsDataValid | models/table.py:102-187 | the set of faults the validator returns is exactly the defined set of faults of the plan |
| PlanValidator.CheckTables | models/table.py:104-164 | the table loop adds the faults of every table |
| PlanValidator.CheckTable | models/table.py:104-164 | one turn of the table loop adds that table's faults |
| PlanValidator.CheckPairs | models/table.py:105-120 | a table against every later table: duplicate real ids and overlapping rectangles |
| PlanValidator.CheckHits | models/table.py:121-128 | a table meeting any border is reported once, and the scan stops at the first such border |
| PlanValidator.CheckBounds | models/table.py:129-164 | a table's coordinate fault and the seat fault of each side that does not fit |
| PlanValidator.CheckBorders | models/table.py:165-178 | the border loop adds its faults and stops at the first border with a negative coordinate |
| PlanValidator.CheckBorder | models/table.py:169-178 | one border: overlaps with later borders and a gap to the previous border |
| PlanValidator.FirstNegativeFrom | models/table.py:165-168 | the index the border loop stops at: no border before it is negative, and the border at it is |
| PlanValidator.NoErrorsIffValid | models/table.py:102-187 | the validator reports no fault exactly when every check holds |
| PlanValidator.TablesPassIff | models/table.py:104-164 | the tables add no fault exactly when real ids are distinct, no two rectangles overlap, no table meets a border, and every table is in bounds |
| PlanValidator.BordersPassIff | models/table.py:165-178 | the borders add no fault exactly when none is negative, no two overlap, and each continues the previous one |
| PlanValidator.BoundsErrorsEmptyIff | models/table.py:129-164 | a table passes its own checks exactly when its coordinates are non-negative and each side's chairs fit along it |
| PlanValidator.DuplicateIdReported | models/table.py:106-110 | two tables with the same real id are reported |
| PlanValidator.TablesOverlapReported | models/table.py:111-120 | two tables with overlapping rectangles are reported, the earlier one named first |
| PlanValidator.TableHitsBorderReported | models/table.py:121-128 | a table meeting any border's raw rectangle is reported |
| PlanValidator.TableBoundsReported | models/table.py:129-164 | a negative coordinate and each side whose chairs do not fit are reported with their own message |
| PlanValidator.BordersOverlapReportedIff | models/table.py:165-173 | overlapping borders are reported exactly when the first of the pair comes before the first negative border |
| PlanValidator.BordersCoordinatesReportedIff | models/table.py:165-178 | the border coordinate message appears exactly when some border is negative or some border before the first negative one does not continue its predecessor |
| PlanValidator.BorderFaultsOnlyFromBorders | models/table.py:165-186 | border faults in the final set come from the border loop alone |
| PlanValidator.OutlineAndPrecisionReportedIff | models/table.py:179-186 | "not closed" is reported exactly when there are more than two borders and the last does not meet the first; the precision fault exactly when the precision is outside [15, 50] |
| PlanValidator.TableFaultsAreAboutTables | models/table.py:104-164 | the table loop reports only table faults |
| PlanValidator.Messages | owners/routes.py:265 | every fault's message is in the answer |
| PlanValidator.MessagesEmptyIff | owners/routes.py:254 | the answer has no message exactly when no fault was found |
| PlanStore.UpdateBorders | models/table.py:247-260 | the new border rows are the restaurant's old rows removed, then the submitted borders under fresh consecutive ids |
| PlanStore.ReplacedBordersAreSubmitted | models/table.py:247-260 | afterwards the restaurant's borders, in id order, are exactly the submitted ones, and other restaurants' borders are untouched |
| PlanStore.BuildTableDict | models/table.py:267-270 | the dictionary maps every real id of the restaurant to the last of its rows |
| PlanStore.TableDictOfIsTableDict | models/table.py:270 | the defined dictionary is the one the fold builds |
| PlanStore.TableDictDetermined | models/table.py:270 | the fold's dictionary is determined by the rows |
| PlanStore.UniqueTableDict | models/table.py:270 | with unique real ids every row of the restaurant is its real id's entry |
| PlanStore.UpdateTables | models/table.py:263-320 | the new table rows and reservations are the reconciled rows and the settled reservations |
| PlanStore.RemoveTable | models/table.py:277-319 | deleting one leftover table settles its reservations |
| PlanStore.ReconciledRowsAreSubmitted | models/table.py:263-320 | with unique stored real ids, afterwards the restaurant's rows are exactly the submitted tables, and its real ids are the submitted ones |
| PlanStore.MatchedRowsKeepTheirId | models/table.py:271-282 | with distinct submitted real ids, a submitted table whose real id is stored overwrites that row under the same id |
| PlanStore.ReconciledKeepsOtherRestaurants | models/table.py:263-320 | other restaurants' table rows are untouched |
| PlanStore.DetachLeavesNoDangling | models/table.py:291-319 | after deleting tables no reservation of the restaurant refers to them: ended ones stay with the table cleared, the others are deleted, and every other reservation is untouched |
| PlanStore.DetachNothing | models/table.py:291-319 | deleting no table changes no reservation |
| PlanStore.DetachTwice | models/table.py:291-319 | deleting tables one after the other settles reservations as deleting them together does |
| PlanStore.UpdatePrecision | models/restaurant.py:276-280 | only the restaurant's precision changes |
| PlanStore.SavePrecision | owners/routes.py:234-245 | a precision outside [15, 50] is refused with 400 and nothing changes; otherwise it is stored |
| PlanStore.SavePlannerInfo | owners/routes.py:248-265 | the plan is saved exactly when it is valid; a refused plan answers 400 with its messages and writes nothing; a saved plan writes the submitted precision to the restaurant, reconciles the tables with the submitted ones (their real ids are the submitted ones), detaches the reservations of tables that leave the plan, and replaces the restaurant's borders with the submitted ones under fresh ids |
| Availability.FreeTablesForTime | models/table.py:323-370 | an unknown restaurant crashes; every offered table is one of the restaurant's and suits the request |
| Availability.FreeTablesIff | models/table.py:336-370 | a table is offered exactly when it is the restaurant's, seats the guests, has the requested real id, and no non-rejected reservation on it starts strictly inside the window |
| Availability.MoreGuestsFewerTables | models/table.py:342-346 | asking for more guests never offers more tables |
| Availability.RejectingFreesTables | models/table.py:365 | rejecting a reservation can only free tables |
| Availability.SameStartIsNotSeen | models/table.py:363 | a pending reservation starting at the very instant asked for does not stop its table from being offered |
| Availability.FreeTablesOverlapping | models/table.py:323-370 | the corrected query: an unknown restaurant crashes, and reservations whose time overlaps the window block the table |
| Availability.OverlappingQueryPreventsDoubleBooking | models/table.py:361-366 | with the corrected query, a table offered for a time never has a live reservation overlapping the new one |
| Availability.OverlappingQueryIsStricter | models/table.py:361-366 | the corrected query offers no table the query as written refuses |
| Availability.IsTableFreeNow | models/table.py:372-409 | an unknown restaurant crashes; otherwise the answer is the first table with the real id that no accepted reservation holds within the next reservation length, or none exactly when there is no such table |
| Availability.BookableNowIsFreeNow | models/table.py:402-404 | a table the booking query offers for now is also free now |
| Availability.PendingDoesNotStopWalkIn | models/table.py:404 | a pending reservation starting in the next minute does not stop a walk-in |
| Availability.QuarterFloor | models/table.py:426-427 | an opening or closing time is floored to a quarter hour at most 14 minutes earlier |
| Availability.FreeTimeslotsForDay | models/table.py:411-446 | a missing or closed day gives no slot; missing times or restaurant crash; otherwise the slots are increasing, 15 minutes apart from the floored opening time up to the floored closing time, and a slot is offered exactly when fewer reservations meet it than there are suitable tables |
| Availability.CollectSlots | models/table.py:441-446 | the slot loop keeps exactly the open quarter hours, in increasing order |
| Availability.OpenQuartersFacts | models/table.py:441-446 | the open quarter hours from a given start are increasing, lie on the quarter-hour grid inside the window, include every open quarter hour there, and are none when no table fits the party |
| Availability.TouchingReservationCounts | models/table.py:443 | the count uses closed intervals: a reservation starting exactly when the slot's stay ends is counted |
| Availability.OpenSlotLeavesATable | models/table.py:443-444 | an offered slot leaves a suitable table that no reservation meeting the slot holds |
| Reservations.NewBooking | models/reservation.py:79-87 | a customer's new reservation is pending, with an empty order, for the given table, time and guests |
| Reservations.CreateReservation | models/reservation.py:78-91 | the new reservation is stored under a fresh id and nothing else changes |
| Reservations.WalkIn | models/reservation.py:94-103 | a waiter's reservation is accepted, for one guest, without a user, starting now, with the waiter's note |
| Reservations.CreateWaiterReservation | models/reservation.py:93-107 | the walk-in is stored under a fresh id and nothing else changes |
| Reservations.CancelReservation | models/reservation.py:110-125 | only the customer's own, not rejected, not yet started reservation is deleted; otherwise false and nothing changes |
| Reservations.NewBookingCancellable | models/reservation.py:110-125 | a fresh booking can be cancelled by its customer exactly until it starts, and by nobody else |
| Reservations.ToggleNeedsService | models/reservation.py:128-152 | the flag flips only for the customer's own accepted reservation under way; otherwise nothing changes |
| Reservations.ToggleTwiceRestores | models/reservation.py:147-151 | a toggle flips only that flag, and a second toggle restores every reservation |
| Reservations.UpdatePendingReservationStatus | models/reservation.py:406-429 | only a pending, not ended reservation of the restaurant is decided, to accepted or rejected by the flag; otherwise false and nothing changes |
| Reservations.DecisionIsFinal | models/reservation.py:406-429 | a decided reservation can never be decided again |
| Reservations.WalkInNeedsNoDecision | models/reservation.py:98 | a walk-in is never waiting for a decision |
| Reservations.UpdateReservationAdditionalDetails | models/reservation.py:483-506 | only the customer's own accepted, not ended reservation with details shorter than 240 characters is changed |
| Reservations.GetReservation | models/reservation.py:202-219 | a reservation is found exactly when it is not rejected, not ended and, when a user is given, the user's |
| Reservations.UpdateReservationOrder | models/reservation.py:155-200 | on an editable reservation the update is accepted exactly when every requested item is on a menu and passes the line rules, and then the order becomes the request; a missing reservation crashes unless the first item is refused first; a refusal changes nothing |
| Reservations.NewOrderIsTheRequest | models/reservation.py:187-197 | the new order holds exactly the requested items, each with its requested count, the item's name and the price of that count |
| Reservations.ResubmitIsAccepted | models/reservation.py:188-197 | submitting the same order again, with the menu unchanged, is accepted |
| Reservations.UnavailableCountsKept | models/reservation.py:192-195 | an accepted update adds only available items and never changes the count of an unavailable one |
| Reservations.DayNumber | models/reservation.py:276-284 | a weekday number is in 0..6 in either numbering |
| Reservations.CountForDay | models/reservation.py:273-304 | the count stored under a weekday is the defined count of the query as written |
| Reservations.GroupNeedsOpenDay | models/reservation.py:279-284 | a day's group only forms when the restaurant is open on that weekday number |
| Reservations.CountsCoverOpenDays | models/reservation.py:300-304 | every weekday the restaurant is open on has an entry, 0 when it has no reservation, and no other weekday has one |
| Reservations.MondayCountedAsTuesday | models/reservation.py:276-284 | as written, a Monday reservation is counted under Tuesday and Monday shows 0 |
| Reservations.MondayFirstCountsAreOnTheirDay | models/reservation.py:276-284 | with both sides numbered from Monday, a positive count under a weekday comes from a reservation on that weekday |
| Reservations.Offset | models/reservation.py:306-311 | the distance from today's weekday, round the week, is in 0..6 |
| Reservations.OffsetOfStep | models/reservation.py:311 | the weekday reached after i steps from today lies i steps on |
| Reservations.OffsetInjective | models/reservation.py:306-311 | different weekdays lie at different distances from today |
| Reservations.Arrange | models/reservation.py:305-312 | the entries are listed starting at today's weekday, going round the week once, each present weekday exactly once |
| Reservations.ComingReservationsCount | models/reservation.py:273-312 | each entry is a weekday with its stored count, every open weekday appears, and the weekdays come in order from today |
| Reservations.Page | models/reservation.py:340-341 | a page from 1 on is the listing's slice starting at (page-1)·limit, at most limit rows; a page below 1 fails |
| Reservations.PagesCoverListing | models/reservation.py:340-341 | the first n pages read in turn give the listing's first n·limit rows, with no row skipped or repeated |
| Reservations.CurrentReservationsAsWritten | models/reservation.py:339-369 | a page is answered exactly when the slice of the current listing is a non-empty page; a page number below 1 or past the end is an unhandled error |
| Reservations.NoCurrentReservationsCrashes | models/reservation.py:360 | as written, a restaurant without current reservations cannot open page 1; the corrected listing answers an empty page |
| Reservations.CurrentReservations | models/reservation.py:339-369 | every listed reservation is the restaurant's accepted, not ended one within six days, in date order |
| Reservations.ReservationsHistory | models/reservation.py:454-481 | every listed reservation is the customer's and has ended, latest first |
| Menu.NextOrder | models/menu.py:170-174 | the new order value is above every value in use, 1 when there is none, else one past the largest |
| Menu.FindNextOrder | models/menu.py:165-174 | computes that value |
| Menu.NatToString | models/menu.py:172 | `str(n)` is a non-empty string of digits |
| Menu.AddNewCategory | models/menu.py:160-178 | a visible category named after the new count of categories is added under a fresh id, after the others |
| Menu.NewCategoryGoesLast | models/menu.py:160-178 | the new category's order is above every category of its restaurant, and 1 for the first one |
| Menu.ItemsOutside | models/menu.py:190-199 | deleting a category's items keeps exactly the other items |
| Menu.DeleteRestaurantCategory | models/menu.py:181-201 | only one of the restaurant's categories is removed, together with its items; otherwise false and nothing changes |
| Menu.UpdateCategoryVisibility | models/menu.py:204-217 | only one of the restaurant's categories changes visibility |
| Menu.FlipTwiceRestores | models/menu.py:213-216 | one switch flips only the visibility; two switches restore every category |
| Menu.Moved | models/menu.py:220-259 | the move applies exactly when both entries are present and different, and keeps the same entries |
| Menu.MoveRule | models/menu.py:241-258 | the first entry takes the second's order value, the second and every entry strictly between shift one step toward the first's old value, every other entry stays |
| Menu.MoveKeepsOrderValues | models/menu.py:241-258 | with consecutive order values the move keeps the values distinct and the same set of values |
| Menu.MoveOrders | models/menu.py:241-258 | the loop computes the move |
| Menu.UpdateCategoriesOrders | models/menu.py:220-259 | the restaurant's categories are reordered by the move when both are found; otherwise false and nothing changes |
| Menu.UpdateCategoryName | models/menu.py:262-292 | a rename succeeds only for the restaurant's category and a name none of its categories has, its own included |
| Menu.RenameKeepsNamesUnique | models/menu.py:262-292 | renaming to the current name is refused, and an accepted rename keeps the names unique |
| Menu.CreateMenuItem | models/menu.py:295-322 | an item is added only to the restaurant's category with a price in [0,10 zł, 9999,99 zł], under a fresh id, with an order above every item of every restaurant |
| Menu.Edited | models/menu.py:345-349 | an update rewrites name, description, price, status and photo, and keeps category and order |
| Menu.UpdateMenuItem | models/menu.py:325-374 | an item found by id, order and category with a price in bounds is rewritten and every open order holding it is patched; otherwise nothing changes |
| Menu.PatchOpenOrders | models/menu.py:350-372 | the loop over the open accepted orders holding the item ends with exactly the patched reservations whose rule `PatchRule` states: renamed and repriced line, or no line when the item became inactive, every other reservation as it was |
| Menu.PatchRule | models/menu.py:350-372 | patching touches only the item's line of open orders: the line keeps its count and takes the new name and price, or is removed when the item became inactive |
| Menu.UpdateItemsOrders | models/menu.py:377-418 | the category's items are reordered by the move when both are found; otherwise false and nothing changes |
| Menu.DeleteRestaurantItem | models/menu.py:421-432 | as written, any item whose category exists is deleted, whichever restaurant owns it |
| Menu.ForeignItemDeletable | models/menu.py:424 | as written, an owner can delete another restaurant's item |
| Menu.DeleteOwnRestaurantItem | models/menu.py:421-432 | corrected: only the restaurant's own item is deleted, and every other item stays |
| Menu.UpdateItem | owners/routes.py:460-472 | an id or order of -1 creates an item, anything else updates one; a refusal answers 400 and changes nothing |
| RestaurantSettings.SearchValid | models/restaurant.py:29-47 | search options are valid exactly when name, days, coordinates, times, guests and distance are within their bounds |
| RestaurantSettings.PhoneValid | models/restaurant.py:87-93 | an accepted phone number has at least 5 characters and starts with '+' |
| RestaurantSettings.InsertById | models/restaurant.py:98 | inserting a choice into an id-sorted list keeps it sorted, adds exactly that choice, and puts it before the choices with the same id |
| RestaurantSettings.SortById | models/restaurant.py:98 | sorting the flags by id gives the same choices in increasing id order, and, as `list.sort` is stable, the choices for one flag keep their submitted order |
| RestaurantSettings.SortKeepsSorted | models/restaurant.py:98 | flags submitted in id order are left exactly as submitted |
| RestaurantSettings.RepeatedIdKeepsSubmittedOrder | models/restaurant.py:98-102 | two choices for flag 1, off then on, stay in that order, so a form whose third choice is on is refused for the unset first one |
| RestaurantSettings.FlagsCheck | models/restaurant.py:99-108 | the flag rules pass exactly when there are four flags, flag 2 on needs flag 0 on, and flag 3 on needs flag 0, 1 or 2 on; one to three flags crash on the indexing unless a rule refuses first |
| RestaurantSettings.InfoCheck | models/restaurant.py:86-129 | as written: a form is accepted exactly when its phone, e-mail, sorted flags and seven days pass and its first listed day is a weekday, open, with a time; it crashes exactly when the flag rules index a missing choice |
| RestaurantSettings.FirstDayDecides | models/restaurant.py:109-128 | as written, the opening hours pass exactly when there are none or the first listed day is a weekday, open, with at least one time |
| RestaurantSettings.ClosedFirstDayRejected | models/restaurant.py:115-128 | as written, a closed day listed first always fails, whatever its day number |
| RestaurantSettings.OpenFirstDayAcceptsAnything | models/restaurant.py:119-120 | as written, an open first day with a weekday number and a time ends the checks whatever the other days hold |
| RestaurantSettings.ClosedMondayRejected | models/restaurant.py:109-128 | as written, a week closed on Monday is refused and a week numbering a day 9 is accepted; the corrected check answers the other way round |
| RestaurantSettings.InfoCheckAllDays | models/restaurant.py:86-129 | corrected: a form is accepted exactly when its phone, e-mail, sorted flags and seven days pass and every day is accepted on its own; it crashes exactly when the flag rules index a missing choice |
| RestaurantSettings.AllDaysCheckIff | models/restaurant.py:111-128 | with every day checked, the hours pass exactly when every day is numbered 0..6, has times exactly when open, and open days have well-formed times with opening before closing |
| RestaurantSettings.DigitChar | models/restaurant.py:242 | a digit character is '0' plus its value |
| RestaurantSettings.ClockText | models/restaurant.py:242 | `strftime("%H:%M")` gives five characters |
| RestaurantSettings.DigitRoundTrip | models/restaurant.py:242 | a digit reads back as its value |
| RestaurantSettings.ClockTextRoundTrip | models/restaurant.py:122 | a stored time, shown as "HH:MM" the way the settings page formats it, passes the form's pattern and reads back as the same time |
| RestaurantSettings.TextLessOfClockTexts | models/restaurant.py:127 | the string order of two "HH:MM" texts is decided by their first differing digit |
| RestaurantSettings.ClockTextOrder | models/restaurant.py:127 | the form's string comparison of two shown times is their order in the day |
| RestaurantSettings.LastSetting | models/restaurant.py:211 | the restaurant's value of a flag is that of its last setting row |
| RestaurantSettings.SettingAdded | models/restaurant.py:221-225 | a row added above all keys becomes its flag's value and changes no other flag |
| RestaurantSettings.SettingChanged | models/restaurant.py:312 | changing a flag's last row changes that flag's value only |
| RestaurantSettings.ReadFlag | models/restaurant.py:213-225 | one flag is shown with its stored value or true, and a missing row is added switched on |
| RestaurantSettings.SortedKeys | models/restaurant.py:205 | the flags are read in increasing id order, each once |
| RestaurantSettings.FlagsView | models/restaurant.py:212-225 | every flag is shown once, in id order, with its stored value or true, and the new rows store what is shown |
| RestaurantSettings.GetRestaurantFlags | models/restaurant.py:204-228 | every flag is shown with its stored value or true; the missing rows are stored, switched on, only when some are missing; old rows are kept |
| RestaurantSettings.LastHours | models/restaurant.py:235 | a weekday's row is the last of the restaurant's rows for it |
| RestaurantSettings.HoursAdded | models/restaurant.py:256-264 | a row added above all keys becomes its weekday's row and changes no other weekday |
| RestaurantSettings.HoursView | models/restaurant.py:237-270 | seven days are shown, each as its stored row or as closed without times, and afterwards every day has a row showing the same |
| RestaurantSettings.GetRestaurantHours | models/restaurant.py:231-273 | seven days, Monday first, each shown from its stored row or as closed; the missing days are stored, closed, only when some are missing; old rows are kept |
| RestaurantSettings.FullWeekIsStored | models/restaurant.py:271-272 | a restaurant with rows for all seven weekdays has a row for each, so nothing is stored |
| RestaurantSettings.ChosenValue | models/restaurant.py:310-317 | a flag's submitted value is absent exactly when no choice names it, and is otherwise one of its choices |
| RestaurantSettings.WriteFlag | models/restaurant.py:311-317 | one choice sets its flag's value, updating the stored row or adding one, and no other flag changes |
| RestaurantSettings.WriteFlags | models/restaurant.py:310-317 | every chosen flag takes its last chosen value, every other flag keeps its value, and other restaurants' rows are untouched |
| RestaurantSettings.UpdateRestaurantFlags | models/restaurant.py:301-318 | a choice for a flag that does not exist and has no row yet makes the commit fail, an unhandled error with nothing written; otherwise the stored flag values are the chosen values over the old ones; other restaurants' rows are untouched either way |
| RestaurantSettings.WriteHours | models/restaurant.py:330-357 | the loop applies each submitted day to the rows the query found |
| RestaurantSettings.UpdateRestaurantOpeningHours | models/restaurant.py:321-358 | as written, each submitted day updates the last row for that weekday among all restaurants' rows when the restaurant has a setting row, and otherwise adds a row for the restaurant |
| RestaurantSettings.CrossJoinOverwritesForeignHours | models/restaurant.py:324-327 | as written, saving restaurant 2's Monday overwrites restaurant 1's Monday row and gives restaurant 2 none; corrected, restaurant 2 gets its own row |
| RestaurantSettings.WriteOwnHours | models/restaurant.py:330-357 | the loop of the corrected update |
| RestaurantSettings.UpdateOwnOpeningHours | models/restaurant.py:321-358 | corrected: the update looks only at the restaurant's own rows |
| RestaurantSettings.OwnDayWritten | models/restaurant.py:331-357 | one submitted day becomes that weekday's row and no other weekday or restaurant changes |
| RestaurantSettings.OwnHoursWritten | models/restaurant.py:321-358 | corrected: every submitted day reads back as submitted, every other day keeps its row, and other restaurants' rows are untouched |
| Accounts.Search | models/user.py:103-110 | a class search succeeds exactly when some character of the password is in the class |
| Accounts.PasswordValid | models/user.py:102-113 | a password is accepted exactly when it has a special character, a digit, a lower-case and an upper-case letter and at least 8 characters |
| Accounts.PasswordExamples | models/user.py:102-113 | "Kelner1!" is accepted and a 5-character password is refused |
| Accounts.NewWorker | models/user.py:136-147 | a new waiter's account: of the given restaurant, with the given address and names, not yet activated, with an empty password |
| Accounts.Restored | models/user.py:150-157 | a restored account keeps its address, restaurant and type, takes the new names, and is disabled with an empty password |
| Accounts.NewUser | models/user.py:130-135 | a registered customer is disabled until activation and holds the password hash |
| Accounts.SocialUser | models/user.py:123-128 | a customer signing in through a social account is active at once and has no password |
| Accounts.RestoredIsLikeNew | models/user.py:150-157 | a restored waiter's account is a new waiter's account of its old restaurant: disabled, empty password, new names, same e-mail |
| Accounts.FindWorker | models/user.py:119-121 | the found worker has the address and type |
| Accounts.FindUser | models/user.py:119-121 | the found customer has the address and type |
| Accounts.Transition | owners/routes.py:142-197 | remove works from any status but deleted, enable only from blocked to active, disable only from active to blocked |
| Accounts.OwnerActionsRoundTrip | owners/routes.py:157-197 | enabling undoes disabling and back; a deleted account stays deleted; no action makes an account disabled |
| Accounts.ChangeWorkerStatus | owners/routes.py:142-197 | a missing waiter crashes, another restaurant's is refused with 401, a refused transition with 400; otherwise only the status changes |
| Accounts.ResendWorkerActivationLink | owners/routes.py:106-130 | another restaurant's waiter is refused with 401, a deleted or blocked one with 400; an active waiter gets a reset mail and a disabled one an activation mail |
| Accounts.FirstWorkerAfterInsert | models/user.py:137-148 | after inserting the only account with an address, the lookup finds it |
| Accounts.FirstWorkerAfterChange | models/user.py:150-157 | changing a row in place keeps the lookup's answer |
| Accounts.CreateWorker | owners/routes.py:76-102 | an address of a live waiter is refused; a deleted waiter is restored; otherwise a new waiter is inserted; an address held by another account type crashes the insert; once stored, the looked-up account is disabled with an empty password and the new names; a failed mail is an unhandled exception (500) after the account is stored, so the 400 reply is never given |
| Accounts.CollatedIrreflexive | models/user.py:164 | under any collation, no surname sorts before itself |
| Accounts.CollatedTransitive | models/user.py:164 | under any collation, the surname order is transitive |
| Accounts.CollatedTotal | models/user.py:164 | under any collation, of two different surnames one sorts before the other |
| Accounts.CodePointCollation | models/user.py:164 | the "C" collation orders surnames as Python compares strings |
| Accounts.FirstListed | models/user.py:164 | the first of a set of waiters in list order (surname in the database's collation, then id) comes before every other |
| Accounts.RestaurantWorkers | models/user.py:159-164 | the list holds exactly the restaurant's non-deleted waiters, each once, ordered by surname in the database's collation, whatever that collation is |
| Accounts.UpdatePassword | security/login.py:133-164 | a weak or unconfirmed password, an unknown waiter, a status other than disabled or active, or a bad key is refused with 400; otherwise the password is set and the account becomes active |
| Accounts.Register | security/login.py:168-191 | a weak or unconfirmed password or a short name is refused; an account with a password is refused; a password-less account gets the password; otherwise a disabled account with the hash is created |
| Accounts.ActivateAccount | security/login.py:195-213 | only a disabled customer account with a valid token becomes active; otherwise 400 and nothing changes |
| Accounts.SocialLogin | security/login.py:117-119 | a known customer logs in as is; otherwise an active password-less account is created, which crashes when the address is taken by another account type |
| Routes.SearchGate | users/routes.py:58-65 | invalid search options are refused with 400 before any search |
| Routes.DateAvailableTimes | users/routes.py:141-152 | a day before today is refused with 400; otherwise no slots on a day without hours or a closed day, a crash exactly when the restaurant or an opening time is missing, and else exactly the open quarter hours between the rounded opening and closing times, increasing and not before today |
| Routes.AvailableTablesForTime | users/routes.py:155-167 | a day before today is refused with 400; otherwise the real ids of exactly the offered tables |
| Routes.ReserveTable | users/routes.py:170-186 | a day before today is refused; when tables are offered the first of them is booked, pending, under a fresh id; when none is offered, 400 and nothing is stored |
| Routes.NotifyService | users/routes.py:203-215 | the answer is the flag's new value, the opposite of the old one; a refused toggle answers 400 and changes nothing |
| Routes.OrderItems | users/routes.py:260-289 | a reservation the caller may not see is refused with 400: a customer sees their own, a waiter only their restaurant's; a restaurant without a visible category crashes; otherwise the order's items with their counts |
| Routes.OrderShownAsRequested | users/routes.py:278 | after an accepted update, the order page shows exactly the requested items and counts |
| Routes.UpdateOrder | workers/routes.py:148-163 | a refused update answers 400 and changes nothing; a waiter's update needs a visible reservation of their restaurant; a visible pending one passes that check and crashes in the update; a visible accepted, not ended reservation with an allowed order is updated and answers true; a customer's update of a reservation that is not theirs or not open is refused when its first item is off the menu and crashes otherwise |
| Routes.DecideReservation | workers/routes.py:76-89 | true exactly when the decision was taken; otherwise 400 |
| Routes.WalkInReservation | workers/routes.py:165-177 | the first table free now gets an accepted walk-in under a fresh id; none free answers 400 and stores nothing |
| Routes.RestaurantInfo | users/routes.py:68-81 | an unknown restaurant is refused with 400; otherwise its seven days of hours and its flags in id order as read; missing day rows are added closed and missing flag settings are added on, for this restaurant only, and existing rows are kept |

## Left out

- Persistence: sessions, commits, joins and migrations are replaced by the
  maps of `Session`. Each handler runs to completion before the next, so
  races (two bookings of one table between the read and the insert in
  `reserve_table`) and partial commits are not modelled.
- Foreign keys: the maps do not enforce that a reservation's table or an
  item's category exists; operations that depend on it test for it. A flag
  setting inserted for an unknown flag in `UpdateRestaurantFlags` fails at
  the commit, and is modelled that way.
- Floating point: reservation lengths are integer minutes, prices integer
  grosze, coordinates `real`. The "{:.2f} zł" price text is an integer
  total price.
- Search by distance (`get_restaurants_by_search`, haversine over floats)
  is not modelled; only its option gate is.
- The e-mail syntax check is a library call; it is the `emailValid`
  parameter of the settings form.
- Photo upload and removal are calls to an external store, and are not
  modelled. That includes removing an item's old photo in `update_menu_item`.
- Mail delivery, configuration and app wiring are not modelled. Whether a
  mail went out is the `mailSent` parameter of `CreateWorker`, where a
  failed send raises; the other handlers that send mail are modelled as if
  the send succeeds.
- JWT and bcrypt are not modelled. Password hashes are parameters, token
  and key checks are the `keyVerified`/`tokenVerified` parameters, and the
  caller's identity is a parameter of each handler.
- Accounts.UpdatePassword, Accounts.ActivateAccount: an unknown-hash
  exception during verification is folded into the refused key.
- Reservations.UpdateReservationAdditionalDetails: the details column is
  160 characters wide but the check admits up to 239, so a longer text
  would fail at the database. The model stores it.
- The database parses the "HH:MM" strings of the opening hours; the update
  takes the parsed times (`HoursInput`) instead.
- RestaurantSettings.PhoneValid: `str.isdigit` accepts non-ASCII digits.
  The model accepts only '0'..'9', and states the length and '+' rules
  only one way.
- Listings without their own modelled logic are left out:
  `get_restaurant_todays_reservations`, `get_restaurant_pending_reservations`,
  the pending and needing-service counts,
  `does_current_user_have_ongoing_reservations`, `get_current_user_reservations`,
  and the menu listings.
- The menu part of the order-items pages is not modelled; only the
  restaurant, the order projection and the `categories[0]` failure are.
- Routes.ReserveTable and Routes.AvailableTablesForTime use the booking
  query as written, not the corrected one.
- `update_restaurant_contact` and `update_restaurant_reservation_length`,
  which write single columns, are not modelled. Neither is the sequence
  in `save_restaurant_info`.
- Order is not modelled where the source leaves it unspecified. A query
  without `ORDER BY` answers rows by increasing id. Waiters with equal
  surnames are listed by id. The order `tableDict` iterates in is by id.
- Accounts.RestaurantWorkers: the database's collation is the `key`
  parameter, a sort-key function with ties broken by code point, as a
  deterministic collation compares; which collation the database uses is
  configuration and is not modelled.
- Reservations.Page: a page below 1 is modelled as a failure. The source
  slices with a negative start, which the database would reject.

## Findings

| source | as written | input that shows it | evidently intended | confidence | as-written member | corrected member |
|---|---|---|---|---|---|---|
| models/table.py:363 | a reservation blocks a table only when it starts strictly after the requested time | a pending reservation at 18:00 and a new request for 18:00 on the same table: the table is offered again | a reservation overlapping the requested stay blocks the table | high, not executed | Availability.SameStartIsNotSeen | Availability.OverlappingQueryPreventsDoubleBooking |
| models/reservation.py:360 | `print(reservationsDB[0].id)` before building the reply | a restaurant with no current reservation, page 1: index error | an empty page is an empty list | high, not executed | Reservations.NoCurrentReservationsCrashes | Reservations.CurrentReservations |
| models/reservation.py:276-284 | PostgreSQL's `DOW` (Sunday is 0) is compared with the opening-hours weekday (Monday is 0) | one accepted reservation on a Monday in a restaurant open every day: it is counted under Tuesday, and Monday shows 0 | counts keyed by the Monday-first weekday | high, not executed | Reservations.MondayCountedAsTuesday | Reservations.MondayFirstCountsAreOnTheirDay |
| models/menu.py:424 | `category.has(restaurant_id == restaurant_id)` compares the argument with itself | restaurant 1's owner deletes item 1 of restaurant 2's category: it is deleted | only the restaurant's own items may be deleted | high, not executed | Menu.ForeignItemDeletable | Menu.DeleteOwnRestaurantItem |
| models/restaurant.py:119-120 | the day loop returns "" at the first open day | a week whose Monday is closed with no times: the Monday format check fails on ""; a week with an open Monday and a day numbered 9 is accepted | every day checked: closed days skip the time checks, open days are format-checked | high, not executed | RestaurantSettings.ClosedMondayRejected | RestaurantSettings.AllDaysCheckIff |
| models/restaurant.py:324-327 | the hours query filters on the settings table, a cross join over all restaurants' hours | restaurant 2 saves its Monday while restaurant 1 has a Monday row: restaurant 1's row is overwritten and restaurant 2 gets none | only the restaurant's own rows are updated | high, not executed | RestaurantSettings.CrossJoinOverwritesForeignHours | RestaurantSettings.OwnHoursWritten |
