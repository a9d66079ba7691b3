# Railway seat ledger

A Dafny model of the booking core of a small Django railway reservation
application (`tickets/`). The application keeps routes, trains and tickets. A
train has `totalseats` and `availableseats`. A booking of up to six seats is
split into a confirmed part, taken from the train's available seats, and a
waitlisted part for the rest, and is recorded as one ticket. Administrators add
trains (on a route found or created for the two cities), add seats to a train
and cancel a train, which deletes its tickets by cascade. Passengers list their
booking history, newest first, and search trains by city.

Files:

- `models.dfy` (module `Models`): the `Route`, `Train` and `Ticket` records, the
  category and status choices with their defaults, the string renderings, the
  sum of confirmed seats per train, and the cascade of a train deletion onto the
  ticket table (`DropTrains`).
- `text.dfy` (module `Text`): the case-insensitive substring test used by the
  history and search filters.
- `ledger.dfy` (module `Ledger`): the store as one value `Db`, its invariant
  `Consistent` (every ticket references an existing train, every train an
  existing route, one route per city pair, tickets in creation order, and for
  every train `totalseats - availableseats == Σ confirmedseats` of its
  tickets), the seat-range predicate `SeatsBounded`, the confirmed/waitlist
  split `Allocate`, and one transition function per operation (`BookStep`,
  `IncreaseStep`, `CancelStep`, `AddTrainStep`, `DeleteRouteStep`, `AdminStep`)
  with the lemmas that each preserves the invariant.
- `store.dfy` (module `Store`): class `TicketStore`, whose fields are the
  tables, with one method per view that changes them and one for the cascade
  of deleting a route, which no view performs. Each method updates the
  fields in place as the view does and is proved to have exactly the effect of
  its transition function, so it keeps `Valid()`.
- `queries.dfy` (module `Queries`): `History` and `Search`, read-only functions
  of the tables.

Modelling choices:

- The creation timestamp `bookedat` is the store's counter `clock`, which
  increases by one per booking. The ticket table is a sequence in creation
  order, so ordering by `bookedat` descending is walking the table from its end;
  `History` is proved to return its tickets strictly newest first whenever the
  table is in creation order, which `Consistent` guarantees.
- Ids are handed out from counters and never reused.
- A ticket's category is stored as the string the caller posted. Django does not
  check field choices when a row is created with `objects.create`, so the choice
  list constrains forms, not the stored value. `ParseCategory` states what the
  three choices are.

Behaviour of the code worth knowing:

- No code path moves waitlisted seats to confirmed. Adding seats to a train
  changes only the train (`IncreaseStep` leaves the tickets as they were;
  `IncreaseDoesNotPromote` starts from a consistent store with 8 of 10 seats
  booked, books 5 more, adds 3 seats, and the new ticket keeps 3 waitlisted
  seats).
- Only requests above six seats are rejected. Requests of zero or fewer seats,
  non-positive seat increases and negative seat counts for a new train are
  accepted. The bookkeeping invariant holds for every input the model's
  operations take; the seat range `0 <= availableseats <= totalseats` is proved
  only for non-negative requests, increases and seat counts, and
  `NegativeRequestOverfillsTrain`, `NegativeIncreaseUnderflows` and
  `NegativeTotalSeatsOutOfRange` show consistent stores that a negative input
  takes out of range.
- A ticket is WAITLIST only when none of its seats were confirmed; a partly
  waitlisted ticket is CONFIRMED, and so is an empty request on a train with
  seats left (`AllocateStatusOddities`).
- A search with an empty query finds no train.

## Model

| member | source | states |
|---|---|---|
| `Models.ParseCategory` | tickets/models.py:18-22 | a stored category code is a choice exactly when it is the code of ALL, LADIES or SENIOR |
| `Models.CategoryCodesRoundTrip` | tickets/models.py:18-29 | each category reads back from its own code, and the default code is that of ALL |
| `Models.ParseStatus` | tickets/models.py:23-26 | a stored status code is a choice exactly when it is the code of CONFIRMED or WAITLIST |
| `Models.StatusCodesRoundTrip` | tickets/models.py:23-33 | each status reads back from its own code, and the default status is CONFIRMED |
| `Models.DefaultTicket` | tickets/models.py:29-33 | a ticket created with only its required fields has category ALL, no confirmed and no waitlisted seats, and status CONFIRMED |
| `Models.RouteLabel` | tickets/models.py:6-7 | a route renders as its start city, then " to ", then its end city |
| `Models.TrainLabel` | tickets/models.py:14-15 | a train renders as its name, a space, then its route's rendering |
| `Models.TicketLabel` | tickets/models.py:35-36 | a ticket renders as passenger name, " - ", train name, " - ", status code: each part is at its position and the length is their sum |
| `Models.DropTrains` | tickets/models.py:27 | deleting trains deletes exactly the tickets that reference them, keeps every other ticket, and keeps the table in creation order |
| `Models.ConfirmedSumAppend` | tickets/views.py:60-68 | recording a ticket adds its confirmed seats to its own train's total and to no other train's |
| `Models.ConfirmedSumDropOthers` | tickets/models.py:27 | cascading the deletion of other trains leaves a surviving train's confirmed total unchanged |
| `Models.ConfirmedSumUnreferenced` | tickets/views.py:151 | a train no ticket references has no confirmed seats, so a new train starts balanced |
| `Ledger.Allocate` | tickets/views.py:47-57 | the split confirms and waitlists exactly the request, consumes exactly the confirmed seats, confirms everything when it fits, empties the train when it does not, gives WAITLIST exactly when nothing is confirmed and something is waitlisted, and stays in range for non-negative inputs |
| `Ledger.AllocateConfirmsMinimum` | tickets/views.py:48-55 | the confirmed part is the smaller of the request and the available seats, the waitlist the rest |
| `Ledger.AllocateStatusOddities` | tickets/views.py:48-57 | a partly waitlisted ticket is CONFIRMED, and an empty request on a train with seats left is CONFIRMED with no seats |
| `Ledger.BookStep` | tickets/views.py:29-68 | a missing train or a request over six seats changes nothing and reports the error; otherwise exactly one ticket is appended, stamped with the clock, carrying the request and the confirmed seats, waitlisted seats and status of `Allocate`; the booked train differs from before only in losing the confirmed seats; the clock advances by one; routes, other trains and both id counters are unchanged; and the reply reports the split and the seats left |
| `Ledger.BookWhenSeatsFit` | tickets/views.py:48-52 | when the request fits, all of it is confirmed, nothing is waitlisted, the status is CONFIRMED and the train loses the requested seats |
| `Ledger.BookWhenSeatsShort` | tickets/views.py:53-57 | when the request does not fit, the available seats are confirmed, the rest waitlisted, the train left with none, and the status is WAITLIST exactly when none were available |
| `Ledger.BookPreservesConsistency` | tickets/views.py:47-68 | booking keeps the store consistent, including Σ confirmed seats == totalseats − availableseats for every train, for any request |
| `Ledger.BookPreservesBounds` | tickets/views.py:47-57 | with a non-negative request, booking keeps 0 <= availableseats <= totalseats and non-negative ticket seat counts |
| `Ledger.NegativeRequestOverfillsTrain` | tickets/views.py:42-51 | a request of -1 seats passes the only check and leaves a train with every seat free at 11 of 10 seats available |
| `Ledger.IncreaseStep` | tickets/views.py:171-181 | a missing train changes nothing and reports the error; otherwise both seat counts grow by `extra`, their difference is unchanged, and no ticket, route, other train, clock or id counter changes |
| `Ledger.IncreasePreservesConsistency` | tickets/views.py:174-178 | adding seats keeps the store consistent for any `extra` |
| `Ledger.IncreasePreservesBounds` | tickets/views.py:173-177 | with a non-negative `extra`, seat counts stay in range |
| `Ledger.NegativeIncreaseUnderflows` | tickets/views.py:173-177 | an `extra` of -1 on a train with no seats leaves it with -1 available |
| `Ledger.IncreaseDoesNotPromote` | tickets/views.py:171-181 | from a consistent store whose train has 8 of 10 seats booked, booking 5 confirms 2 and waitlists 3; adding 3 seats then makes 3 available and 13 in total, the tickets are untouched, and the new ticket still has 3 waitlisted |
| `Ledger.CancelStep` | tickets/views.py:161-168 | a missing train changes nothing and reports the error; otherwise the train is gone, exactly its tickets are gone, and routes, clock and id counters stay |
| `Ledger.CancelPreservesConsistency` | tickets/views.py:161-168 | cancelling a train keeps the store consistent |
| `Ledger.CancelPreservesBounds` | tickets/views.py:161-168 | cancelling a train keeps seat counts in range |
| `Ledger.DeleteRouteStep` | tickets/models.py:11 | deleting a route deletes exactly its trains and, through them, exactly their tickets; other trains, the clock and the id counters are unchanged |
| `Ledger.DeleteRoutePreservesConsistency` | tickets/models.py:11 | deleting a route keeps the store consistent |
| `Ledger.DeleteRoutePreservesBounds` | tickets/models.py:11 | deleting a route keeps seat counts in range |
| `Ledger.FindRoute` | tickets/views.py:150 | the route lookup returns an id holding the given cities, or none when no id below the bound holds them |
| `Ledger.GetOrCreateRoute` | tickets/views.py:150 | get-or-create returns a route holding the two cities; the route table is either unchanged or gains exactly one route holding the two cities under the next route id, which then advances by one; the store is unchanged when such a route exists; trains, tickets and clock never change |
| `Ledger.AddTrainStep` | tickets/views.py:144-151 | adding a train creates one fresh train with all its seats available on a route for the two cities; the train id counter advances by one; the route table and its counter are unchanged or gain exactly that route under the next route id; no other train, no ticket and not the clock change |
| `Ledger.AddTrainReusesRoute` | tickets/views.py:150 | adding a train reuses the existing route for the city pair, and leaves exactly one route per pair |
| `Ledger.AddTrainPreservesConsistency` | tickets/views.py:144-151 | adding a train keeps the store consistent |
| `Ledger.NegativeTotalSeatsOutOfRange` | tickets/views.py:149-151 | a train added with -5 seats leaves a consistent store whose new train has -5 seats available, out of range |
| `Ledger.AddTrainPreservesBounds` | tickets/views.py:149-151 | a new train with a non-negative seat count keeps seat counts in range |
| `Ledger.AdminStep` | tickets/views.py:116-141 | the admin panel's increase and cancel actions have the same effect as the increase_seats and cancel_train views, report "Train not found" exactly for a missing train, report the train's name and new available seats on an increase and the cancelled train's name on a cancel, and any other request changes nothing |
| `Text.LowerChar` | tickets/views.py:93 | upper-case ASCII letters fold to their lower-case letter, other characters are kept |
| `Text.Lower` | tickets/views.py:93 | case folding keeps the length and folds every character |
| `Text.Contains` | tickets/views.py:93 | the search succeeds exactly when the pattern occurs in the string |
| `Text.IContains` | tickets/views.py:13 | the case-insensitive test succeeds exactly when the folded pattern occurs in the folded string |
| `Text.EmptyFilterMatchesAll` | tickets/views.py:91-95 | an empty filter matches every name, so filtering by it and not filtering agree |
| `Queries.History` | tickets/views.py:90-98 | the history holds exactly the tickets whose passenger name contains the filter ignoring case, strictly newest first, and changes nothing |
| `Queries.HistoryUnfiltered` | tickets/views.py:91-95 | with no filter the history holds every ticket |
| `Queries.CancelledTrainLeavesHistory` | tickets/models.py:27 | after a train is cancelled the history lists none of its tickets and every other ticket it listed before |
| `Queries.Search` | tickets/views.py:9-13 | search finds exactly the trains whose start or end city contains the query ignoring case, and nothing for an empty query |
| `Queries.SearchFindsByCity` | tickets/views.py:13 | in a consistent store, a train is found exactly when one of its route's cities contains the query |
| `Store.TicketStore.BookTicket` | tickets/views.py:29-68 | the view's in-place update has the effect of `BookStep`, keeps the store valid, and keeps seat counts in range for non-negative requests |
| `Store.TicketStore.IncreaseSeats` | tickets/views.py:171-181 | the in-place update has the effect of `IncreaseStep`, keeps the store valid, and keeps seat counts in range for non-negative `extra` |
| `Store.TicketStore.CancelTrain` | tickets/views.py:161-168 | the deletion has the effect of `CancelStep` and keeps the store valid and in range |
| `Store.TicketStore.AddTrain` | tickets/views.py:144-151 | the get-or-create and insert have the effect of `AddTrainStep`, keep the store valid, and keep it in range for a non-negative seat count |
| `Store.TicketStore.DeleteRoute` | tickets/models.py:11 | the cascading deletion has the effect of `DeleteRouteStep` and keeps the store valid and in range |
| `Store.TicketStore.AdminPanel` | tickets/views.py:116-141 | the admin dispatch has the effect and message of `AdminStep` and keeps the store valid |

## Left out

- Page rendering, redirects, JSON payloads, the Accept-header switch, CSRF
  decorators, and the GET branches that only render a form or a help message:
  these are presentation, and change no state. `home` and `view_all_trains`
  only render.
- Parsing of form fields with `int(...)` and its exceptions, and the defaults
  applied to missing form fields (one seat, category "ALL", 100 seats, 0 extra
  seats): the operations take already-parsed values.
- A missing passenger name, which the database refuses on insert: the model
  takes the name as a string. In `book_ticket` the train with its decremented
  seats is saved (tickets/views.py:59) before the ticket is inserted
  (tickets/views.py:60-68); under autocommit a failed insert leaves the train
  saved without its ticket, and the bookkeeping invariant broken. The model
  performs the two writes as one step.
- The database's integer range: seat counts are unbounded integers in the
  model, while a count taken out of the column's range makes the save fail.
- The `max_length` limits of the character fields, which the database may or
  may not enforce. Where it does, a `passengername` over 100 characters or a
  `category` over 20 (tickets/models.py:28-29) fails the ticket insert after
  `train.save()` (tickets/views.py:59) has already stored the decremented seats,
  which breaks the bookkeeping invariant as a missing name does; the model takes
  strings of any length and performs both writes as one step.
- A failed train insert in `add_train`: `Route.objects.get_or_create`
  (tickets/views.py:150) stores a new route before `Train.objects.create`
  (tickets/views.py:151) runs, and that insert fails when the POST has no
  `trainname` (tickets/views.py:146 gives None for a NOT NULL column,
  tickets/models.py:10) or `totalseats` is outside the column's range. The route
  then stays with no train; `AddTrainStep` takes the name as a string and adds
  the route and the train together.
- A negative train id in `admin_panel`: `int(...)` (tickets/views.py:121, 132)
  accepts one and the lookup reports "Train not found". `AdminAction` takes ids
  as natural numbers, as the store hands them out, so it cannot express that
  input.
- Concurrency and transactions: the views read and write `availableseats`
  without locking; the model is sequential, one operation at a time.
- Waitlist promotion, which the code does not have.
- Unicode case folding: `icontains` is modelled as ASCII-only case folding.
- The order of search results: the query has no ordering, so the model returns
  a set of train ids.
- The fields the history and search replies render (train name, route string,
  timestamp): the queries return the records they are taken from.
- No view deletes routes; `DeleteRouteStep` models the cascade the route
  reference declares, which only the admin site or a shell would trigger.
