# Cinema seat booking rules

A model of the seat-reservation rules of a cinema booking backend (a
Django REST framework application). A user books seats by posting an
order made of tickets; each ticket names a movie session, a row and a
seat. The model covers:

- the per-ticket validator (`TicketWriteSerializer`): the row must lie in
  `[1, rows]` of the session's hall, then the seat in `[1, seats_in_row]`,
  then no stored ticket may hold the same (session, row, seat); the first
  failing check decides the error;
- the batch validator (`OrderCreateSerializer.validate`): a scan with a
  `seen` set that rejects the request at the first repeated
  (session id, row, seat) key;
- order creation (`OrderCreateSerializer.create`): one new order for the
  user, then one ticket per validated ticket, referencing that order;
- the whole request as the serializer would run it if `validate_row` and
  `validate_seat` were not picked up as field hooks: every ticket
  validated, then the batch, then creation; a rejected request stores
  nothing and a ticket table without double bookings keeps none;
- the framework's field-hook pass as written, which makes every request
  with a ticket fail before `validate` runs (see "## Findings");
- the derived session fields `tickets_available` and `taken_places`, and
  the per-action serializer choice of the movie and movie-session view
  sets.

Modules: `CinemaTypes` (halls, sessions, tickets, orders, errors, the seat
grid), `TicketValidation`, `OrderValidation`, `FieldHooks`, `Booking` (the class
`TicketStore` holding the order and ticket tables), `SessionProjections`,
`ViewDispatch`, and `BookingScenarios` (worked requests on a 5 x 10 hall).

The database is a `TicketStore` object whose `orders` and `tickets` fields
are sequences the methods reassign; the existence and count queries are
functions over the ticket sequence. The acting user and the creation time
are parameters.

## Model

| member | source | states |
|---|---|---|
| `TicketValidation.ValidateRow` | cinema/views.py:138-145 | passes exactly when `1 <= row <= num_rows`; otherwise fails with `RowOutOfRange` |
| `TicketValidation.ValidateSeat` | cinema/views.py:126-136 | passes exactly when `1 <= seat <= num_seats`; otherwise fails with `SeatOutOfRange` |
| `TicketValidation.GridMembership` | cinema/views.py:126-145 | the two range checks pass together exactly when (row, seat) lies on the hall's seat grid |
| `TicketValidation.SeatTakenIn` | cinema/views.py:161-163 | the existence query is true exactly when some stored ticket has the same (session, row, seat) |
| `TicketValidation.ValidateTicket` | cinema/views.py:147-167 | succeeds exactly when the place is on the hall's grid and no stored ticket holds that seat of that session, and then returns the ticket data unchanged; a bad row is reported before anything else, a bad seat before the taken check, and `SeatTaken` exactly when the place is on the grid and already held |
| `OrderValidation.ValidateBatch` | cinema/views.py:185-205 | accepts exactly when the batch's (session id, row, seat) keys are pairwise distinct, and then returns the batch unchanged; a rejection names the key of the first ticket whose key occurred earlier (all keys before it distinct); the loop keeps `seen` equal to the keys scanned so far |
| `Booking.NewTickets` | cinema/views.py:211-212 | one ticket per validated ticket, in request order, each referencing the order and holding that ticket's session, row and seat |
| `Booking.ValidateEach` | cinema/views.py:179 | one per-ticket validator outcome per ticket of the request, in request order; all outcomes are `Ok` exactly when every ticket is bookable |
| `FieldHooks.FieldPass` | cinema/views.py:124-145 | the field pass raises a TypeError exactly when some field has a `validate_<field>` method whose parameter count is not one, naming a field of the serializer |
| `FieldHooks.AsWrittenEveryRequestFails` | cinema/views.py:124-145 | as written, every request with at least one ticket stops with a TypeError in the `row` hook, before `validate` |
| `FieldHooks.IntendedEveryRequestProceeds` | cinema/views.py:147-159 | with the range checks used only as helpers of `validate`, the field pass lets every request through |
| `Booking.BookingKeepsSeatsUnique` | cinema/views.py:147-205 | if the table has no double booking, every ticket passes the per-ticket validator and the batch keys are distinct, then the table with the new tickets has no double booking |
| `Booking.TicketStore.CreateOrder` | cinema/views.py:207-213 | adds exactly one order, with a fresh id, for the user; the ticket table becomes the old table followed by one ticket per spec referencing that order, in spec order; the store's referential invariant is kept |
| `Booking.TicketStore.PlaceOrder` | cinema/views.py:178-213 | with the field hooks not picked up, an order is created exactly when every ticket is bookable and the batch keys are distinct; per-ticket failures are reported for every ticket; a repeated key is reported as the first repeat; a rejected request changes neither table; a table without double bookings keeps none |
| `SessionProjections.TakenPlaces` | cinema/views.py:105-109 | the taken-seat map has one entry per ticket of the session (its length is the ticket count) |
| `SessionProjections.TicketsAvailable` | cinema/views.py:91-92 | equals the hall capacity minus the number of entries of the session's taken-seat map, and never exceeds the capacity |
| `SessionProjections.TakenPlacesMatchSeatTaken` | cinema/views.py:105-109 | (row, seat) is on a session's taken-seat map exactly when the per-ticket validator's existence query finds that seat taken |
| `SessionProjections.TakenPlacesAppend` | cinema/views.py:105-109 | the map of a table grown at its end is the old map followed by the map of the new tickets, so entries follow ticket order |
| `SessionProjections.AvailableAfterSale` | cinema/views.py:91-92 | storing tickets lowers `tickets_available` by the number of those tickets that belong to the session |
| `SessionProjections.TakenPlacesDistinct` | cinema/views.py:105-109 | a table without double bookings gives every session a taken-seat map without repeated places |
| `SessionProjections.AvailableNonNegative` | cinema/views.py:91-92 | when capacity is rows x seats, the table has no double booking and the session's tickets lie on the grid, `tickets_available` is not negative |
| `ViewDispatch.MovieSerializerFor` | cinema/views.py:37-44 | the list serializer exactly for `"list"`, the detail serializer exactly for `"retrieve"`, the plain one otherwise |
| `ViewDispatch.SessionSerializerFor` | cinema/views.py:51-58 | the list serializer exactly for `"list"`, the detail serializer exactly for `"retrieve"`, the plain one otherwise |
| `ViewDispatch.DerivedFieldsPerAction` | cinema/views.py:70-109 | `tickets_available` is served exactly by the list action and `taken_places` exactly by the retrieve action |
| `ViewDispatch.SameShapeForEveryAction` | cinema/views.py:37-58 | both view sets choose the same shape (list, detail, plain) for every action |
| `BookingScenarios.BookSameSeatTwice` | cinema/views.py:147-213 | row 3, seat 7 of a 5 x 10 hall is booked once; the same request again fails with `SeatTaken` |
| `BookingScenarios.BookRowOutsideHall` | cinema/views.py:138-155 | row 6 of a 5-row hall fails with `RowOutOfRange` and nothing is stored |
| `BookingScenarios.BookSeatTwiceInOneRequest` | cinema/views.py:185-205 | two tickets for row 1, seat 1 of one session in one request fail with `DuplicateInBatch` and nothing is stored |
| `BookingScenarios.SixtyThreeLeft` | cinema/views.py:91-92 | capacity 100 with 37 tickets of the session leaves 63 available |

## Left out

- The view-set CRUD wiring, querysets and the `Meta` field tuples: framework declarations without logic.
- The Django ORM: the ticket and order tables are sequences in a `TicketStore`, `.exists()` and `.count()` are functions over the ticket sequence, and `Order.objects.create` hands out the next order id. Ticket ids are not modelled.
- The request user and the creation timestamp are parameters of `CreateOrder` and `PlaceOrder`.
- The text of the error messages: errors are the enum `RowOutOfRange`, `SeatOutOfRange`, `SeatTaken`, `DuplicateInBatch`; the last carries the repeated key, which the message names.
- The fallback that accepts a bare session id instead of a session object in the batch key: a session is always known by its id here.
- Transactions, concurrency and database uniqueness constraints. `create` runs without a transaction or lock, so nothing here claims atomicity or race safety against concurrent requests; "a rejected request stores nothing" holds because validation runs before any write, in one sequential run. A database failure halfway through the ticket loop, and the remapping of a uniqueness violation to `SeatTaken`, are not part of the shown code and are not modelled.
- `PlaceOrder` follows the framework's order of work: the nested `tickets` serializer validates every ticket first and reports all failures, and only then does the order's `validate` look for repeated keys. The framework itself is not part of this model. The model follows the code's order.
- The framework also looks up methods named `validate_<field>` on a serializer and calls them with the field's value alone. `validate_row` and `validate_seat` take three parameters, so that call raises a TypeError. As written, every request with at least one ticket therefore fails with a server error before `validate` runs, and no order is ever created. `FieldHooks` models this; `PlaceOrder` models the request as if those two hooks were not picked up. The framework's own code is not part of this model.
- Hall dimensions are not required to be positive: a hall with no rows simply rejects every row.
- `capacity` is a field of the hall (the hall model is not part of this model); `AvailableNonNegative` takes `capacity == rows * seats_in_row` as a hypothesis.
- The order of `obj.tickets.all()` is taken to be the order of the ticket table; the ticket model's default ordering is not part of this model.
- An absent action (`None`) is any name other than `"list"` and `"retrieve"`, and gets the plain serializer.
- Read projections are functions of the ticket table, so computing them twice without a write gives the same value by construction.

## Findings

| source | as written | input that shows it | evidently intended | confidence | as-written member | corrected member |
|---|---|---|---|---|---|---|
| cinema/views.py:124-145 | the range checks are named `validate_row` and `validate_seat`, so the framework calls them as field hooks with one argument, but they take three | any order request with one ticket, e.g. row 3, seat 7: the `row` hook raises a TypeError before `validate` | the range checks run only from `validate`, so requests reach the per-ticket, batch and create steps that `Booking.TicketStore.PlaceOrder` models | medium, not executed | `FieldHooks.AsWrittenEveryRequestFails` | `FieldHooks.IntendedEveryRequestProceeds` |
