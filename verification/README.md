# Flight booking backend: a verified model of the ledger and the request checks

This project models the core of an Express + SQLite flight booking backend.

**The ledger.** The Flight, Seat and Ticket tables are one immutable `Store`. The writes of the two services are pure functions from a store to `Result<Committed<T>, Error>`; a failure carries no store, so the caller keeps the store it had.
- **Ticket booking and cancellation** (TicketService) each run one BEGIN … COMMIT/ROLLBACK chain, so a failure at any step is rolled back.
- **The flight writes** (FlightService) run no transaction. Update and delete are single autocommitted statements, which change nothing when they fail. `createFlight` is an autocommitted INSERT, then the seat inserts, then a SELECT. The only failure modelled for it is the INSERT's constraint check, which happens before anything is written.
- **Reads**: flight lookup, listing and filtering, seat listing and ticket listing.

**The controllers and middleware.** These are modelled as functions from a request to a reply: a status with a JSON body, or an error object handed to `next`. The modelled parts are:
- the field checks (accumulated, in check order);
- the email pattern and the `YYYY-MM-DD` shape;
- the two `Authorization: Bearer` parsers;
- the admin gate;
- the error handler's status and message choice.

**Parameters instead of foreign code.** Everything the code delegates to libraries is a parameter:
- `Date.parse`, SQLite's `date()`, `Number(...)` on query and path strings, and the text a JavaScript value becomes in a TEXT column: `dateParse`, `sqlDate`, `toNumber` and `bindText`;
- `jwt.verify`: `verify`;
- the authentication service's register and login: `register` and `login`.

**Modules.** One module per source file or component:
- `Js`: JavaScript values, truthiness and `Number.isInteger`.
- `Text`: `trim`, `split(' ')` and `split(/\s+/)`.
- `Ledger`: the store and its consistency predicates.
- `TicketService` and `FlightService`.
- `Http`: replies and accumulated check messages.
- `ErrorHandler`.
- `TicketController`, `FlightController` and `AuthController`.
- `AuthMiddleware`.

**Consistency.** Neither the code nor the schema maintains it in general. It means that every flight's `seats_available` equals its number of free seats, and that tickets and booked seats correspond one to one. The ticket transactions preserve it. `createFlight` and `updateFlight` store whatever counter the caller sends. The model therefore states preservation lemmas with consistency as a precondition, and iff lemmas for the two flight writes.

**Behaviours of the code worth knowing:**
- **Service errors are 500.** A missing or booked seat is rejected with a plain `Error` that has no `statusCode` or `status`. The error handler therefore answers 500 for both (`ServiceErrorsAre500`, `BookingRejectionsAre500`).
- **`deleteFlight` does not cascade.** Its comment speaks of cascading, but the schema declares no ON DELETE action and foreign keys are on. A flight that still has seats or tickets is not deleted; the statement fails. A flight created with at least one seat can never be deleted (`SeededFlightCannotBeDeleted`, `CreatedFlightDeleteIs500`).
- **The two header parsers differ.** `/auth/me` trims the header and splits it on whitespace runs. Every other route splits on single spaces. A tab or several spaces between `Bearer` and the token are accepted by the first and refused by the second (`ParsersDisagree`, `TabSeparatedHeader`).
- **Registration sets its own admin flag.** The client chooses it: a truthy `isAdmin` in the body registers an admin, whose login passes the admin gate (`AdminFlag`, `SelfRegisteredAdmin`).
- **Seat labels of 2^31 and above cannot be booked.** node-sqlite3 binds such a number as a REAL. SQLite compares it with the TEXT label as '2147483648.0', which never matches (`SeatMatches`, `FindSeat`).

## Model

| member | source | states |
|---|---|---|
| `Ledger.NextId` | src/db/db_setup.js:38 | A new AUTOINCREMENT rowid is above the sequence counter and above every live key, so it never reuses an id. |
| `Js.KeyOf` | src/services/FlightService.js:125 | A bound number selects an INTEGER key exactly when it is finite and integral, and then the key it equals. |
| `Js.KeyOfSelects` | src/services/FlightService.js:125 | A number selects key `k` if and only if it equals `k`. |
| `Js.IntOf` | src/controllers/FlightController.js:88-89 | A value that `Number.isInteger` accepts is the number of the integer it yields. |
| `Text.Trim` | src/controllers/TicketController.js:23-26 | `trim` is empty iff the string is all whitespace; otherwise it starts and ends with a non-space. It is an infix of the string with only whitespace before and after it. |
| `Text.TrimUnique` | src/controllers/TicketController.js:23-26 | Trim's contract determines it: any non-empty infix with non-space ends and only whitespace around it is the trim. |
| `Text.TrimKeepsTrimmed` | src/controllers/AuthController.js:41 | A string that neither starts nor ends with whitespace is its own trim. |
| `Text.TrimIdempotent` | src/controllers/AuthController.js:41 | Trimming twice gives the same string as trimming once. |
| `Text.SplitOn` | src/middleware/Authenticate.js:18 | `split(' ')` yields at least one piece and no piece contains the separator. |
| `Text.JoinSplit` | src/middleware/Authenticate.js:18 | Joining the pieces of `split(c)` with `c` gives back the string. |
| `Text.SplitJoin` | src/middleware/Authenticate.js:18 | Splitting the join of separator-free pieces gives back the pieces. |
| `Text.SplitWs` | src/controllers/AuthController.js:41 | `split(/\s+/)` yields at least one piece, none containing whitespace. |
| `Text.SplitWsHead` | src/controllers/AuthController.js:41 | The first piece runs to the first whitespace, and the rest split what follows that whitespace run. |
| `Text.SplitWsTrimmedPiecesNonEmpty` | src/controllers/AuthController.js:41 | A string without outer whitespace splits into non-empty pieces only. |
| `TicketService.FindSeat` | src/services/TicketService.js:37-43 | No seat is found iff no seat has that flight id and label; a label of 2^31 or more never matches its number. Otherwise the result is the least matching seat id, the first one a rowid scan meets. |
| `TicketService.CreateTicket` | src/services/TicketService.js:19-121 | See the `TicketService.CreateTicket` notes below the table. |
| `TicketService.DeleteTicket` | src/services/TicketService.js:166-219 | An unknown id resolves 0 and changes nothing. Otherwise it resolves 1: the ticket is removed, its seat is set free, its flight's counter rises by one, and every other seat, flight and city is unchanged. A DELETE leaves the three AUTOINCREMENT sequences as they were. |
| `TicketService.GetTicketById` | src/services/TicketService.js:146-159 | A row exists iff the ticket exists and its seat row exists (the inner join); the row carries the ticket with its seat's label and flag. |
| `TicketService.GetAllTickets` | src/services/TicketService.js:127-139 | Exactly the rows the single-ticket lookup returns for some id. |
| `TicketService.ListingsShowBookedSeats` | src/services/TicketService.js:127-159 | In a consistent store every ticket is listed, and every listed ticket shows its seat as booked. |
| `TicketService.FreeSeatsAfterBooking` | src/services/TicketService.js:60-91 | A booking removes exactly the booked seat from its flight's free seats and changes no other flight's free seats. |
| `TicketService.CreateTicketPreservesConsistency` | src/services/TicketService.js:62-91 | A booking keeps a consistent store consistent, and the decremented counter is never negative. |
| `TicketService.DeleteTicketPreservesConsistency` | src/services/TicketService.js:182-206 | A cancellation keeps a consistent store consistent, frees the seat and raises the counter by exactly one. |
| `TicketService.DeleteUndoesCreate` | src/services/TicketService.js:182-206 | Cancelling the ticket just booked restores every table (only the AUTOINCREMENT sequence keeps the handed-out id) and resolves 1. |
| `TicketService.CancelledIdNotReused` | src/db/db_setup.js:53 | After a ticket is cancelled, the next booking gets an id above the cancelled one, as AUTOINCREMENT promises. |
| `TicketService.SecondBookingFails` | src/services/TicketService.js:53-57 | Booking the same flight and seat again right after a success fails with "Seat already booked". |
| `FlightService.GetSeatsByFlightId` | src/services/FlightService.js:53-68 | A row is returned iff it is a seat whose `flight_id` is the given one, with that seat's id, label and flag. |
| `FlightService.Labels` | src/services/FlightService.js:42 | The labels the seeding loop visits from `n` are exactly the integers from `n` to `seats_total`, and there are `max(seats_total - n + 1, 0)` of them. |
| `FlightService.SeedFromExtends` | src/services/FlightService.js:35-46 | Seeding only adds seats: every existing seat and every other table is unchanged. |
| `FlightService.SeedFromAddsFree` | src/services/FlightService.js:35-46 | Every added seat belongs to the flight, is free and has a label between `n` and `seats_total`. |
| `FlightService.SeedFromLabels` | src/services/FlightService.js:35-46 | The added seats carry each label from `n` to `seats_total` exactly once. |
| `FlightService.SeedSeatsForFlight` | src/services/FlightService.js:35-46 | Seeding with `seats_total = N` adds exactly `max(N, 0)` free seats of the flight, labelled 1 to N, and keeps everything else. The Seat sequence only grows, and each new seat's id lies above its old value. |
| `FlightService.RowViolation` | src/db/db_setup.js:37-48 | A Flight row is admitted iff its price is not NaN (a NaN binds NULL) and both city columns are ids of existing cities. |
| `FlightService.FlightOf` | src/services/FlightService.js:80-87 | The stored row carries the supplied cities, seat total and seat counter. |
| `FlightService.FindFlightById` | src/services/FlightService.js:123-133 | Null iff the id is unknown; otherwise that flight with exactly the seats whose `flight_id` matches. |
| `FlightService.CreateFlight` | src/services/FlightService.js:76-95 | See the `FlightService.CreateFlight` notes below the table. |
| `FlightService.CreateFlightReturnsSeededSeats` | src/services/FlightService.js:90-95 | The returned seats are exactly the new flight's free seats: `max(seats_total, 0)` of them, all free, labelled 1 to `seats_total`. |
| `FlightService.CreateFlightFreeSeats` | src/services/FlightService.js:76-95 | Creating a flight leaves every other flight's free seats unchanged and gives the new one `max(seats_total, 0)`. |
| `FlightService.CreateFlightConsistentIff` | src/services/FlightService.js:76-95 | After a creation in a consistent store, the store is consistent iff the caller sent `seats_available = max(seats_total, 0)`. |
| `FlightService.UpdateFlight` | src/services/FlightService.js:141-158 | See the `FlightService.UpdateFlight` notes below the table. |
| `FlightService.UpdateFlightConsistentIff` | src/services/FlightService.js:136-158 | After an update in a consistent store, the store stays consistent iff the supplied counter equals that flight's free seats. |
| `FlightService.DeleteFlight` | src/services/FlightService.js:166-173 | A missing id gives 0 and changes nothing. The delete fails with a foreign-key error iff a seat or ticket references the flight. An existing flight that nothing references is removed, only its row, and the result is 1. |
| `FlightService.DeleteFlightPreservesConsistency` | src/services/FlightService.js:166-173 | A successful flight delete keeps a consistent store consistent. |
| `FlightService.SeededFlightCannotBeDeleted` | src/services/FlightService.js:161-173 | A flight created with at least one seat cannot be deleted: its seats block the delete. |
| `FlightService.TextLeTotal` | src/services/FlightService.js:104 | The BINARY collation orders any two texts. |
| `FlightService.TextLeTransitive` | src/services/FlightService.js:104 | The BINARY collation is transitive. |
| `FlightService.TextLeAntisymmetric` | src/services/FlightService.js:104 | Two texts that each sort no later than the other are equal. |
| `FlightService.InsertKeepsOrder` | src/services/FlightService.js:104 | Inserting a flight into a list ordered by departure time keeps it ordered. |
| `FlightService.InsertIds` | src/services/FlightService.js:104 | Insertion adds exactly the new flight's id and keeps ids distinct. |
| `FlightService.ListFlights` | src/services/FlightService.js:102-116 | The listing holds every flight the selection keeps, once each, ordered by departure time, each with exactly its own seats. |
| `FlightService.FindAllFlights` | src/services/FlightService.js:102-116 | `findAllFlights` returns all flights, once each, ordered by departure time, each with its own seats. |
| `FlightService.FilterFlights` | src/services/FlightService.js:181-211 | A flight is listed iff it matches every supplied truthy filter (origin, destination, date part of the departure). With no such filter, all flights are listed, ordered and each with its own seats. |
| `Http.Rejection` | src/controllers/TicketController.js:59-61 | The object a rejected service call hands to `next` carries the service's message and neither a `statusCode` nor a `status`. |
| `Http.CollectContents` | src/controllers/TicketController.js:22-39 | The accumulated message list is empty iff no check failed, and holds only check messages. With distinct messages, a message is present iff its check failed. |
| `Http.CollectSnoc` | src/controllers/TicketController.js:22-39 | One more check at the end adds its message at the end exactly when it fails. |
| `ErrorHandler.HandleError` | src/helpers/ErrorHandler.js:8-19 | The handler always answers, with a truthy status and message. The status is `statusCode` if truthy, else `status` if truthy, else 500. The body is the message iff it is truthy, else 'Internal Server Error'. |
| `ErrorHandler.FalsyStatusCodeFallsThrough` | src/helpers/ErrorHandler.js:13 | A falsy `statusCode` (0, undefined, …) is treated exactly as an absent one. |
| `ErrorHandler.ServiceErrorsAre500` | src/helpers/ErrorHandler.js:13-18 | Every service rejection reaches the client as 500 with the service's message. |
| `TicketController.ValidEmailIffPattern` | src/controllers/TicketController.js:27-31 | The executable email check accepts exactly the strings `^[^\s@]+@[^\s@]+\.[^\s@]+$` matches. |
| `TicketController.TicketErrorsAccumulate` | src/controllers/TicketController.js:22-39 | The error list holds the messages of all failing checks in check order. A message is present iff its check fails. The list is empty iff: both names are strings with a non-space, the email matches, `flight_id` is a non-NaN number, and `seat_number` is absent or a number. |
| `TicketController.RequestOf` | src/controllers/TicketController.js:45-51 | The service receives the passenger fields and `flight_id` as sent; a missing `seat_number` becomes no seat number. |
| `TicketController.TicketErrors` | src/controllers/TicketController.js:22-39 | The error list is empty exactly when all five checks pass, and holds only the checks' messages. |
| `TicketController.PostTicket` | src/controllers/TicketController.js:11-62 | 400 with the full error list iff a check fails, with the store untouched and the service not called. Otherwise, when the booking commits, 201 with the booked ticket and the committed store; when it fails, the service's rejection is handed to `next` with the store unchanged. |
| `TicketController.ValidBookingIs201` | src/controllers/TicketController.js:40-58 | A valid request whose seat the lookup finds free, on an existing flight, gets 201 with the ticket for that seat, and the booking is recorded. |
| `TicketController.BookingRejectionsAre500` | src/controllers/TicketController.js:45-61 | A valid request without `seat_number`, or for a booked seat, reaches the client as 500 with the service's message. |
| `FlightController.IsISODate` | src/controllers/FlightController.js:10-13 | A date passes iff it is four digits, '-', two digits, '-', two digits, and `Date.parse` reads it with 'T00:00:00' appended. |
| `FlightController.DateShapeIffPieces` | src/controllers/FlightController.js:11 | The position-by-position date check accepts exactly four digits, '-', two digits, '-', two digits. |
| `FlightController.FlightErrors` | src/controllers/FlightController.js:80-93 | The error list is empty exactly when all seven checks pass, and holds only the checks' messages. |
| `FlightController.FlightErrorsAccumulate` | src/controllers/FlightController.js:80-93 | The error list holds the messages of all failing checks in check order. A message is present iff its check fails. The list is empty iff: both cities and the price are numbers, both times are truthy and parse, and both counters are integers. |
| `FlightController.CountersAreUnrelated` | src/controllers/FlightController.js:88-89 | Any two integers pass as `seats_total` and `seats_available`; no bound or relation is checked. |
| `FlightController.ParamsOf` | src/controllers/FlightController.js:95-99 | The bound values are the body's numbers and integers as sent. |
| `FlightController.PostFlight` | src/controllers/FlightController.js:72-105 | 400 with the full error list iff a check fails, with the store untouched. Otherwise 201 with exactly what the creation committed, or the row's constraint violation handed to `next` with the store unchanged. |
| `FlightController.PostFlightKeepsCounterAsSent` | src/controllers/FlightController.js:95-101 | The created flight stores the body's `seats_available`; the store stays consistent iff that equals `max(seats_total, 0)`. |
| `FlightController.NaNPriceIs500` | src/controllers/FlightController.js:87 | A NaN price passes the check, is refused by NOT NULL, and reaches the client as 500. |
| `FlightController.PutFlight` | src/controllers/FlightController.js:111-155 | See the `FlightController.PutFlight` notes below the table. |
| `FlightController.DeleteFlightRoute` | src/controllers/FlightController.js:161-177 | 400 iff the id is NaN; 404 iff no flight has the id. The foreign-key rejection goes to `next` iff seats or tickets reference the flight. Otherwise 204 with an empty body and only that row gone. |
| `FlightController.CreatedFlightDeleteIs500` | src/controllers/FlightController.js:168-176 | Deleting a flight just created with at least one seat leaves the store unchanged and answers 500. |
| `FlightController.ParseQuery` | src/controllers/FlightController.js:35-59 | The checks stop at the first failure, in the order origin, destination, date, each with its own message. The query parses iff every present parameter passes its check. On success each present parameter becomes a filter, and a present date has the YYYY-MM-DD shape. |
| `FlightController.GetFilteredFlights` | src/controllers/FlightController.js:33-66 | 400 with the first failing check's message iff a query check fails. Otherwise 200 with exactly the flights the parsed filters match, ordered by departure time, each with its seats. |
| `FlightController.ZeroOriginIsNoOrigin` | src/controllers/FlightController.js:38-44 | An origin that converts to 0 passes the check and filters exactly as if no origin were given. |
| `FlightController.FractionalOriginMatchesNothing` | src/controllers/FlightController.js:39-43 | A non-integral origin passes the check but matches no flight. |
| `FlightController.AdminOnly` | src/routes/FlightRoute.js:16-18 | When the admin chain refuses, its refusal is the answer and the store is unchanged; otherwise the handler's outcome stands. |
| `FlightController.OnlyAdminsChangeFlights` | src/routes/FlightRoute.js:16-18 | The flight-changing routes change the store only for a Bearer header whose token verifies to a payload with a truthy `isAdmin`; every refusal is 401 or 403. |
| `AuthMiddleware.BearerToken` | src/middleware/Authenticate.js:18-19 | A token the single-space split accepts is non-empty and has no space. |
| `AuthMiddleware.BearerTokenIffShaped` | src/middleware/Authenticate.js:18-21 | The single-space parser yields a token iff the header is 'Bearer', one space, then that non-empty, space-free token up to the end or a space; anything after is ignored. |
| `AuthMiddleware.ExtraSpacesAreMalformed` | src/middleware/Authenticate.js:18-21 | A leading space, or two spaces after the scheme, make the header malformed. |
| `AuthMiddleware.Authenticate` | src/middleware/Authenticate.js:10-34 | Every refusal is 401. 'No authorization header provided' iff the header is missing or empty. 'Malformed authorization header' iff the split rejects it. `next` runs only for a well-shaped header whose token verifies, with its payload as the user. |
| `AuthMiddleware.AuthenticateShapedHeader` | src/middleware/Authenticate.js:23-33 | For a well-shaped header, the middleware proceeds with the payload iff the token verifies, and otherwise answers 'Invalid or expired token'. |
| `AuthMiddleware.AuthorizeAdmin` | src/middleware/Authenticate.js:40-45 | 403 'Admin access required' iff there is no user or the user's `isAdmin` is falsy; otherwise `next` with that user. |
| `AuthMiddleware.AdminGate` | src/routes/FlightRoute.js:16-18 | `authenticate` then `authorizeAdmin` refuses only with 401 or 403. It lets through only the payload `authenticate` attached, whose `isAdmin` is truthy. |
| `AuthMiddleware.AdminGatePasses` | src/middleware/Authenticate.js:10-45 | The two middlewares let a request through iff its header is shaped around a token that verifies to a truthy `isAdmin`. |
| `AuthController.AdminFlag` | src/controllers/AuthController.js:13 | The stored flag is 1 iff the body's `isAdmin` is truthy, else 0. |
| `AuthController.PostRegister` | src/controllers/AuthController.js:7-18 | 400 'Email & password required' iff either is falsy. Otherwise 201 `{ email }` iff the service stores the user (with the flag above), or its error goes to `next`. |
| `AuthController.SelfRegisteredAdmin` | src/controllers/AuthController.js:9-14 | The payload `isAdmin` of a registered user passes `authorizeAdmin` iff the request's `isAdmin` was truthy. A registration the service stores is answered 201 `{ email }`. |
| `AuthController.PostLogin` | src/controllers/AuthController.js:20-29 | 200 with the signed token iff login succeeds; otherwise 401 with the rejection's message. It never calls `next`. |
| `AuthController.LoginTokenAccepted` | src/controllers/AuthController.js:20-25 | A whitespace-free token from a successful login, sent back as 'Bearer ' and the token, is read as that token by both header parsers. When it verifies, the middleware proceeds and `/auth/me` answers 200 with the same payload. |
| `AuthController.MeToken` | src/controllers/AuthController.js:41-49 | A token taken from the header is non-empty and free of whitespace. |
| `AuthController.MeTokenIffShaped` | src/controllers/AuthController.js:41-46 | The whitespace parser yields a token iff the trimmed header is 'Bearer', any whitespace run, then that token up to the end or whitespace. |
| `AuthController.MeTokenNeverEmpty` | src/controllers/AuthController.js:46-49 | The 'No token provided' branch is unreachable. |
| `AuthController.GetMe` | src/controllers/AuthController.js:31-62 | Always a response, 200 or 401. 'No Authorization header provided' iff the header is missing or empty. 'Malformed Authorization header' iff the parser rejects it. 'Invalid or expired token' iff verification fails. A parsed token that verifies gets exactly 200 `{ email, isAdmin }` of its payload. |
| `AuthController.ParsersDisagree` | src/controllers/AuthController.js:41 | For 'Bearer', a whitespace run other than one space, then a token: `/auth/me` takes the token while `authenticate` does not. A leading tab or other non-space whitespace makes the header malformed. |
| `AuthController.TabSeparatedHeader` | src/middleware/Authenticate.js:18-21 | 'Bearer\t' plus a token is answered 200 by `/auth/me` and refused as malformed by every other route. |

**Notes on the longer rows.**

`TicketService.CreateTicket` (src/services/TicketService.js:19-121):
- It fails as not found iff no seat matches.
- It fails as already booked iff the match is booked.
- It fails with a foreign-key error iff the match is free but its flight is gone.
- It succeeds iff the match is free and its flight exists.
- It always fails as not found without a seat number.
- On success:
  - exactly the matched seat is booked;
  - one ticket with the next AUTOINCREMENT id and the passenger fields is added;
  - that flight's counter drops by one;
  - nothing else changes;
  - the returned label is the requested one.

`FlightService.CreateFlight` (src/services/FlightService.js:76-95):
- It fails iff the row breaks a constraint, and then with that violation.
- On success:
  - the id is the next AUTOINCREMENT id, and the Flight sequence records it;
  - the Ticket sequence is unchanged, and every added seat's id lies above the old Seat sequence;
  - the row is stored with `seats_available` as supplied;
  - tickets, cities and old seats are unchanged;
  - the added seats are the new flight's, free, and labelled 1 to `seats_total`;
  - the result is the flight with its seats.

`FlightService.UpdateFlight` (src/services/FlightService.js:141-158):
- A non-integral or missing id gives 0 and changes nothing.
- For an existing id, a violation is reported as such and changes nothing.
- For an existing id without a violation, all seven columns are overwritten and the result is 1.
- Seats and tickets are never touched.

`FlightController.PutFlight` (src/controllers/FlightController.js:111-155):
- 400 'Invalid flight ID' iff the id is NaN.
- 400 with the error list iff the id is a number and a check fails.
- 404 'Flight not found' iff the checks pass and no flight has the id, fractional or infinite ids included.
- For an existing id with passing checks: 200 iff the row breaks no constraint, with the rewritten flight and its unchanged seats; otherwise the violation is handed to `next`.
- The store changes only on 200.

## Left out

- **Concurrency.** Callback sequencing, `db.serialize` and the shared connection are not modelled. Each transaction is one atomic step, and interleavings are not modelled.
- **I/O errors.** Errors of the driver itself (a failing BEGIN, COMMIT or final SELECT) are not modelled. Each would reject with the driver's error and reach the client as 500.
- **Email.** The confirmation email is not modelled: its only call site is commented out.
- **City service and thin controllers.** The City service and controller are not part of this model, and neither are the `getAllFlights` and `getAllTickets` controllers, which pass the service result through. Only the admin chain on the flight routes is modelled from the route tables.
- **Authentication service.** Hashing, the User table and token signing are the `register`/`login` parameters. `jwt.verify` is the `verify` parameter, and the JWT secret is not modelled.
- **Foreign values.** `Date.parse`, SQLite's `date()`, `Number(...)` on strings and TEXT binding are parameters: the model states what the code does with their results, not the results themselves. `price` is an opaque number; only its NaN-ness matters (NOT NULL).
- **Per-seat insert failures.** These are only logged by the seeding loop. Seeding is taken to insert every seat.
- `FlightService.CreateFlight`: modelled as all-or-nothing. The code runs no transaction, so a failure after the Flight INSERT (the seeding's `finalize`, or the final SELECT) would leave the flight row committed. Such driver failures are not modelled, so `PostFlight`'s `next` branch always leaves the store unchanged.
- **Request shapes.** A repeated query parameter (an array in Express) is not modelled: query values are strings. Header-name lookup is not modelled either: the header is given as the value Express returns.
- **`postLogout`.** It answers `{ success: true }` and touches no state, so it is not modelled.
- **Seat-pool resizing.** It does not exist in the code (an update leaves Seat rows alone), so it is not modelled.
- `FlightService.ListFlights`: the result is a set-like listing with a proved order and distinct ids. The relative order of two flights with equal departure times is not stated, because SQLite leaves it unspecified.
- `FlightService.GetSeatsByFlightId`: the seats come back as a set, because the query has no ORDER BY.
