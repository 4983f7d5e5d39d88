/**
  The flight handlers of `src/controllers/FlightController.js` and the admin
  chain of `src/routes/FlightRoute.js`. `Number(...)` on a path or query
  string, `Date.parse` (including the coercion of a non-string to text) and the
  text a bound JavaScript value becomes in a TEXT column are parameters:
  `toNumber`, `dateParse` and `bindText`.
 */
module FlightController {
  import opened Wrappers
  import opened Js
  import opened Ledger
  import opened FlightService
  import opened Http
  import opened ErrorHandler
  import opened AuthMiddleware

  // ---------------------------------------------------------------- dates

  /** `\d` without the `u` flag: an ASCII digit. */
  predicate IsDigit(c: char)
  {
    '0' <= c <= '9'
  }

  predicate Digits(s: string)
  {
    forall k :: 0 <= k < |s| ==> IsDigit(s[k])
  }

  /** `/^\d{4}-\d{2}-\d{2}$/`, position by position: ten characters, dashes at 4 and 7, digits elsewhere. */
  predicate DateShape(s: string)
  {
    && |s| == 10 && s[4] == '-' && s[7] == '-'
    && forall k :: 0 <= k < |s| && k != 4 && k != 7 ==> IsDigit(s[k])
  }

  /** The same pattern read as a grammar: four digits, '-', two digits, '-', two digits. */
  ghost predicate DatePieces(s: string)
  {
    exists y, m, d :: |y| == 4 && |m| == 2 && |d| == 2 && Digits(y) && Digits(m) && Digits(d)
      && s == y + "-" + m + "-" + d
  }

  lemma DateShapeIsPieces(s: string)
    requires DateShape(s)
    ensures DatePieces(s)
  {
    var y, m, d := s[..4], s[5..7], s[8..];
    assert Digits(y) by { forall k | 0 <= k < 4 ensures IsDigit(y[k]) { assert y[k] == s[k]; } }
    assert Digits(m) by { forall k | 0 <= k < 2 ensures IsDigit(m[k]) { assert m[k] == s[5 + k]; } }
    assert Digits(d) by { forall k | 0 <= k < 2 ensures IsDigit(d[k]) { assert d[k] == s[8 + k]; } }
    assert s == y + "-" + m + "-" + d;
  }

  lemma PiecesAreDateShape(s: string)
    requires DatePieces(s)
    ensures DateShape(s)
  {
    var y, m, d :| |y| == 4 && |m| == 2 && |d| == 2 && Digits(y) && Digits(m) && Digits(d)
      && s == y + "-" + m + "-" + d;
    DateConcat(y, m, d);
    DigitsAt(s, 0, y);
    DigitsAt(s, 5, m);
    DigitsAt(s, 8, d);
  }

  lemma DateConcat(y: string, m: string, d: string)
    requires |y| == 4 && |m| == 2 && |d| == 2
    ensures var s := y + "-" + m + "-" + d;
      && |s| == 10 && s[..4] == y && s[4] == '-' && s[5..7] == m && s[7] == '-' && s[8..] == d
  {
  }

  /** A run of digits found at `off` makes those positions of `s` digits. */
  lemma DigitsAt(s: string, off: nat, piece: string)
    requires off + |piece| <= |s| && s[off..off + |piece|] == piece && Digits(piece)
    ensures forall k :: off <= k < off + |piece| ==> IsDigit(s[k])
  {
    forall k | off <= k < off + |piece| ensures IsDigit(s[k]) {
      assert s[k] == piece[k - off];
    }
  }

  /** The position-by-position check accepts exactly the strings the grammar describes. */
  lemma DateShapeIffPieces(s: string)
    ensures DateShape(s) <==> DatePieces(s)
  {
    if DateShape(s) { DateShapeIsPieces(s); }
    if DatePieces(s) { PiecesAreDateShape(s); }
  }

  /**
    `isISODate`: the shape above, and `Date.parse` of the string with
    'T00:00:00' appended is a number (so '2024-02-30' is left to `Date.parse`).
   */
  predicate IsISODate(s: string, dateParse: Value -> Number): (ok: bool)
    ensures ok <==> DatePieces(s) && dateParse(Str(s + "T00:00:00")) != NaN
  {
    DateShapeIffPieces(s);
    DateShape(s) && dateParse(Str(s + "T00:00:00")) != NaN
  }

  // ---------------------------------------------------------------- the body checks

  /** The seven fields `postFlight` and `putFlight` read from `req.body`. */
  datatype FlightBody = FlightBody(
    fromCity: Value,
    toCity: Value,
    departureTime: Value,
    arrivalTime: Value,
    price: Value,
    seatsTotal: Value,
    seatsAvailable: Value)

  const FromCityMessage := "from_city must be a number"
  const ToCityMessage := "to_city must be a number"
  const DepartureMessage := "departure_time must be a valid datetime"
  const ArrivalMessage := "arrival_time must be a valid datetime"
  const PriceMessage := "price must be a number"
  const SeatsTotalMessage := "seats_total must be an integer"
  const SeatsAvailableMessage := "seats_available must be an integer"

  const FlightMessages: seq<string> :=
    [FromCityMessage, ToCityMessage, DepartureMessage, ArrivalMessage, PriceMessage, SeatsTotalMessage, SeatsAvailableMessage]

  /** `!x || isNaN(Date.parse(x))` negated: a truthy value that `Date.parse` reads as a time. */
  predicate TimeOk(x: Value, dateParse: Value -> Number)
  {
    Truthy(x) && dateParse(x) != NaN
  }

  /** Which checks fail, in check order. `typeof x === 'number'` lets NaN and the infinities through. */
  function FlightFailures(b: FlightBody, dateParse: Value -> Number): (failed: seq<bool>)
    ensures |failed| == |FlightMessages|
  {
    [!b.fromCity.Num?, !b.toCity.Num?, !TimeOk(b.departureTime, dateParse), !TimeOk(b.arrivalTime, dateParse),
     !b.price.Num?, !IsIntegerValue(b.seatsTotal), !IsIntegerValue(b.seatsAvailable)]
  }

  /**
    The `errors` array both handlers build, one push per failing check: empty
    exactly when every check passes, and holding only the checks' messages.
   */
  function FlightErrors(b: FlightBody, dateParse: Value -> Number): (errors: seq<string>)
    ensures errors == [] <==> Typed(b) && TimeOk(b.departureTime, dateParse) && TimeOk(b.arrivalTime, dateParse)
    ensures forall e :: e in errors ==> e in FlightMessages
  {
    var e0 := Push([], !b.fromCity.Num?, FromCityMessage);
    var e1 := Push(e0, !b.toCity.Num?, ToCityMessage);
    var e2 := Push(e1, !TimeOk(b.departureTime, dateParse), DepartureMessage);
    var e3 := Push(e2, !TimeOk(b.arrivalTime, dateParse), ArrivalMessage);
    var e4 := Push(e3, !b.price.Num?, PriceMessage);
    var e5 := Push(e4, !IsIntegerValue(b.seatsTotal), SeatsTotalMessage);
    Push(e5, !IsIntegerValue(b.seatsAvailable), SeatsAvailableMessage)
  }

  lemma FlightMessagesDistinct()
    ensures Distinct(FlightMessages)
  {
    assert |FromCityMessage| == 26 && |ToCityMessage| == 24 && |DepartureMessage| == 39;
    assert |ArrivalMessage| == 37 && |PriceMessage| == 22 && |SeatsTotalMessage| == 30;
    assert |SeatsAvailableMessage| == 34;
  }

  /** A body whose fields have the types the checks demand. */
  predicate Typed(b: FlightBody)
  {
    && b.fromCity.Num? && b.toCity.Num? && b.price.Num?
    && IsIntegerValue(b.seatsTotal) && IsIntegerValue(b.seatsAvailable)
  }

  /**
    The checks accumulate: the list is the messages of all failing checks in
    check order, a message is in it iff its check fails, and it is empty iff
    every check passes.
   */
  lemma FlightErrorsAccumulate(b: FlightBody, dateParse: Value -> Number)
    ensures FlightErrors(b, dateParse) == Collect(FlightFailures(b, dateParse), FlightMessages)
    ensures forall k :: 0 <= k < |FlightMessages| ==>
      (FlightMessages[k] in FlightErrors(b, dateParse) <==> FlightFailures(b, dateParse)[k])
    ensures FlightErrors(b, dateParse) == [] <==>
      Typed(b) && TimeOk(b.departureTime, dateParse) && TimeOk(b.arrivalTime, dateParse)
  {
    var f := FlightFailures(b, dateParse);
    FlightErrorsCollected(b, dateParse);
    FlightMessagesDistinct();
    CollectContents(f, FlightMessages);
    NoneOfSeven(f);
  }

  lemma FlightErrorsCollected(b: FlightBody, dateParse: Value -> Number)
    ensures FlightErrors(b, dateParse) == Collect(FlightFailures(b, dateParse), FlightMessages)
  {
    CollectSeven(FlightFailures(b, dateParse), FlightMessages);
  }

  lemma NoneOfSeven(f: seq<bool>)
    requires |f| == 7
    ensures (forall j :: 0 <= j < |f| ==> !f[j]) <==> !f[0] && !f[1] && !f[2] && !f[3] && !f[4] && !f[5] && !f[6]
  {
  }

  /**
    The checks put no relation between the two counters: any two integers pass,
    `seats_available` above `seats_total` or negative counts included.
   */
  lemma CountersAreUnrelated(b: FlightBody, dateParse: Value -> Number, total: int, available: int)
    requires b.fromCity.Num? && b.toCity.Num? && b.price.Num?
    requires TimeOk(b.departureTime, dateParse) && TimeOk(b.arrivalTime, dateParse)
    ensures FlightErrors(b.(seatsTotal := Num(Finite(total as real)), seatsAvailable := Num(Finite(available as real))), dateParse) == []
  {
    assert (total as real).Floor == total && (available as real).Floor == available;
  }

  /** The seven values bound to the statement, in column order; the times go through TEXT binding. */
  function ParamsOf(b: FlightBody, bindText: Value -> string): (p: FlightParams)
    requires Typed(b)
    ensures Num(p.fromCity) == b.fromCity && Num(p.toCity) == b.toCity && Num(p.price) == b.price
    ensures Num(Finite(p.seatsTotal as real)) == b.seatsTotal && Num(Finite(p.seatsAvailable as real)) == b.seatsAvailable
  {
    FlightParams(b.fromCity.n, b.toCity.n, bindText(b.departureTime), bindText(b.arrivalTime), b.price.n,
                 IntOf(b.seatsTotal), IntOf(b.seatsAvailable))
  }

  // ---------------------------------------------------------------- handlers

  const InvalidIdMessage := "Invalid flight ID"
  const NotFoundMessage := "Flight not found"

  /**
    `postFlight`: 400 with every failing check's message and nothing written;
    otherwise 201 with the created flight and its seats, or the service's
    rejection handed to `next` with the store untouched.
   */
  function PostFlight(s: Store, b: FlightBody, dateParse: Value -> Number, bindText: Value -> string): (o: Outcome<FlightView>)
    ensures o.reply.Respond? && o.reply.status == 400 <==> FlightErrors(b, dateParse) != []
    ensures FlightErrors(b, dateParse) != [] ==> o == Outcome(s, Respond(400, Errors(FlightErrors(b, dateParse))))
    ensures o.reply.Respond? && o.reply.status != 400 ==>
      && o.reply.status == 201 && Typed(b) && o.reply.body.Data?
      && CreateFlight(s, ParamsOf(b, bindText)) == Success(Committed(o.store, o.reply.body.data))
    ensures o.reply.Next? ==>
      && o.store == s && Typed(b)
      && RowViolation(s, ParamsOf(b, bindText)).Some?
      && o.reply.err == Rejection(RowViolation(s, ParamsOf(b, bindText)).value)
  {
    var errors := FlightErrors(b, dateParse);
    FlightErrorsAccumulate(b, dateParse);
    if errors != [] then Outcome(s, Respond(400, Errors(errors)))
    else
      match CreateFlight(s, ParamsOf(b, bindText))
      case Success(c) => Outcome(c.store, Respond(201, Data(c.value)))
      case Failure(e) => Outcome(s, Next(Rejection(e)))
  }

  /**
    A created flight's stored `seats_available` is the body's, whatever the
    seats it got: the store stays consistent exactly when the caller sent
    `max(seats_total, 0)`.
   */
  lemma PostFlightKeepsCounterAsSent(s: Store, b: FlightBody, dateParse: Value -> Number, bindText: Value -> string)
    requires Consistent(s)
    requires PostFlight(s, b, dateParse, bindText).reply.Respond?
    requires PostFlight(s, b, dateParse, bindText).reply.status == 201
    ensures var o := PostFlight(s, b, dateParse, bindText);
      var fid := o.reply.body.data.flightId;
      && fid in o.store.flights
      && Num(Finite(o.store.flights[fid].seatsAvailable as real)) == b.seatsAvailable
      && (Consistent(o.store) <==> IntOf(b.seatsAvailable) == (if IntOf(b.seatsTotal) > 0 then IntOf(b.seatsTotal) else 0))
  {
    CreateFlightConsistentIff(s, ParamsOf(b, bindText));
  }

  /**
    `typeof NaN === 'number'`, so a NaN price passes the checks; it binds as
    NULL and the NOT NULL constraint rejects the row, which the client sees as 500.
   */
  lemma NaNPriceIs500(s: Store, b: FlightBody, dateParse: Value -> Number, bindText: Value -> string)
    requires FlightErrors(b, dateParse) == []
    requires b.price == Num(NaN) && b.fromCity != Num(NaN) && b.toCity != Num(NaN)
    ensures var o := PostFlight(s, b, dateParse, bindText);
      && o.store == s && o.reply.Next?
      && HandleError(o.reply.err) == ErrorResponse(FiveHundred, Str(Message(NotNullViolation("price"))))
  {
    FlightErrorsAccumulate(b, dateParse);
    ServiceErrorsAre500(NotNullViolation("price"));
  }

  /**
    `putFlight`: 400 'Invalid flight ID' when the path id is NaN; then the
    body checks; 404 'Flight not found' when no row has that id (a fractional
    or infinite id included); otherwise 200 with the rewritten flight and its
    unchanged seats, or the service's rejection handed to `next`.
   */
  function PutFlight(s: Store, idText: string, b: FlightBody, toNumber: string -> Number,
                     dateParse: Value -> Number, bindText: Value -> string): (o: Outcome<FlightView>)
    ensures o.reply == Refuse(400, InvalidIdMessage) <==> toNumber(idText) == NaN
    ensures toNumber(idText) != NaN && FlightErrors(b, dateParse) != [] <==>
      o.reply == Respond(400, Errors(FlightErrors(b, dateParse)))
    ensures o.reply == Refuse(404, NotFoundMessage) <==>
      && toNumber(idText) != NaN && FlightErrors(b, dateParse) == []
      && (KeyOf(toNumber(idText)).None? || KeyOf(toNumber(idText)).value !in s.flights)
    ensures o.reply.Respond? && o.reply.status == 200 ==>
      var key := KeyOf(toNumber(idText)).value;
      && Typed(b) && RowViolation(s, ParamsOf(b, bindText)).None?
      && key in s.flights
      && o.store == s.(flights := s.flights[key := FlightOf(s, ParamsOf(b, bindText))])
      && o.reply.body == Data(View(o.store, key))
      && o.reply.body.data.seats == GetSeatsByFlightId(s, key)
    ensures o.reply.Next? ==>
      && o.store == s && Typed(b)
      && RowViolation(s, ParamsOf(b, bindText)).Some?
      && o.reply.err == Rejection(RowViolation(s, ParamsOf(b, bindText)).value)
    ensures o.reply.Respond? && o.reply.status != 200 ==> o.store == s
    ensures && toNumber(idText) != NaN && FlightErrors(b, dateParse) == []
            && KeyOf(toNumber(idText)).Some? && KeyOf(toNumber(idText)).value in s.flights
            ==> (o.reply.Respond? && o.reply.status == 200 <==> RowViolation(s, ParamsOf(b, bindText)).None?)
    ensures && toNumber(idText) != NaN && FlightErrors(b, dateParse) == []
            && KeyOf(toNumber(idText)).Some? && KeyOf(toNumber(idText)).value in s.flights
            ==> (o.reply.Next? <==> RowViolation(s, ParamsOf(b, bindText)).Some?)
  {
    var id := toNumber(idText);
    if id == NaN then Outcome(s, Refuse(400, InvalidIdMessage))
    else
      var errors := FlightErrors(b, dateParse);
      FlightErrorsAccumulate(b, dateParse);
      if errors != [] then Outcome(s, Respond(400, Errors(errors)))
      else
        match UpdateFlight(s, id, ParamsOf(b, bindText))
        case Failure(e) => Outcome(s, Next(Rejection(e)))
        case Success(c) =>
          if c.value == 0 then Outcome(s, Refuse(404, NotFoundMessage))
          else
            var key := KeyOf(id).value;
            Outcome(c.store, Respond(200, Data(View(c.store, key))))
  }

  /**
    `deleteFlight`: 400 for a NaN id, 404 when no row has the id, 204 with an
    empty body once the row is gone, and the foreign-key rejection handed to
    `next` while seats or tickets still reference the flight.
   */
  function DeleteFlightRoute(s: Store, idText: string, toNumber: string -> Number): (o: Outcome<()>)
    ensures o.reply == Refuse(400, InvalidIdMessage) <==> toNumber(idText) == NaN
    ensures o.reply == Refuse(404, NotFoundMessage) <==>
      toNumber(idText) != NaN && (KeyOf(toNumber(idText)).None? || KeyOf(toNumber(idText)).value !in s.flights)
    ensures o.reply.Next? <==>
      toNumber(idText) != NaN && DeleteFlight(s, toNumber(idText)) == Failure(ForeignKeyViolation)
    ensures o.reply.Next? ==> o.store == s && o.reply.err == Rejection(ForeignKeyViolation)
    ensures o.reply == Respond(204, Empty) <==>
      && toNumber(idText) != NaN && KeyOf(toNumber(idText)).Some? && KeyOf(toNumber(idText)).value in s.flights
      && DeleteFlight(s, toNumber(idText)).Success?
    ensures o.reply == Respond(204, Empty) ==> o.store == s.(flights := s.flights - {KeyOf(toNumber(idText)).value})
    ensures o.reply != Respond(204, Empty) ==> o.store == s
  {
    var id := toNumber(idText);
    if id == NaN then Outcome(s, Refuse(400, InvalidIdMessage))
    else
      match DeleteFlight(s, id)
      case Failure(e) => Outcome(s, Next(Rejection(e)))
      case Success(c) =>
        if c.value == 0 then Outcome(s, Refuse(404, NotFoundMessage))
        else Outcome(c.store, Respond(204, Empty))
  }

  /**
    A flight just created through `postFlight` with at least one seat cannot be
    deleted through `deleteFlight`: its seeded seats block the delete and the
    client sees 500 with SQLite's foreign-key message.
   */
  lemma CreatedFlightDeleteIs500(s: Store, b: FlightBody, dateParse: Value -> Number, bindText: Value -> string,
                                  idText: string, toNumber: string -> Number)
    requires SeatsReferenceFlights(s)
    requires PostFlight(s, b, dateParse, bindText).reply.Respond?
    requires PostFlight(s, b, dateParse, bindText).reply.status == 201
    requires IntOf(b.seatsTotal) >= 1
    requires toNumber(idText) == Finite(PostFlight(s, b, dateParse, bindText).reply.body.data.flightId as real)
    ensures var t := PostFlight(s, b, dateParse, bindText).store;
      var o := DeleteFlightRoute(t, idText, toNumber);
      && o.store == t && o.reply.Next?
      && HandleError(o.reply.err) == ErrorResponse(FiveHundred, Str(Message(ForeignKeyViolation)))
  {
    SeededFlightCannotBeDeleted(s, ParamsOf(b, bindText));
    ServiceErrorsAre500(ForeignKeyViolation);
  }

  // ---------------------------------------------------------------- the filtered listing

  const InvalidOriginMessage := "Invalid origin: must be a number"
  const InvalidDestinationMessage := "Invalid destination: must be a number"
  const InvalidDateMessage := "Invalid date: must be YYYY-MM-DD"

  /**
    The query checks of `getFilteredFlights`, which stop at the first failure:
    origin, then destination, then date. A present origin or destination is
    kept as `Number(...)` of it; a present date is kept as sent.
   */
  function ParseQuery(origin: Option<string>, destination: Option<string>, date: Option<string>,
                      toNumber: string -> Number, dateParse: Value -> Number): (r: Result<Filters, string>)
    ensures r == Failure(InvalidOriginMessage) <==> origin.Some? && toNumber(origin.value) == NaN
    ensures r == Failure(InvalidDestinationMessage) <==>
      (origin.None? || toNumber(origin.value) != NaN) && destination.Some? && toNumber(destination.value) == NaN
    ensures r == Failure(InvalidDateMessage) <==>
      && (origin.None? || toNumber(origin.value) != NaN)
      && (destination.None? || toNumber(destination.value) != NaN)
      && date.Some? && !IsISODate(date.value, dateParse)
    ensures r.Success? <==>
      && (origin.None? || toNumber(origin.value) != NaN)
      && (destination.None? || toNumber(destination.value) != NaN)
      && (date.None? || IsISODate(date.value, dateParse))
    ensures r.Success? ==>
      && (r.value.origin.Some? <==> origin.Some?)
      && (origin.Some? ==> r.value.origin.value == toNumber(origin.value))
      && (r.value.destination.Some? <==> destination.Some?)
      && (destination.Some? ==> r.value.destination.value == toNumber(destination.value))
      && r.value.date == date
      && (date.Some? ==> DateShape(date.value))
  {
    if origin.Some? && toNumber(origin.value) == NaN then Failure(InvalidOriginMessage)
    else if destination.Some? && toNumber(destination.value) == NaN then Failure(InvalidDestinationMessage)
    else if date.Some? && !IsISODate(date.value, dateParse) then Failure(InvalidDateMessage)
    else
      Success(Filters(
        if origin.Some? then Some(toNumber(origin.value)) else None,
        if destination.Some? then Some(toNumber(destination.value)) else None,
        date))
  }

  /**
    `getFilteredFlights`: 400 with the first failing query check's message;
    otherwise 200 with exactly the flights the parsed filters match, each with
    its seats, ordered by departure time.
   */
  method GetFilteredFlights(s: Store, origin: Option<string>, destination: Option<string>, date: Option<string>,
                            toNumber: string -> Number, dateParse: Value -> Number, sqlDate: string -> Option<string>)
    returns (reply: Reply<seq<FlightView>>)
    ensures reply.Respond?
    ensures reply.status == 400 <==> ParseQuery(origin, destination, date, toNumber, dateParse).Failure?
    ensures reply.status == 400 ==> reply == Refuse(400, ParseQuery(origin, destination, date, toNumber, dateParse).error)
    ensures reply.status != 400 ==>
      var filters := ParseQuery(origin, destination, date, toNumber, dateParse).value;
      && reply.status == 200 && reply.body.Data?
      && SortedByDeparture(reply.body.data) && DistinctIds(reply.body.data)
      && (forall fid :: fid in Ids(reply.body.data) <==> fid in s.flights && MatchesFilters(s.flights[fid], filters, sqlDate))
      && (forall i :: 0 <= i < |reply.body.data| ==> reply.body.data[i] == View(s, reply.body.data[i].flightId))
  {
    match ParseQuery(origin, destination, date, toNumber, dateParse)
    case Failure(message) =>
      reply := Refuse(400, message);
    case Success(filters) =>
      var flights := FilterFlights(s, filters, sqlDate);
      reply := Respond(200, Data(flights));
  }

  /**
    `?origin=0` (or anything `Number` reads as 0, such as an empty value) passes
    the check but is falsy, so it filters exactly as if no origin were given.
   */
  lemma ZeroOriginIsNoOrigin(origin: string, destination: Option<string>, date: Option<string>,
                             toNumber: string -> Number, dateParse: Value -> Number, sqlDate: string -> Option<string>, f: Flight)
    requires toNumber(origin) == Finite(0.0)
    requires ParseQuery(None, destination, date, toNumber, dateParse).Success?
    ensures ParseQuery(Some(origin), destination, date, toNumber, dateParse).Success?
    ensures MatchesFilters(f, ParseQuery(Some(origin), destination, date, toNumber, dateParse).value, sqlDate)
        <==> MatchesFilters(f, ParseQuery(None, destination, date, toNumber, dateParse).value, sqlDate)
  {
  }

  /** A non-integral origin passes the check but equals no City id, so nothing matches it. */
  lemma FractionalOriginMatchesNothing(filters: Filters, sqlDate: string -> Option<string>, f: Flight)
    requires filters.origin.Some? && filters.origin.value.Finite? && !IsInteger(filters.origin.value)
    ensures !MatchesFilters(f, filters, sqlDate)
  {
    assert (f.fromCity as real).Floor == f.fromCity;
  }

  // ---------------------------------------------------------------- the admin chain

  /**
    A flight-changing route: `authenticate` and `authorizeAdmin` run first and
    answer on their own when they refuse; otherwise the handler's outcome stands.
   */
  function AdminOnly<T>(header: Option<string>, verify: string -> Option<Claims>, s: Store, handled: Outcome<T>): (o: Outcome<T>)
    ensures AdminGate(header, verify).Deny? ==>
      o == Outcome(s, Refuse(AdminGate(header, verify).status, AdminGate(header, verify).error))
    ensures AdminGate(header, verify).Proceed? ==> o == handled
  {
    match AdminGate(header, verify)
    case Deny(status, error) => Outcome(s, Refuse(status, error))
    case Proceed(_) => handled
  }

  /**
    Through the chain, no request changes the flights unless it carries a
    Bearer header whose token verifies to a payload with a truthy `isAdmin`;
    every refusal of the chain is 401 or 403.
   */
  lemma OnlyAdminsChangeFlights<T>(header: Option<string>, verify: string -> Option<Claims>, s: Store, handled: Outcome<T>)
    ensures var o := AdminOnly(header, verify, s, handled);
      o.store != s ==>
        header.Some? && exists tok :: BearerShaped(header.value, tok) && verify(tok).Some? && Truthy(verify(tok).value.isAdmin)
    ensures AdminGate(header, verify).Deny? ==> AdminOnly(header, verify, s, handled).reply.status in {401, 403}
  {
    AdminGatePasses(header, verify);
  }
}
