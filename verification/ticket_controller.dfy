/**
  `postTicket` of `src/controllers/TicketController.js`: field checks that
  accumulate messages, then the booking transaction.
 */
module TicketController {
  import opened Wrappers
  import opened Js
  import opened Text
  import opened Ledger
  import opened TicketService
  import opened Http
  import opened ErrorHandler

  /** The five fields `postTicket` reads from `req.body`; an absent field is `Undefined`. */
  datatype TicketBody = TicketBody(
    passengerName: Value,
    passengerSurname: Value,
    passengerEmail: Value,
    flightId: Value,
    seatNumber: Value)

  // ---------------------------------------------------------------- the email pattern

  /** A piece the email pattern's `[^\s@]+` can consume: neither whitespace nor '@'. */
  predicate PatternChars(t: string)
  {
    forall k :: 0 <= k < |t| ==> !IsSpace(t[k]) && t[k] != '@'
  }

  /**
    `/^[^\s@]+@[^\s@]+\.[^\s@]+$/` as a language: the string splits at some '@'
    at `i` and some '.' at `j` into three non-empty pieces free of whitespace and '@'.
   */
  ghost predicate MatchesEmailPattern(s: string)
  {
    exists i, j :: 0 < i && i + 1 < j && j + 1 < |s|
      && s[i] == '@' && s[j] == '.'
      && PatternChars(s[..i]) && PatternChars(s[i + 1..j]) && PatternChars(s[j + 1..])
  }

  /**
    The check as the code can run it: no whitespace, one '@' that is not the
    first character, and a '.' strictly inside what follows it.
   */
  predicate ValidEmail(s: string)
  {
    var i := IndexOf(s, '@');
    && NoSpace(s)
    && 0 < i && i + 2 < |s|
    && '@' !in s[i + 1..]
    && '.' in s[i + 2..|s| - 1]
  }

  lemma ValidEmailMatchesPattern(s: string)
    requires ValidEmail(s)
    ensures MatchesEmailPattern(s)
  {
    var i := IndexOf(s, '@');
    var t := s[i + 2..|s| - 1];
    var m :| 0 <= m < |t| && t[m] == '.';
    var j := i + 2 + m;
    assert s[j] == '.';
    assert PatternChars(s[..i]);
    var after := s[i + 1..];
    var mid := s[i + 1..j];
    assert PatternChars(mid) by {
      forall k | 0 <= k < |mid| ensures !IsSpace(mid[k]) && mid[k] != '@' {
        assert mid[k] == after[k];
      }
    }
    var last := s[j + 1..];
    assert PatternChars(last) by {
      forall k | 0 <= k < |last| ensures !IsSpace(last[k]) && last[k] != '@' {
        assert last[k] == after[j - i + k];
      }
    }
  }

  lemma PatternMatchesValidEmail(s: string)
    requires MatchesEmailPattern(s)
    ensures ValidEmail(s)
  {
    var i, j :| 0 < i && i + 1 < j && j + 1 < |s|
      && s[i] == '@' && s[j] == '.'
      && PatternChars(s[..i]) && PatternChars(s[i + 1..j]) && PatternChars(s[j + 1..]);
    PiecesJoined(s, i, j);
    assert IndexOf(s, '@') == i by {
      IndexOfAt(s, '@', i);
    }
    var after := s[i + 1..];
    assert '@' !in after by {
      forall k | 0 <= k < |after| ensures after[k] != '@' {
        assert after[k] == s[i + 1 + k];
      }
    }
    assert s[i + 2..|s| - 1][j - i - 2] == '.';
  }

  /** Three pattern pieces around an '@' and a '.' leave no whitespace and no other '@'. */
  lemma PiecesJoined(s: string, i: nat, j: nat)
    requires i < j < |s| && s[i] == '@' && s[j] == '.'
    requires PatternChars(s[..i]) && PatternChars(s[i + 1..j]) && PatternChars(s[j + 1..])
    ensures NoSpace(s)
    ensures forall k :: 0 <= k < |s| && s[k] == '@' ==> k == i
  {
    var a, b, c := s[..i], s[i + 1..j], s[j + 1..];
    forall k | 0 <= k < i ensures !IsSpace(s[k]) && s[k] != '@' {
      assert s[k] == a[k];
    }
    forall k | i < k < j ensures !IsSpace(s[k]) && s[k] != '@' {
      assert s[k] == b[k - i - 1];
    }
    forall k | j < k < |s| ensures !IsSpace(s[k]) && s[k] != '@' {
      assert s[k] == c[k - j - 1];
    }
  }

  /** The executable email check accepts exactly the strings the pattern matches. */
  lemma ValidEmailIffPattern(s: string)
    ensures ValidEmail(s) <==> MatchesEmailPattern(s)
  {
    if ValidEmail(s) { ValidEmailMatchesPattern(s); }
    if MatchesEmailPattern(s) { PatternMatchesValidEmail(s); }
  }

  // ---------------------------------------------------------------- the field checks

  /** `typeof x === 'string' && x.trim()`: a string with a non-whitespace character. */
  predicate FilledString(x: Value)
  {
    x.Str? && Trim(x.s) != []
  }

  predicate EmailOk(x: Value)
  {
    x.Str? && ValidEmail(x.s)
  }

  /** `typeof flight_id === 'number' && !Number.isNaN(flight_id)`. */
  predicate FlightIdOk(x: Value)
  {
    x.Num? && x.n != NaN
  }

  /** An absent `seat_number`, or a number (NaN and the infinities included). */
  predicate SeatNumberOk(x: Value)
  {
    x.Undefined? || x.Num?
  }

  const NameMessage := "passenger_name is required"
  const SurnameMessage := "passenger_surname is required"
  const EmailMessage := "passenger_email must be a valid email"
  const FlightIdMessage := "flight_id must be a number"
  const SeatNumberMessage := "seat_number must be number when provided"

  /** The messages in the order the checks run. */
  const TicketMessages: seq<string> := [NameMessage, SurnameMessage, EmailMessage, FlightIdMessage, SeatNumberMessage]

  /** Which of the checks fail, in the same order. */
  function TicketFailures(b: TicketBody): (failed: seq<bool>)
    ensures |failed| == |TicketMessages|
  {
    [!FilledString(b.passengerName), !FilledString(b.passengerSurname), !EmailOk(b.passengerEmail),
     !FlightIdOk(b.flightId), !SeatNumberOk(b.seatNumber)]
  }

  /**
    The `errors` array `postTicket` builds, one push per failing check: empty
    exactly when every check passes, and holding only the checks' messages.
   */
  function TicketErrors(b: TicketBody): (errors: seq<string>)
    ensures errors == [] <==>
      FilledString(b.passengerName) && FilledString(b.passengerSurname) && EmailOk(b.passengerEmail)
      && FlightIdOk(b.flightId) && SeatNumberOk(b.seatNumber)
    ensures forall e :: e in errors ==> e in TicketMessages
  {
    var e0 := Push([], !FilledString(b.passengerName), NameMessage);
    var e1 := Push(e0, !FilledString(b.passengerSurname), SurnameMessage);
    var e2 := Push(e1, !EmailOk(b.passengerEmail), EmailMessage);
    var e3 := Push(e2, !FlightIdOk(b.flightId), FlightIdMessage);
    Push(e3, !SeatNumberOk(b.seatNumber), SeatNumberMessage)
  }

  lemma TicketMessagesDistinct()
    ensures Distinct(TicketMessages)
  {
    assert |NameMessage| == 26 && |SurnameMessage| == 29 && |EmailMessage| == 37;
    assert |FlightIdMessage| == 26 && |SeatNumberMessage| == 40;
    assert NameMessage[0] != FlightIdMessage[0];
  }

  /**
    The checks accumulate rather than stop at the first failure: the list is
    the messages of all failing checks in check order, a message is in it iff
    its check fails, and it is empty iff every check passes.
   */
  lemma TicketErrorsAccumulate(b: TicketBody)
    ensures TicketErrors(b) == Collect(TicketFailures(b), TicketMessages)
    ensures forall k :: 0 <= k < |TicketMessages| ==> (TicketMessages[k] in TicketErrors(b) <==> TicketFailures(b)[k])
    ensures TicketErrors(b) == [] <==>
      FilledString(b.passengerName) && FilledString(b.passengerSurname) && EmailOk(b.passengerEmail)
      && FlightIdOk(b.flightId) && SeatNumberOk(b.seatNumber)
  {
    var f := TicketFailures(b);
    TicketErrorsCollected(b);
    TicketMessagesDistinct();
    CollectContents(f, TicketMessages);
    NoneOfFive(f);
  }

  lemma TicketErrorsCollected(b: TicketBody)
    ensures TicketErrors(b) == Collect(TicketFailures(b), TicketMessages)
  {
    CollectFive(TicketFailures(b), TicketMessages);
  }

  lemma NoneOfFive(f: seq<bool>)
    requires |f| == 5
    ensures (forall j :: 0 <= j < |f| ==> !f[j]) <==> !f[0] && !f[1] && !f[2] && !f[3] && !f[4]
  {
  }

  /** The request the service receives once the checks pass. */
  function RequestOf(b: TicketBody): (req: TicketRequest)
    requires TicketErrors(b) == []
    ensures req.seatNumber.None? <==> b.seatNumber == Undefined
    ensures Str(req.passengerName) == b.passengerName && Num(req.flightId) == b.flightId
  {
    TicketRequest(b.passengerName.s, b.passengerSurname.s, b.passengerEmail.s, b.flightId.n,
                  if b.seatNumber.Num? then Some(b.seatNumber.n) else None)
  }

  /**
    `postTicket`: 400 with every failing check's message, without calling the
    service; otherwise 201 with the booked ticket, or the service's rejection
    handed to `next` with the store untouched.
   */
  function PostTicket(s: Store, b: TicketBody): (o: Outcome<BookedTicket>)
    ensures o.reply.Respond? && o.reply.status == 400 <==> TicketErrors(b) != []
    ensures TicketErrors(b) != [] ==> o == Outcome(s, Respond(400, Errors(TicketErrors(b))))
    ensures o.reply.Respond? && o.reply.status == 201 ==>
      TicketErrors(b) == [] && o.reply.body.Data? && Books(s, RequestOf(b), Committed(o.store, o.reply.body.data))
    ensures TicketErrors(b) == [] && CreateTicket(s, RequestOf(b)).Success? ==>
      var c := CreateTicket(s, RequestOf(b)).value;
      o == Outcome(c.store, Respond(201, Data(c.value)))
    ensures TicketErrors(b) == [] && CreateTicket(s, RequestOf(b)).Failure? ==>
      o == Outcome(s, Next(Rejection(CreateTicket(s, RequestOf(b)).error)))
    ensures o.reply.Next? ==>
      && o.store == s
      && TicketErrors(b) == []
      && CreateTicket(s, RequestOf(b)).Failure?
      && o.reply.err == Rejection(CreateTicket(s, RequestOf(b)).error)
  {
    var errors := TicketErrors(b);
    if errors != [] then Outcome(s, Respond(400, Errors(errors)))
    else
      match CreateTicket(s, RequestOf(b))
      case Success(c) => Outcome(c.store, Respond(201, Data(c.value)))
      case Failure(e) => Outcome(s, Next(Rejection(e)))
  }

  /**
    A well-formed request whose seat the lookup finds free, on an existing
    flight, is booked: 201 with that seat's ticket, and the store records it.
   */
  lemma ValidBookingIs201(s: Store, b: TicketBody)
    requires TicketErrors(b) == []
    requires var req := RequestOf(b);
      var found := FindSeat(s, req.flightId, req.seatNumber);
      found.Some? && !s.seats[found.value].isBooked && s.seats[found.value].flightId in s.flights
    ensures var o := PostTicket(s, b);
      && o.reply.Respond? && o.reply.status == 201 && o.reply.body.Data?
      && o.reply.body.data.ticket.seatId == FindSeat(s, RequestOf(b).flightId, RequestOf(b).seatNumber).value
      && Books(s, RequestOf(b), Committed(o.store, o.reply.body.data))
  {
  }

  /**
    A well-formed request for a seat that is already booked reaches the client,
    through the error handler, as 500 'Seat already booked'; a request without
    `seat_number` as 500 'Seat not found or does not belong to this flight'.
   */
  lemma BookingRejectionsAre500(s: Store, b: TicketBody)
    requires TicketErrors(b) == []
    ensures var o := PostTicket(s, b);
      && (b.seatNumber == Undefined ==>
            o.reply.Next? && HandleError(o.reply.err) == ErrorResponse(FiveHundred, Str(Message(SeatNotFound))))
      && (CreateTicket(s, RequestOf(b)) == Failure(SeatAlreadyBooked) ==>
            o.reply.Next? && HandleError(o.reply.err) == ErrorResponse(FiveHundred, Str(Message(SeatAlreadyBooked))))
  {
    ServiceErrorsAre500(SeatNotFound);
    ServiceErrorsAre500(SeatAlreadyBooked);
  }
}
