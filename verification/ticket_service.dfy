/**
  The ticket transactions of `src/services/TicketService.js`. Each
  BEGIN … COMMIT / ROLLBACK chain is one pure function from the store: a
  `Failure` carries no store, so the caller keeps the store it had, which is
  the state ROLLBACK restores.
 */
module TicketService {
  import opened Wrappers
  import opened Js
  import opened Ledger

  /**
    What `createTicket` receives: the passenger strings, the `flight_id` number,
    and the optional `seat_number` number (`None` when the body had none).
   */
  datatype TicketRequest = TicketRequest(
    passengerName: string,
    passengerSurname: string,
    passengerEmail: string,
    flightId: Number,
    seatNumber: Option<Number>)

  /** The row `createTicket` resolves with: the new ticket joined with its seat's label. */
  datatype BookedTicket = BookedTicket(ticketId: int, ticket: Ticket, seatNumber: nat)

  /** A row of `getAllTickets` / `getTicketById`: a ticket joined with its seat's label and flag. */
  datatype TicketListing = TicketListing(ticketId: int, ticket: Ticket, seatNumber: nat, isBooked: bool)

  /**
    node-sqlite3 binds a number equal to its 32-bit integer conversion as an
    INTEGER and every other number as a REAL.
   */
  const BindIntLimit: int := 0x8000_0000

  /**
    `WHERE flight_id = ? AND seat_number = ?` on one Seat row. `flight_id` is
    an INTEGER column, so the bound number is compared numerically.
    `seat_number` is a TEXT column holding the label's decimal text, so the
    bound number is compared as text: an INTEGER binding reads as the label's
    text, but a REAL one reads with a fractional part ('2147483648.0'), so a
    label of 2^31 or more never matches. A missing seat number binds NULL,
    which equals nothing.
   */
  predicate SeatMatches(seat: Seat, flightId: Number, seatNumber: Option<Number>)
  {
    && flightId == Finite(seat.flightId as real)
    && seat.seatNumber < BindIntLimit
    && seatNumber == Some(Finite(seat.seatNumber as real))
  }

  /**
    The seat the lookup's `db.get` returns. Seat has no index on these columns,
    so the scan runs in rowid order and the first match is the least seat id.
   */
  function FindSeat(s: Store, flightId: Number, seatNumber: Option<Number>): (r: Option<int>)
    ensures r.None? <==> forall sid :: sid in s.seats ==> !SeatMatches(s.seats[sid], flightId, seatNumber)
    ensures r.Some? ==> r.value in s.seats && SeatMatches(s.seats[r.value], flightId, seatNumber)
    ensures r.Some? ==> forall sid :: sid in s.seats && SeatMatches(s.seats[sid], flightId, seatNumber) ==> r.value <= sid
  {
    var matching := set sid | sid in s.seats && SeatMatches(s.seats[sid], flightId, seatNumber);
    assert forall sid :: sid in s.seats && SeatMatches(s.seats[sid], flightId, seatNumber) ==> sid in matching;
    if matching == {} then None else Some(Min(matching))
  }

  /**
    The committed effect of a booking: the seat the lookup finds for the
    request was free and becomes booked, one ticket with the next AUTOINCREMENT
    id and the passenger fields is added, that flight's counter drops by one,
    and nothing else in the store changes.
   */
  ghost predicate Books(s: Store, req: TicketRequest, c: Committed<BookedTicket>)
  {
    var b := c.value;
    var sid := b.ticket.seatId;
    var fid := b.ticket.flightId;
    && FindSeat(s, req.flightId, req.seatNumber) == Some(sid)
    && b.ticketId == NextId(s.ticketSeq, s.tickets.Keys)
    && sid in s.seats
    && fid in s.flights
    && SeatMatches(s.seats[sid], req.flightId, req.seatNumber)
    && !s.seats[sid].isBooked
    && s.seats[sid].flightId == fid
    && b.ticket == Ticket(req.passengerName, req.passengerSurname, req.passengerEmail, fid, sid)
    && b.seatNumber == s.seats[sid].seatNumber
    && b.ticketId !in s.tickets
    && c.store == s.(
         seats := s.seats[sid := s.seats[sid].(isBooked := true)],
         tickets := s.tickets[b.ticketId := b.ticket],
         flights := s.flights[fid := s.flights[fid].(seatsAvailable := s.flights[fid].seatsAvailable - 1)],
         ticketSeq := b.ticketId)
  }

  /**
    `createTicket`: look the seat up, reject a missing or booked seat, mark it
    booked, insert the ticket (whose flight must exist: Ticket.flight_id is a
    foreign key) and decrement the flight's `seats_available`.
   */
  function CreateTicket(s: Store, req: TicketRequest): (r: Result<Committed<BookedTicket>, Error>)
    ensures r == Failure(SeatNotFound) <==> FindSeat(s, req.flightId, req.seatNumber).None?
    ensures r == Failure(SeatAlreadyBooked) <==>
      (FindSeat(s, req.flightId, req.seatNumber).Some? && s.seats[FindSeat(s, req.flightId, req.seatNumber).value].isBooked)
    ensures r == Failure(ForeignKeyViolation) <==>
      (FindSeat(s, req.flightId, req.seatNumber).Some?
       && !s.seats[FindSeat(s, req.flightId, req.seatNumber).value].isBooked
       && s.seats[FindSeat(s, req.flightId, req.seatNumber).value].flightId !in s.flights)
    ensures r.Success? <==>
      (FindSeat(s, req.flightId, req.seatNumber).Some?
       && !s.seats[FindSeat(s, req.flightId, req.seatNumber).value].isBooked
       && s.seats[FindSeat(s, req.flightId, req.seatNumber).value].flightId in s.flights)
    ensures req.seatNumber.None? ==> r == Failure(SeatNotFound)
    ensures r.Success? ==> Books(s, req, r.value)
    ensures r.Success? ==> req.seatNumber == Some(Finite(r.value.value.seatNumber as real))
  {
    match FindSeat(s, req.flightId, req.seatNumber)
    case None => Failure(SeatNotFound)
    case Some(sid) =>
      var seat := s.seats[sid];
      if seat.isBooked then Failure(SeatAlreadyBooked)
      else if seat.flightId !in s.flights then Failure(ForeignKeyViolation)
      else
        var tid := NextId(s.ticketSeq, s.tickets.Keys);
        var ticket := Ticket(req.passengerName, req.passengerSurname, req.passengerEmail, seat.flightId, sid);
        var flight := s.flights[seat.flightId];
        var after := s.(
          seats := s.seats[sid := seat.(isBooked := true)],
          tickets := s.tickets[tid := ticket],
          flights := s.flights[seat.flightId := flight.(seatsAvailable := flight.seatsAvailable - 1)],
          ticketSeq := tid);
        Success(Committed(after, BookedTicket(tid, ticket, seat.seatNumber)))
  }

  /**
    `deleteTicket`: an unknown id rolls back and resolves 0; otherwise the ticket
    row goes, its seat is set free, its flight's counter rises by one, and the
    call resolves the DELETE's change count, 1. The two UPDATEs change nothing
    when their row is missing.
   */
  function DeleteTicket(s: Store, id: int): (r: Committed<nat>)
    ensures id !in s.tickets ==> r == Committed(s, 0)
    ensures id in s.tickets ==> r.value == 1 && r.store.tickets == s.tickets - {id}
    ensures id in s.tickets ==>
      var t := s.tickets[id];
      && r.store.seats.Keys == s.seats.Keys
      && (forall sid :: sid in s.seats && sid != t.seatId ==> r.store.seats[sid] == s.seats[sid])
      && (t.seatId in s.seats ==> r.store.seats[t.seatId] == s.seats[t.seatId].(isBooked := false))
      && r.store.flights.Keys == s.flights.Keys
      && (forall fid :: fid in s.flights && fid != t.flightId ==> r.store.flights[fid] == s.flights[fid])
      && (t.flightId in s.flights ==>
            r.store.flights[t.flightId] == s.flights[t.flightId].(seatsAvailable := s.flights[t.flightId].seatsAvailable + 1))
      && r.store.cities == s.cities
    ensures r.store.flightSeq == s.flightSeq && r.store.seatSeq == s.seatSeq && r.store.ticketSeq == s.ticketSeq
  {
    if id !in s.tickets then Committed(s, 0)
    else
      var t := s.tickets[id];
      var seats := if t.seatId in s.seats then s.seats[t.seatId := s.seats[t.seatId].(isBooked := false)] else s.seats;
      var flights :=
        if t.flightId in s.flights
        then s.flights[t.flightId := s.flights[t.flightId].(seatsAvailable := s.flights[t.flightId].seatsAvailable + 1)]
        else s.flights;
      Committed(s.(tickets := s.tickets - {id}, seats := seats, flights := flights), 1)
  }

  /** `getTicketById`: the ticket joined with its seat, or nothing (an inner join drops a ticket without seat). */
  function GetTicketById(s: Store, id: int): (r: Option<TicketListing>)
    ensures r.Some? <==> id in s.tickets && s.tickets[id].seatId in s.seats
    ensures r.Some? ==>
      && r.value.ticketId == id
      && r.value.ticket == s.tickets[id]
      && r.value.seatNumber == s.seats[s.tickets[id].seatId].seatNumber
      && r.value.isBooked == s.seats[s.tickets[id].seatId].isBooked
  {
    if id in s.tickets && s.tickets[id].seatId in s.seats then
      var seat := s.seats[s.tickets[id].seatId];
      Some(TicketListing(id, s.tickets[id], seat.seatNumber, seat.isBooked))
    else None
  }

  /** `getAllTickets`: every ticket joined with its seat, in no promised order. */
  function GetAllTickets(s: Store): (r: set<TicketListing>)
    ensures forall row :: row in r <==> GetTicketById(s, row.ticketId) == Some(row)
  {
    set tid | tid in s.tickets && s.tickets[tid].seatId in s.seats :: GetTicketById(s, tid).value
  }

  /** In a consistent store every ticket is listed, and its seat shows as booked. */
  lemma ListingsShowBookedSeats(s: Store)
    requires Consistent(s)
    ensures forall tid :: tid in s.tickets ==> GetTicketById(s, tid).Some? && GetTicketById(s, tid).value.isBooked
    ensures forall row :: row in GetAllTickets(s) ==> row.isBooked
  {
  }

  lemma FreeSeatsAfterBooking(s: Store, c: Committed<BookedTicket>, req: TicketRequest)
    requires Books(s, req, c)
    ensures FreeSeats(c.store, c.value.ticket.flightId) == FreeSeats(s, c.value.ticket.flightId) - {c.value.ticket.seatId}
    ensures forall fid :: fid != c.value.ticket.flightId ==> FreeSeats(c.store, fid) == FreeSeats(s, fid)
  {
  }

  /**
    A booking preserves consistency, and since the booked seat was free its
    flight's counter was at least one: the decrement never drives it below 0.
   */
  lemma CreateTicketPreservesConsistency(s: Store, req: TicketRequest)
    requires Consistent(s)
    requires CreateTicket(s, req).Success?
    ensures Consistent(CreateTicket(s, req).value.store)
    ensures var b := CreateTicket(s, req).value.value;
      CreateTicket(s, req).value.store.flights[b.ticket.flightId].seatsAvailable >= 0
  {
    var c := CreateTicket(s, req).value;
    BookingKeepsCounters(s, req, c);
    BookingKeepsTickets(s, req, c);
  }

  lemma BookingKeepsCounters(s: Store, req: TicketRequest, c: Committed<BookedTicket>)
    requires SeatsReferenceFlights(s) && CountersTrackFreeSeats(s)
    requires Books(s, req, c)
    ensures SeatsReferenceFlights(c.store) && CountersTrackFreeSeats(c.store)
    ensures c.store.flights[c.value.ticket.flightId].seatsAvailable >= 0
  {
    var s' := c.store;
    var sid, fid := c.value.ticket.seatId, c.value.ticket.flightId;
    FreeSeatsAfterBooking(s, c, req);
    assert sid in FreeSeats(s, fid);
    assert |FreeSeats(s', fid)| == |FreeSeats(s, fid)| - 1;
    forall f | f in s'.flights ensures s'.flights[f].seatsAvailable == |FreeSeats(s', f)| {
      if f != fid { assert s'.flights[f] == s.flights[f]; }
    }
  }

  lemma BookingKeepsTickets(s: Store, req: TicketRequest, c: Committed<BookedTicket>)
    requires TicketsMatchBookedSeats(s)
    requires Books(s, req, c)
    ensures TicketsMatchBookedSeats(c.store)
  {
    var s' := c.store;
    var sid, tid := c.value.ticket.seatId, c.value.ticketId;
    forall t | t in s'.tickets
      ensures s'.tickets[t].seatId in s'.seats && s'.seats[s'.tickets[t].seatId].isBooked
      ensures s'.seats[s'.tickets[t].seatId].flightId == s'.tickets[t].flightId
    {
      if t != tid { assert s'.tickets[t] == s.tickets[t]; }
    }
    forall t1, t2 | t1 in s'.tickets && t2 in s'.tickets && s'.tickets[t1].seatId == s'.tickets[t2].seatId
      ensures t1 == t2
    {
    }
    forall x | x in s'.seats && s'.seats[x].isBooked
      ensures exists t :: t in s'.tickets && s'.tickets[t].seatId == x
    {
      if x == sid {
        assert s'.tickets[tid].seatId == x;
      } else {
        var t :| t in s.tickets && s.tickets[t].seatId == x;
        assert s'.tickets[t].seatId == x;
      }
    }
  }

  /**
    Cancelling a ticket of a consistent store preserves consistency: the seat the
    ticket claimed becomes free and its flight's counter rises by exactly one.
   */
  lemma DeleteTicketPreservesConsistency(s: Store, id: int)
    requires Consistent(s)
    requires id in s.tickets
    ensures Consistent(DeleteTicket(s, id).store)
    ensures var t := s.tickets[id];
      && !DeleteTicket(s, id).store.seats[t.seatId].isBooked
      && DeleteTicket(s, id).store.flights[t.flightId].seatsAvailable == s.flights[t.flightId].seatsAvailable + 1
  {
    var s' := DeleteTicket(s, id).store;
    var t := s.tickets[id];
    var sid, fid := t.seatId, t.flightId;
    assert fid in s.flights;
    assert FreeSeats(s', fid) == FreeSeats(s, fid) + {sid};
    assert sid !in FreeSeats(s, fid);
    assert |FreeSeats(s', fid)| == |FreeSeats(s, fid)| + 1;
    forall f | f in s'.flights ensures s'.flights[f].seatsAvailable == |FreeSeats(s', f)| {
      if f != fid {
        assert FreeSeats(s', f) == FreeSeats(s, f);
      }
    }
    forall u | u in s'.tickets
      ensures s'.tickets[u].seatId in s'.seats && s'.seats[s'.tickets[u].seatId].isBooked
    {
      assert s.tickets[u].seatId != sid;
    }
    forall x | x in s'.seats && s'.seats[x].isBooked
      ensures exists u :: u in s'.tickets && s'.tickets[u].seatId == x
    {
      var u :| u in s.tickets && s.tickets[u].seatId == x;
      assert u != id;
      assert s'.tickets[u].seatId == x;
    }
  }

  /**
    Cancelling the ticket a booking just created restores the store it started
    from, apart from the ticket sequence, which keeps the id it handed out.
   */
  lemma DeleteUndoesCreate(s: Store, req: TicketRequest)
    requires CreateTicket(s, req).Success?
    ensures var c := CreateTicket(s, req).value;
      DeleteTicket(c.store, c.value.ticketId) == Committed(s.(ticketSeq := c.value.ticketId), 1)
  {
    var c := CreateTicket(s, req).value;
    var b := c.value;
    var s' := DeleteTicket(c.store, b.ticketId).store;
    assert s'.tickets == s.tickets;
    assert s'.seats == s.seats;
    assert s'.flights == s.flights;
  }

  /**
    Booking the same flight and seat again right after a successful booking
    fails with "Seat already booked": the lookup finds the same, now booked, seat.
   */
  lemma SecondBookingFails(s: Store, req: TicketRequest, again: TicketRequest)
    requires CreateTicket(s, req).Success?
    requires again.flightId == req.flightId && again.seatNumber == req.seatNumber
    ensures CreateTicket(CreateTicket(s, req).value.store, again) == Failure(SeatAlreadyBooked)
  {
    var c := CreateTicket(s, req).value;
    var sid := c.value.ticket.seatId;
    var s' := c.store;
    assert forall x :: x in s'.seats ==> s'.seats[x].flightId == s.seats[x].flightId && s'.seats[x].seatNumber == s.seats[x].seatNumber;
    var found := FindSeat(s', again.flightId, again.seatNumber);
    assert found.Some? by { assert SeatMatches(s'.seats[sid], again.flightId, again.seatNumber); }
    assert found.value == sid by {
      assert SeatMatches(s.seats[found.value], req.flightId, req.seatNumber);
    }
  }

  /**
    AUTOINCREMENT never hands out a cancelled ticket's id again: the sequence
    has recorded that id, a cancellation leaves the sequence as it was, and the
    next booking's id lies above it.
   */
  lemma CancelledIdNotReused(s: Store, id: int, req: TicketRequest)
    requires id in s.tickets && id <= s.ticketSeq
    ensures var after := DeleteTicket(s, id).store;
      id !in after.tickets
      && (CreateTicket(after, req).Success? ==> CreateTicket(after, req).value.value.ticketId > id)
  {
  }
}
