/**
  The relational store behind the services: the Flight, Seat and Ticket tables
  keyed by rowid, the read-only City ids they reference, and the AUTOINCREMENT
  sequences. The consistency the ticket transactions keep (every counter equals
  its flight's free seats, tickets and booked seats correspond one to one) is
  stated here as predicates; no operation establishes it from scratch, so the
  service lemmas take it as a precondition.
 */
module Ledger {
  import opened Wrappers
  import opened Js

  /** A Flight row. `seatsAvailable` is a cached counter, not derived by the table. */
  datatype Flight = Flight(
    fromCity: int,
    toCity: int,
    departureTime: string,
    arrivalTime: string,
    price: Number,
    seatsTotal: int,
    seatsAvailable: int)

  /** A Seat row: seeded with the label `String(n)`, modelled as the number `n`; free until booked. */
  datatype Seat = Seat(flightId: int, seatNumber: nat, isBooked: bool)

  /** A Ticket row, claiming one seat of one flight. */
  datatype Ticket = Ticket(
    passengerName: string,
    passengerSurname: string,
    passengerEmail: string,
    flightId: int,
    seatId: int)

  /**
    The database. `cities` holds the City ids (the City table is only ever read
    here); the three sequences are the largest rowid each AUTOINCREMENT table
    has handed out.
   */
  datatype Store = Store(
    cities: set<int>,
    flights: map<int, Flight>,
    seats: map<int, Seat>,
    tickets: map<int, Ticket>,
    flightSeq: int,
    seatSeq: int,
    ticketSeq: int)

  /** The store after a committed transaction, with the value the transaction returns. */
  datatype Committed<T> = Committed(store: Store, value: T)

  /** Why a transaction rolled back. */
  datatype Error =
    | SeatNotFound
    | SeatAlreadyBooked
    | ForeignKeyViolation
    | NotNullViolation(column: string)

  /** The `message` of the rejected `Error`: the services' own texts, or SQLite's for a constraint failure. */
  function Message(e: Error): string
  {
    match e
    case SeatNotFound => "Seat not found or does not belong to this flight"
    case SeatAlreadyBooked => "Seat already booked"
    case ForeignKeyViolation => "SQLITE_CONSTRAINT: FOREIGN KEY constraint failed"
    case NotNullViolation(column) => "SQLITE_CONSTRAINT: NOT NULL constraint failed: Flight." + column
  }

  lemma NonEmptyHasElement(keys: set<int>)
    requires keys != {}
    ensures exists k :: k in keys
  {
    if forall k :: k !in keys { assert false; }
  }

  lemma MaxExists(keys: set<int>)
    requires keys != {}
    ensures exists m :: m in keys && forall k :: k in keys ==> k <= m
    decreases |keys|
  {
    NonEmptyHasElement(keys);
    var x :| x in keys;
    if keys != {x} {
      var rest := keys - {x};
      MaxExists(rest);
      var m :| m in rest && forall k :: k in rest ==> k <= m;
      forall k | k in keys ensures k <= x || k <= m {
        if k != x { assert k in rest; }
      }
      if m < x {
        assert forall k :: k in keys ==> k <= x;
      } else {
        assert forall k :: k in keys ==> k <= m;
      }
    }
  }

  /** The largest element of a non-empty set of ids. */
  function Max(keys: set<int>): (m: int)
    requires keys != {}
    ensures m in keys
    ensures forall k :: k in keys ==> k <= m
  {
    MaxExists(keys);
    var m :| m in keys && forall k :: k in keys ==> k <= m;
    m
  }

  lemma NegatedHasElement(keys: set<int>, negated: set<int>)
    requires keys != {} && negated == set k | k in keys :: -k
    ensures negated != {}
  {
    NonEmptyHasElement(keys);
    var x :| x in keys;
    assert -x in negated;
  }

  /** The smallest element of a non-empty set of ids. */
  function Min(keys: set<int>): (m: int)
    requires keys != {}
    ensures m in keys
    ensures forall k :: k in keys ==> m <= k
  {
    var negated := set k | k in keys :: -k;
    NegatedHasElement(keys, negated);
    var n := Max(negated);
    assert forall k :: k in keys ==> -k in negated;
    -n
  }

  /**
    The rowid an AUTOINCREMENT table assigns: one more than the larger of the
    largest rowid ever handed out and the largest rowid present.
   */
  function NextId(sequence: int, keys: set<int>): (id: int)
    ensures id > sequence
    ensures forall k :: k in keys ==> k < id
  {
    if keys == {} then sequence + 1
    else
      var m := Max(keys);
      if m > sequence then m + 1 else sequence + 1
  }

  /** The seats of flight `flightId` that are not booked. */
  function FreeSeats(s: Store, flightId: int): set<int>
  {
    set sid | sid in s.seats && s.seats[sid].flightId == flightId && !s.seats[sid].isBooked
  }

  /** Every seat belongs to an existing flight (the Seat.flight_id foreign key). */
  ghost predicate SeatsReferenceFlights(s: Store)
  {
    forall sid :: sid in s.seats ==> s.seats[sid].flightId in s.flights
  }

  /**
    Tickets and booked seats correspond one to one: every ticket claims a booked
    seat of its own flight, no two tickets claim the same seat, and every booked
    seat is claimed.
   */
  ghost predicate TicketsMatchBookedSeats(s: Store)
  {
    && (forall tid :: tid in s.tickets ==>
          && s.tickets[tid].seatId in s.seats
          && s.seats[s.tickets[tid].seatId].isBooked
          && s.seats[s.tickets[tid].seatId].flightId == s.tickets[tid].flightId)
    && (forall t1, t2 :: t1 in s.tickets && t2 in s.tickets && s.tickets[t1].seatId == s.tickets[t2].seatId ==> t1 == t2)
    && (forall sid :: sid in s.seats && s.seats[sid].isBooked ==> exists tid :: tid in s.tickets && s.tickets[tid].seatId == sid)
  }

  /** Every flight's `seatsAvailable` equals the number of its free seats. */
  ghost predicate CountersTrackFreeSeats(s: Store)
  {
    forall fid :: fid in s.flights ==> s.flights[fid].seatsAvailable == |FreeSeats(s, fid)|
  }

  /** The consistency the ticket transactions preserve. */
  ghost predicate Consistent(s: Store)
  {
    && SeatsReferenceFlights(s)
    && TicketsMatchBookedSeats(s)
    && CountersTrackFreeSeats(s)
  }
}
