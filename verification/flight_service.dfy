/**
  The flight operations of `src/services/FlightService.js`: seat seeding, the
  Flight row writes, and the listings that attach each flight's seats.
 */
module FlightService {
  import opened Wrappers
  import opened Js
  import opened Ledger

  /**
    The seven values `createFlight` and `updateFlight` bind, in column order.
    The controller has checked that the two seat counts are integers.
   */
  datatype FlightParams = FlightParams(
    fromCity: Number,
    toCity: Number,
    departureTime: string,
    arrivalTime: string,
    price: Number,
    seatsTotal: int,
    seatsAvailable: int)

  /** A row of `getSeatsByFlightId`. */
  datatype SeatRow = SeatRow(seatId: int, seatNumber: nat, isBooked: bool)

  /** `{ ...flight, seats }`: a Flight row with the seats that reference it. */
  datatype FlightView = FlightView(flightId: int, flight: Flight, seats: set<SeatRow>)

  /** The filters `filterFlights` receives; a missing or falsy one adds no clause. */
  datatype Filters = Filters(origin: Option<Number>, destination: Option<Number>, date: Option<string>)

  // ---------------------------------------------------------------- seats

  /** `getSeatsByFlightId`: the seats whose `flight_id` is the given one, in no promised order. */
  function GetSeatsByFlightId(s: Store, flightId: int): (r: set<SeatRow>)
    ensures forall row :: row in r <==>
      row.seatId in s.seats && s.seats[row.seatId] == Seat(flightId, row.seatNumber, row.isBooked)
  {
    set sid | sid in s.seats && s.seats[sid].flightId == flightId
      :: SeatRow(sid, s.seats[sid].seatNumber, s.seats[sid].isBooked)
  }

  /** One `INSERT INTO Seat (flight_id, seat_number)`: a free seat under the next rowid. */
  function InsertSeat(s: Store, flightId: int, n: nat): Store
  {
    var sid := NextId(s.seatSeq, s.seats.Keys);
    s.(seats := s.seats[sid := Seat(flightId, n, false)], seatSeq := sid)
  }

  /** The insert adds one free seat of the flight under a fresh rowid. */
  lemma InsertSeatFresh(s: Store, flightId: int, n: nat)
    ensures var sid := NextId(s.seatSeq, s.seats.Keys);
      var s1 := InsertSeat(s, flightId, n);
      && sid !in s.seats && s1.seats.Keys == s.seats.Keys + {sid}
      && s1.seats[sid] == Seat(flightId, n, false)
  {
  }

  /** The seeding loop from label `n` on: one insert for each `n <= total`. */
  function SeedFrom(s: Store, flightId: int, n: nat, total: int): Store
    decreases total - n
  {
    if n > total then s else SeedFrom(InsertSeat(s, flightId, n), flightId, n + 1, total)
  }

  /**
    `seedSeatsForFlight`: inserts seats labelled 1 .. `seatsTotal`; none when
    `seatsTotal <= 0`. It adds exactly `max(seatsTotal, 0)` seats for the
    flight, free, each label once; existing seats and every other table are
    untouched.
   */
  function SeedSeatsForFlight(s: Store, flightId: int, seatsTotal: int): (r: Store)
    ensures SeatsExtended(s, r)
    ensures AddedSeatsFree(s, r, flightId, 1, seatsTotal)
    ensures AddedSeatsLabelled(s, r, 1, seatsTotal)
    ensures |r.seats.Keys - s.seats.Keys| == (if seatsTotal > 0 then seatsTotal else 0)
    ensures SeatSeqAdvanced(s, r)
  {
    SeedFromAdvances(s, flightId, 1, seatsTotal);
    SeedFromExtends(s, flightId, 1, seatsTotal);
    SeedFromAddsFree(s, flightId, 1, seatsTotal);
    SeedFromLabels(s, flightId, 1, seatsTotal);
    SeedFrom(s, flightId, 1, seatsTotal)
  }

  /** How many labels `n .. total` there are. */
  function Span(n: int, total: int): nat
  {
    if n > total then 0 else total - n + 1
  }

  /** The labels `n .. total`. */
  function Labels(n: int, total: int): (r: set<int>)
    ensures forall k :: k in r <==> n <= k <= total
    ensures |r| == Span(n, total)
    decreases total - n
  {
    if n > total then {} else {n} + Labels(n + 1, total)
  }

  /** The labels the seats `ids` of `r` carry. */
  function LabelsOf(r: Store, ids: set<int>): set<int>
    requires ids <= r.seats.Keys
  {
    set sid | sid in ids :: r.seats[sid].seatNumber as int
  }

  /** `r` differs from `s` only in the Seat table and its sequence, and keeps every seat of `s`. */
  ghost predicate SeatsExtended(s: Store, r: Store)
  {
    && r == s.(seats := r.seats, seatSeq := r.seatSeq)
    && (forall sid :: sid in s.seats ==> sid in r.seats && r.seats[sid] == s.seats[sid])
  }

  /** Every seat `r` has and `s` lacks is a free seat of the flight labelled within `n .. total`. */
  ghost predicate AddedSeatsFree(s: Store, r: Store, flightId: int, n: int, total: int)
  {
    forall sid :: sid in r.seats && sid !in s.seats ==>
      r.seats[sid].flightId == flightId && !r.seats[sid].isBooked && n <= r.seats[sid].seatNumber <= total
  }

  /**
    The seats `r` adds to `s` carry exactly the labels `n .. total`, and there
    are as many of them as labels: each label once.
   */
  ghost predicate AddedSeatsLabelled(s: Store, r: Store, n: int, total: int)
  {
    var added := r.seats.Keys - s.seats.Keys;
    && LabelsOf(r, added) == Labels(n, total)
    && |added| == |Labels(n, total)|
  }

  lemma {:induction false} SeedFromExtends(s: Store, flightId: int, n: nat, total: int)
    ensures SeatsExtended(s, SeedFrom(s, flightId, n, total))
    decreases total - n
  {
    if n <= total {
      var s1 := InsertSeat(s, flightId, n);
      SeedFromExtends(s1, flightId, n + 1, total);
    }
  }

  /**
    The Seat sequence only grows, and every seat `r` adds got an id above the
    sequence of `s`: AUTOINCREMENT never reuses a deleted seat's id.
   */
  ghost predicate SeatSeqAdvanced(s: Store, r: Store)
  {
    && s.seatSeq <= r.seatSeq
    && forall sid :: sid in r.seats && sid !in s.seats ==> s.seatSeq < sid <= r.seatSeq
  }

  lemma {:induction false} SeedFromAdvances(s: Store, flightId: int, n: nat, total: int)
    ensures SeatSeqAdvanced(s, SeedFrom(s, flightId, n, total))
    decreases total - n
  {
    if n <= total {
      var s1 := InsertSeat(s, flightId, n);
      SeedFromAdvances(s1, flightId, n + 1, total);
    }
  }

  lemma {:induction false} SeedFromAddsFree(s: Store, flightId: int, n: nat, total: int)
    ensures AddedSeatsFree(s, SeedFrom(s, flightId, n, total), flightId, n, total)
    decreases total - n
  {
    if n <= total {
      var r := SeedFrom(s, flightId, n, total);
      var s1 := InsertSeat(s, flightId, n);
      var sid0 := NextId(s.seatSeq, s.seats.Keys);
      assert r == SeedFrom(s1, flightId, n + 1, total);
      SeedFromAddsFree(s1, flightId, n + 1, total);
      SeedFromExtends(s1, flightId, n + 1, total);
      forall sid | sid in r.seats && sid !in s.seats
        ensures r.seats[sid].flightId == flightId && !r.seats[sid].isBooked && n <= r.seats[sid].seatNumber <= total
      {
        if sid == sid0 {
          assert r.seats[sid] == s1.seats[sid0];
        }
      }
    }
  }

  /** One seeding step: the seat labelled `n` in front of the seats labelled `n + 1 .. total`. */
  lemma LabelledStep(s: Store, s1: Store, r: Store, sid0: int, n: int, total: int)
    requires n <= total
    requires sid0 !in s.seats && s1.seats.Keys == s.seats.Keys + {sid0}
    requires s1.seats.Keys <= r.seats.Keys
    requires r.seats[sid0].seatNumber == n
    requires AddedSeatsLabelled(s1, r, n + 1, total)
    ensures AddedSeatsLabelled(s, r, n, total)
  {
    var added1 := r.seats.Keys - s1.seats.Keys;
    AddedStep(s.seats.Keys, s1.seats.Keys, r.seats.Keys, sid0);
    StepLabels(r, added1, sid0, n, total);
    assert |Labels(n, total)| == |Labels(n + 1, total)| + 1;
  }

  /** Keys added past one inserted key are that key and the keys added after it. */
  lemma AddedStep(before: set<int>, step: set<int>, after: set<int>, id: int)
    requires id !in before && step == before + {id} && step <= after
    ensures after - before == (after - step) + {id} && id !in after - step
    ensures |after - before| == |after - step| + 1
  {
    assert after - before == (after - step) + {id};
  }

  lemma StepLabels(r: Store, added1: set<int>, sid0: int, n: int, total: int)
    requires n <= total
    requires sid0 in r.seats && sid0 !in added1 && added1 <= r.seats.Keys
    requires r.seats[sid0].seatNumber == n
    requires LabelsOf(r, added1) == Labels(n + 1, total)
    ensures LabelsOf(r, added1 + {sid0}) == Labels(n, total)
  {
    LabelsOfAdd(r, added1, sid0);
    assert Labels(n, total) == {n} + Labels(n + 1, total);
  }

  /** One more seat adds exactly its label. */
  lemma LabelsOfAdd(r: Store, ids: set<int>, sid: int)
    requires ids <= r.seats.Keys && sid in r.seats
    ensures LabelsOf(r, ids + {sid}) == LabelsOf(r, ids) + {r.seats[sid].seatNumber as int}
  {
    var tag := r.seats[sid].seatNumber as int;
    forall k | k in LabelsOf(r, ids + {sid}) ensures k in LabelsOf(r, ids) + {tag} {
      var x :| x in ids + {sid} && r.seats[x].seatNumber as int == k;
      if x != sid {
        assert x in ids;
      }
    }
    forall k | k in LabelsOf(r, ids) + {tag} ensures k in LabelsOf(r, ids + {sid}) {
      if k == tag {
        assert sid in ids + {sid};
      } else {
        var x :| x in ids && r.seats[x].seatNumber as int == k;
        assert x in ids + {sid};
      }
    }
  }

  lemma {:induction false} SeedFromLabels(s: Store, flightId: int, n: nat, total: int)
    ensures AddedSeatsLabelled(s, SeedFrom(s, flightId, n, total), n, total)
    decreases total - n
  {
    if n <= total {
      var s1 := InsertSeat(s, flightId, n);
      var sid0 := NextId(s.seatSeq, s.seats.Keys);
      var r := SeedFrom(s1, flightId, n + 1, total);
      SeedFromLabels(s1, flightId, n + 1, total);
      SeedFromExtends(s1, flightId, n + 1, total);
      InsertSeatFresh(s, flightId, n);
      assert r.seats[sid0] == s1.seats[sid0];
      LabelledStep(s, s1, r, sid0, n, total);
    } else {
      assert SeedFrom(s, flightId, n, total) == s;
      assert Labels(n, total) == {};
    }
  }

  // ---------------------------------------------------------------- flight rows

  /** A number a City id column can reference: integral, and an existing City id. */
  predicate CityRef(s: Store, n: Number)
  {
    KeyOf(n).Some? && KeyOf(n).value in s.cities
  }

  /**
    The constraint a Flight row with these values breaks, if any: a NaN binds
    NULL and fails NOT NULL (checked column by column first), and the two city
    columns are foreign keys into City.
   */
  function RowViolation(s: Store, p: FlightParams): (r: Option<Error>)
    ensures r.None? <==> p.price != NaN && CityRef(s, p.fromCity) && CityRef(s, p.toCity)
  {
    if p.fromCity == NaN then Some(NotNullViolation("from_city"))
    else if p.toCity == NaN then Some(NotNullViolation("to_city"))
    else if p.price == NaN then Some(NotNullViolation("price"))
    else if !CityRef(s, p.fromCity) || !CityRef(s, p.toCity) then Some(ForeignKeyViolation)
    else None
  }

  /** The Flight row the seven values make once they satisfy the constraints. */
  function FlightOf(s: Store, p: FlightParams): (f: Flight)
    requires RowViolation(s, p).None?
    ensures Finite(f.fromCity as real) == p.fromCity && Finite(f.toCity as real) == p.toCity
    ensures f.seatsTotal == p.seatsTotal && f.seatsAvailable == p.seatsAvailable
  {
    Flight(KeyOf(p.fromCity).value, KeyOf(p.toCity).value, p.departureTime, p.arrivalTime,
           p.price, p.seatsTotal, p.seatsAvailable)
  }

  /** A flight with the seats that reference it. */
  function View(s: Store, flightId: int): FlightView
    requires flightId in s.flights
  {
    FlightView(flightId, s.flights[flightId], GetSeatsByFlightId(s, flightId))
  }

  /** `findFlightById`: null for an unknown id, otherwise the flight with exactly its own seats. */
  function FindFlightById(s: Store, id: int): (r: Option<FlightView>)
    ensures r.None? <==> id !in s.flights
    ensures r.Some? ==> r.value.flightId == id && r.value.flight == s.flights[id]
    ensures r.Some? ==> forall row :: row in r.value.seats <==>
      row.seatId in s.seats && s.seats[row.seatId] == Seat(id, row.seatNumber, row.isBooked)
  {
    if id in s.flights then Some(View(s, id)) else None
  }

  /**
    `createFlight`: insert the row with `seats_available` exactly as supplied,
    seed `seats_total` seats, and return the flight with its seats. A row that
    breaks a constraint is rejected before anything is written.
   */
  function CreateFlight(s: Store, p: FlightParams): (r: Result<Committed<FlightView>, Error>)
    ensures r.Failure? <==> RowViolation(s, p).Some?
    ensures r.Failure? ==> r.error == RowViolation(s, p).value
    ensures r.Success? ==>
      var fid := r.value.value.flightId;
      var t := r.value.store;
      && fid !in s.flights && fid == NextId(s.flightSeq, s.flights.Keys)
      && t.flightSeq == fid && t.ticketSeq == s.ticketSeq && SeatSeqAdvanced(s, t)
      && t.flights == s.flights[fid := FlightOf(s, p)]
      && t.flights[fid].seatsAvailable == p.seatsAvailable
      && t.tickets == s.tickets && t.cities == s.cities
      && (forall sid :: sid in s.seats ==> sid in t.seats && t.seats[sid] == s.seats[sid])
      && AddedSeatsFree(s, t, fid, 1, p.seatsTotal)
      && AddedSeatsLabelled(s, t, 1, p.seatsTotal)
      && r.value.value == View(t, fid)
  {
    match RowViolation(s, p)
    case Some(e) => Failure(e)
    case None =>
      var fid := NextId(s.flightSeq, s.flights.Keys);
      var inserted := s.(flights := s.flights[fid := FlightOf(s, p)], flightSeq := fid);
      var seeded := SeedSeatsForFlight(inserted, fid, p.seatsTotal);
      Success(Committed(seeded, View(seeded, fid)))
  }

  /**
    Once seeding has added only seats of a brand-new flight, that flight's free
    seats are exactly the added ones and no other flight's free seats change.
   */
  lemma NewFlightOwnsAddedSeats(s: Store, t: Store, fid: int, total: int)
    requires SeatsReferenceFlights(s) && fid !in s.flights
    requires forall sid :: sid in s.seats ==> sid in t.seats && t.seats[sid] == s.seats[sid]
    requires AddedSeatsFree(s, t, fid, 1, total)
    ensures FreeSeats(t, fid) == t.seats.Keys - s.seats.Keys
    ensures forall f :: f != fid ==> FreeSeats(t, f) == FreeSeats(s, f)
    ensures forall sid :: sid in t.seats && t.seats[sid].flightId == fid ==> sid !in s.seats
  {
    forall sid | sid in t.seats && t.seats[sid].flightId == fid ensures sid !in s.seats {
    }
    var added := t.seats.Keys - s.seats.Keys;
    forall sid | sid in added ensures sid in FreeSeats(t, fid) {
    }
    forall f | f != fid ensures FreeSeats(t, f) == FreeSeats(s, f) {
      forall sid | sid in FreeSeats(t, f) ensures sid in FreeSeats(s, f) {
        assert sid in s.seats;
      }
      forall sid | sid in FreeSeats(s, f) ensures sid in FreeSeats(t, f) {
        assert t.seats[sid] == s.seats[sid];
      }
    }
  }

  /** The rows `getSeatsByFlightId` returns for a flight whose seats are exactly `ids`. */
  lemma RowsOfOwnedSeats(t: Store, fid: int, ids: set<int>)
    requires ids <= t.seats.Keys
    requires forall sid :: sid in t.seats && t.seats[sid].flightId == fid <==> sid in ids
    ensures (set row | row in GetSeatsByFlightId(t, fid) :: row.seatId) == ids
    ensures (set row | row in GetSeatsByFlightId(t, fid) :: row.seatNumber as int) == LabelsOf(t, ids)
  {
    var rows := GetSeatsByFlightId(t, fid);
    forall sid | sid in ids ensures sid in (set row | row in rows :: row.seatId) {
      assert SeatRow(sid, t.seats[sid].seatNumber, t.seats[sid].isBooked) in rows;
    }
    forall k | k in LabelsOf(t, ids) ensures k in (set row | row in rows :: row.seatNumber as int) {
      var sid :| sid in ids && t.seats[sid].seatNumber as int == k;
      assert SeatRow(sid, t.seats[sid].seatNumber, t.seats[sid].isBooked) in rows;
    }
  }

  /**
    In a store whose seats all reference existing flights, the flight
    `createFlight` returns carries exactly `seats_total` seats (none when it is
    not positive), all free, between them carrying every label 1 ..
    `seats_total`, and they are all of the new flight's free seats.
   */
  lemma CreateFlightReturnsSeededSeats(s: Store, p: FlightParams)
    requires SeatsReferenceFlights(s)
    requires CreateFlight(s, p).Success?
    ensures var c := CreateFlight(s, p).value;
      var ids := set row | row in c.value.seats :: row.seatId;
      && ids == FreeSeats(c.store, c.value.flightId)
      && |ids| == (if p.seatsTotal > 0 then p.seatsTotal else 0)
      && (forall row :: row in c.value.seats ==> !row.isBooked)
      && (set row | row in c.value.seats :: row.seatNumber as int) == Labels(1, p.seatsTotal)
  {
    var c := CreateFlight(s, p).value;
    var fid := c.value.flightId;
    var t := c.store;
    NewFlightOwnsAddedSeats(s, t, fid, p.seatsTotal);
    RowsOfOwnedSeats(t, fid, t.seats.Keys - s.seats.Keys);
  }

  /** Creating a flight changes no other flight's free seats and gives the new one `max(seats_total, 0)`. */
  lemma CreateFlightFreeSeats(s: Store, p: FlightParams)
    requires SeatsReferenceFlights(s)
    requires CreateFlight(s, p).Success?
    ensures var c := CreateFlight(s, p).value;
      && (forall f :: f != c.value.flightId ==> FreeSeats(c.store, f) == FreeSeats(s, f))
      && |FreeSeats(c.store, c.value.flightId)| == (if p.seatsTotal > 0 then p.seatsTotal else 0)
  {
    var c := CreateFlight(s, p).value;
    NewFlightOwnsAddedSeats(s, c.store, c.value.flightId, p.seatsTotal);
  }

  /**
    `updateFlight`: overwrite all seven columns of the row with the supplied
    values; Seat rows are left as they are even when `seats_total` changes. No
    matching row resolves `changes = 0` and alters nothing.
   */
  function UpdateFlight(s: Store, id: Number, p: FlightParams): (r: Result<Committed<nat>, Error>)
    ensures (KeyOf(id).None? || KeyOf(id).value !in s.flights) ==> r == Success(Committed(s, 0))
    ensures r.Success? && r.value.value != 0 ==>
      && r.value.value == 1
      && KeyOf(id).Some?
      && RowViolation(s, p).None?
      && r.value.store == s.(flights := s.flights[KeyOf(id).value := FlightOf(s, p)])
    ensures r.Success? ==> r.value.store.seats == s.seats && r.value.store.tickets == s.tickets
    ensures r.Failure? ==>
      KeyOf(id).Some? && KeyOf(id).value in s.flights && RowViolation(s, p) == Some(r.error)
    ensures KeyOf(id).Some? && KeyOf(id).value in s.flights && RowViolation(s, p).Some? ==>
      r == Failure(RowViolation(s, p).value)
    ensures KeyOf(id).Some? && KeyOf(id).value in s.flights && RowViolation(s, p).None? ==>
      r == Success(Committed(s.(flights := s.flights[KeyOf(id).value := FlightOf(s, p)]), 1))
  {
    var key := KeyOf(id);
    if key.None? || key.value !in s.flights then Success(Committed(s, 0))
    else
      match RowViolation(s, p)
      case Some(e) => Failure(e)
      case None => Success(Committed(s.(flights := s.flights[key.value := FlightOf(s, p)]), 1))
  }

  /**
    `deleteFlight`: delete only the Flight row. Foreign keys are on and no
    ON DELETE action is declared, so a flight that seats or tickets still
    reference is not deleted: the statement fails instead of cascading.
   */
  function DeleteFlight(s: Store, id: Number): (r: Result<Committed<nat>, Error>)
    ensures (KeyOf(id).None? || KeyOf(id).value !in s.flights) ==> r == Success(Committed(s, 0))
    ensures r == Failure(ForeignKeyViolation) <==>
      && KeyOf(id).Some? && KeyOf(id).value in s.flights
      && ((exists sid :: sid in s.seats && s.seats[sid].flightId == KeyOf(id).value)
          || (exists tid :: tid in s.tickets && s.tickets[tid].flightId == KeyOf(id).value))
    ensures r.Success? && r.value.value != 0 ==>
      r.value == Committed(s.(flights := s.flights - {KeyOf(id).value}), 1)
    ensures && KeyOf(id).Some? && KeyOf(id).value in s.flights
            && (forall sid :: sid in s.seats ==> s.seats[sid].flightId != KeyOf(id).value)
            && (forall tid :: tid in s.tickets ==> s.tickets[tid].flightId != KeyOf(id).value)
            ==> r == Success(Committed(s.(flights := s.flights - {KeyOf(id).value}), 1))
  {
    var key := KeyOf(id);
    if key.None? || key.value !in s.flights then Success(Committed(s, 0))
    else if (exists sid :: sid in s.seats && s.seats[sid].flightId == key.value)
         || (exists tid :: tid in s.tickets && s.tickets[tid].flightId == key.value)
    then Failure(ForeignKeyViolation)
    else Success(Committed(s.(flights := s.flights - {key.value}), 1))
  }

  // ---------------------------------------------------------------- consistency

  /**
    A flight created in a consistent store keeps the store consistent exactly
    when the caller supplied `seats_available` equal to the number of seeded
    seats: `createFlight` stores the counter it is given.
   */
  lemma CreateFlightConsistentIff(s: Store, p: FlightParams)
    requires Consistent(s)
    requires CreateFlight(s, p).Success?
    ensures Consistent(CreateFlight(s, p).value.store) <==>
      p.seatsAvailable == (if p.seatsTotal > 0 then p.seatsTotal else 0)
  {
    var c := CreateFlight(s, p).value;
    var t := c.store;
    var fid := c.value.flightId;
    CreateFlightFreeSeats(s, p);
    assert SeatsReferenceFlights(t) by {
      forall x | x in t.seats ensures t.seats[x].flightId in t.flights {
        if x in s.seats { assert s.seats[x].flightId in s.flights; }
      }
    }
    assert TicketsMatchBookedSeats(t) by {
      forall x | x in t.seats && t.seats[x].isBooked
        ensures exists tid :: tid in t.tickets && t.tickets[tid].seatId == x
      {
        assert x in s.seats;
      }
    }
    if p.seatsAvailable == (if p.seatsTotal > 0 then p.seatsTotal else 0) {
      forall f | f in t.flights ensures t.flights[f].seatsAvailable == |FreeSeats(t, f)| {
        if f != fid { assert t.flights[f] == s.flights[f]; }
      }
    } else {
      assert t.flights[fid].seatsAvailable != |FreeSeats(t, fid)|;
    }
  }

  /**
    An update of an existing flight in a consistent store keeps it consistent
    exactly when the supplied `seats_available` equals that flight's free seats:
    the counter is written as given, never recomputed.
   */
  lemma UpdateFlightConsistentIff(s: Store, id: Number, p: FlightParams)
    requires Consistent(s)
    requires UpdateFlight(s, id, p).Success? && UpdateFlight(s, id, p).value.value == 1
    ensures Consistent(UpdateFlight(s, id, p).value.store) <==>
      p.seatsAvailable == |FreeSeats(s, KeyOf(id).value)|
  {
    var r := UpdateFlight(s, id, p).value.store;
    var k := KeyOf(id).value;
    forall f ensures FreeSeats(r, f) == FreeSeats(s, f) {
      assert r.seats == s.seats;
    }
    if p.seatsAvailable == |FreeSeats(s, k)| {
      forall f | f in r.flights ensures r.flights[f].seatsAvailable == |FreeSeats(r, f)| {
        if f != k { assert r.flights[f] == s.flights[f]; }
      }
    } else {
      assert r.flights[k].seatsAvailable != |FreeSeats(r, k)|;
    }
  }

  /** A successful flight delete keeps a consistent store consistent. */
  lemma DeleteFlightPreservesConsistency(s: Store, id: Number)
    requires Consistent(s)
    requires DeleteFlight(s, id).Success?
    ensures Consistent(DeleteFlight(s, id).value.store)
  {
    var r := DeleteFlight(s, id).value.store;
    forall f | f in r.flights ensures FreeSeats(r, f) == FreeSeats(s, f) {
    }
  }

  /** A flight created with at least one seat can never be deleted afterwards: its seats block the delete. */
  lemma SeededFlightCannotBeDeleted(s: Store, p: FlightParams)
    requires SeatsReferenceFlights(s)
    requires CreateFlight(s, p).Success?
    requires p.seatsTotal >= 1
    ensures var c := CreateFlight(s, p).value;
      DeleteFlight(c.store, Finite(c.value.flightId as real)) == Failure(ForeignKeyViolation)
  {
    var c := CreateFlight(s, p).value;
    var fid := c.value.flightId;
    CreateFlightFreeSeats(s, p);
    NonEmptyHasElement(FreeSeats(c.store, fid));
    var sid :| sid in FreeSeats(c.store, fid);
    KeyOfSelects(Finite(fid as real), fid);
    assert sid in c.store.seats && c.store.seats[sid].flightId == fid;
  }

  // ---------------------------------------------------------------- listings

  /** SQLite's BINARY collation on TEXT: code point order, a proper prefix first. */
  predicate TextLe(a: string, b: string)
    decreases |a|
  {
    a == [] || (b != [] && (a[0] < b[0] || (a[0] == b[0] && TextLe(a[1..], b[1..]))))
  }

  lemma {:induction false} TextLeTotal(a: string, b: string)
    ensures TextLe(a, b) || TextLe(b, a)
    decreases |a|
  {
    if a != [] && b != [] && a[0] == b[0] {
      TextLeTotal(a[1..], b[1..]);
    }
  }

  lemma {:induction false} TextLeTransitive(a: string, b: string, c: string)
    requires TextLe(a, b) && TextLe(b, c)
    ensures TextLe(a, c)
    decreases |a|
  {
    if a != [] && a[0] == b[0] && b[0] == c[0] {
      TextLeTransitive(a[1..], b[1..], c[1..]);
    }
  }

  lemma {:induction false} TextLeAntisymmetric(a: string, b: string)
    requires TextLe(a, b) && TextLe(b, a)
    ensures a == b
    decreases |a|
  {
    if a != [] {
      TextLeAntisymmetric(a[1..], b[1..]);
      assert a == [a[0]] + a[1..] && b == [b[0]] + b[1..];
    }
  }

  /** `ORDER BY departure_time`: every flight departs no later than the ones after it. */
  ghost predicate SortedByDeparture(r: seq<FlightView>)
  {
    forall i, j :: 0 <= i < j < |r| ==> TextLe(r[i].flight.departureTime, r[j].flight.departureTime)
  }

  /** The flight ids a listing holds. */
  function Ids(r: seq<FlightView>): set<int>
  {
    set i | 0 <= i < |r| :: r[i].flightId
  }

  ghost predicate DistinctIds(r: seq<FlightView>)
  {
    forall i, j :: 0 <= i < j < |r| ==> r[i].flightId != r[j].flightId
  }

  /** Insert a flight into a listing after every flight that departs strictly earlier. */
  function Insert(r: seq<FlightView>, v: FlightView): (out: seq<FlightView>)
    ensures |out| == |r| + 1
    ensures forall x :: x in out <==> x in r || x == v
  {
    if r == [] || TextLe(v.flight.departureTime, r[0].flight.departureTime) then [v] + r
    else [r[0]] + Insert(r[1..], v)
  }

  lemma {:induction false} InsertKeepsOrder(r: seq<FlightView>, v: FlightView)
    requires SortedByDeparture(r)
    ensures SortedByDeparture(Insert(r, v))
  {
    var out := Insert(r, v);
    if r == [] {
    } else if TextLe(v.flight.departureTime, r[0].flight.departureTime) {
      forall j | 0 < j < |out| ensures TextLe(v.flight.departureTime, out[j].flight.departureTime) {
        if j > 1 {
          TextLeTransitive(v.flight.departureTime, r[0].flight.departureTime, out[j].flight.departureTime);
        }
      }
    } else {
      InsertKeepsOrder(r[1..], v);
      TextLeTotal(v.flight.departureTime, r[0].flight.departureTime);
      forall j | 0 < j < |out| ensures TextLe(r[0].flight.departureTime, out[j].flight.departureTime) {
        assert out[j] in Insert(r[1..], v);
        if out[j] != v {
          var k :| 0 <= k < |r[1..]| && r[1..][k] == out[j];
          assert r[k + 1] == out[j];
        }
      }
    }
  }

  lemma IdsCons(x: FlightView, rest: seq<FlightView>)
    ensures Ids([x] + rest) == {x.flightId} + Ids(rest)
    ensures DistinctIds([x] + rest) <==> DistinctIds(rest) && x.flightId !in Ids(rest)
  {
    var out := [x] + rest;
    assert forall i :: 0 < i < |out| ==> out[i] == rest[i - 1];
    assert forall i :: 0 <= i < |rest| ==> rest[i] == out[i + 1];
    assert out[0] == x;
    if DistinctIds(rest) && x.flightId !in Ids(rest) {
      forall i, j | 0 <= i < j < |out| ensures out[i].flightId != out[j].flightId {
        if i == 0 { assert out[j].flightId in Ids(rest); }
      }
    }
    if DistinctIds(out) {
      forall i | 0 <= i < |rest| ensures rest[i].flightId != x.flightId {
        assert out[i + 1] == rest[i];
      }
    }
  }

  lemma {:induction false} InsertIds(r: seq<FlightView>, v: FlightView)
    ensures Ids(Insert(r, v)) == Ids(r) + {v.flightId}
    ensures DistinctIds(r) && v.flightId !in Ids(r) ==> DistinctIds(Insert(r, v))
  {
    if r == [] || TextLe(v.flight.departureTime, r[0].flight.departureTime) {
      IdsCons(v, r);
    } else {
      InsertIds(r[1..], v);
      assert r == [r[0]] + r[1..];
      IdsCons(r[0], r[1..]);
      IdsCons(r[0], Insert(r[1..], v));
    }
  }

  /**
    Every flight the predicate keeps, once, each with its own seats, ordered by
    departure time: the shared shape of the two listings.
   */
  method ListFlights(s: Store, keep: Flight -> bool) returns (r: seq<FlightView>)
    ensures SortedByDeparture(r)
    ensures DistinctIds(r)
    ensures Ids(r) == set fid | fid in s.flights && keep(s.flights[fid])
    ensures forall i :: 0 <= i < |r| ==> r[i].flightId in s.flights && r[i] == View(s, r[i].flightId)
  {
    r := [];
    var todo := s.flights.Keys;
    while todo != {}
      invariant todo <= s.flights.Keys
      invariant SortedByDeparture(r)
      invariant DistinctIds(r)
      invariant Ids(r) == set fid | fid in s.flights && fid !in todo && keep(s.flights[fid])
      invariant forall i :: 0 <= i < |r| ==> r[i].flightId in s.flights && r[i] == View(s, r[i].flightId)
      decreases |todo|
    {
      NonEmptyHasElement(todo);
      var fid :| fid in todo;
      if keep(s.flights[fid]) {
        InsertKeepsOrder(r, View(s, fid));
        InsertIds(r, View(s, fid));
        var before := r;
        r := Insert(r, View(s, fid));
        forall i | 0 <= i < |r| ensures r[i].flightId in s.flights && r[i] == View(s, r[i].flightId) {
          assert r[i] in before || r[i] == View(s, fid);
        }
      }
      todo := todo - {fid};
    }
  }

  /** `findAllFlights`: every flight with its seats, ordered by departure time. */
  method FindAllFlights(s: Store) returns (r: seq<FlightView>)
    ensures SortedByDeparture(r)
    ensures DistinctIds(r)
    ensures Ids(r) == s.flights.Keys
    ensures forall i :: 0 <= i < |r| ==> r[i].flightId in s.flights && r[i] == View(s, r[i].flightId)
  {
    r := ListFlights(s, f => true);
  }

  /** Whether a bound number equals a City id column; a truthy test comes first in the service. */
  predicate Active(n: Option<Number>)
  {
    n.Some? && Truthy(Num(n.value))
  }

  /**
    The WHERE clause `filterFlights` builds: one conjunct per truthy filter,
    `date(departure_time)` computed by SQLite's `date`, here the parameter `sqlDate`.
   */
  predicate MatchesFilters(f: Flight, filters: Filters, sqlDate: string -> Option<string>)
  {
    && (Active(filters.origin) ==> filters.origin.value == Finite(f.fromCity as real))
    && (Active(filters.destination) ==> filters.destination.value == Finite(f.toCity as real))
    && (filters.date.Some? && filters.date.value != [] ==> sqlDate(f.departureTime) == Some(filters.date.value))
  }

  /** No filter is both present and truthy. */
  predicate NoActiveFilter(filters: Filters)
  {
    !Active(filters.origin) && !Active(filters.destination) && (filters.date.None? || filters.date.value == [])
  }

  /**
    `filterFlights`: exactly the flights matching every supplied truthy filter,
    each with its seats, ordered by departure time; with no such filter, all flights.
   */
  method FilterFlights(s: Store, filters: Filters, sqlDate: string -> Option<string>) returns (r: seq<FlightView>)
    ensures SortedByDeparture(r)
    ensures DistinctIds(r)
    ensures forall fid :: fid in Ids(r) <==> fid in s.flights && MatchesFilters(s.flights[fid], filters, sqlDate)
    ensures forall i :: 0 <= i < |r| ==> r[i].flightId in s.flights && r[i] == View(s, r[i].flightId)
    ensures NoActiveFilter(filters) ==> Ids(r) == s.flights.Keys
  {
    r := ListFlights(s, f => MatchesFilters(f, filters, sqlDate));
  }
}
