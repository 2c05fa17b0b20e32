/**
 * What the schema's keys and constraints guarantee about the store, and what
 * the workflows add to it: no flight is sold beyond its capacity, and the
 * seat rows of a flight's tickets count up from 1 in booking order, so no two
 * tickets of a flight share a seat number. Each workflow preserves all of it.
 */
module Invariants {
  import opened Wrappers
  import opened Seqs
  import opened Calendar
  import opened Models
  import opened Seats
  import opened Booking
  import opened Auth

  // ------------------------------------------------------------ the keys

  /** `flight_number` is the flight table's primary key. */
  predicate FlightKeysUnique(flights: seq<Flight>) {
    forall i, j :: 0 <= i < j < |flights| ==> flights[i].number != flights[j].number
  }

  /** Ticket numbers are distinct and all below the number the next ticket gets. */
  predicate TicketKeysFresh(tickets: seq<Ticket>, next: int) {
    && (forall i, j :: 0 <= i < j < |tickets| ==> tickets[i].number != tickets[j].number)
    && (forall i :: 0 <= i < |tickets| ==> tickets[i].number < next)
  }

  /** Passenger ids are distinct and all below the id the next passenger gets. */
  predicate PassengerKeysFresh(passengers: seq<Passenger>, next: int) {
    && (forall i, j :: 0 <= i < j < |passengers| ==> passengers[i].id != passengers[j].id)
    && (forall i :: 0 <= i < |passengers| ==> passengers[i].id < next)
  }

  /** The email column is unique among the passengers that have one. */
  predicate EmailsUnique(passengers: seq<Passenger>) {
    forall i, j :: 0 <= i < j < |passengers| && passengers[i].email.Some? ==> passengers[i].email != passengers[j].email
  }

  ghost function FlightNumbers(flights: seq<Flight>): set<string> {
    set i | 0 <= i < |flights| :: flights[i].number
  }

  ghost function PassengerIds(passengers: seq<Passenger>): set<int> {
    set i | 0 <= i < |passengers| :: passengers[i].id
  }

  /** Every ticket's foreign keys name an existing flight and an existing passenger. */
  ghost predicate TicketsReferToRows(st: Store) {
    forall i :: 0 <= i < |st.tickets| ==>
      st.tickets[i].flightNumber in FlightNumbers(st.flights) && st.tickets[i].passengerId in PassengerIds(st.passengers)
  }

  // ----------------------------------------------------- the workflows' own

  /** No flight of the table has more ACTIVE tickets than its aircraft has seats. */
  predicate NoOverbooking(st: Store) {
    forall i :: 0 <= i < |st.flights| ==> AvailableSeats(st, st.flights[i]) >= 0
  }

  /** On every flight, the `k`-th ticket ever booked (from 0) sits in row `k + 1`. */
  ghost predicate SeatsSequential(tickets: seq<Ticket>) {
    forall number: string, k :: 0 <= k < |TicketsOn(tickets, number)| ==>
      SeatRow(TicketsOn(tickets, number)[k].seatNumber) == Some(k + 1)
  }

  ghost predicate Valid(st: Store) {
    && FlightKeysUnique(st.flights)
    && TicketKeysFresh(st.tickets, st.nextTicketNumber)
    && PassengerKeysFresh(st.passengers, st.nextPassengerId)
    && EmailsUnique(st.passengers)
    && TicketsReferToRows(st)
    && NoOverbooking(st)
    && SeatsSequential(st.tickets)
  }

  /** With sequential rows, two tickets of one flight never share a seat number. */
  lemma SeatNumbersDistinct(tickets: seq<Ticket>, number: string, a: nat, b: nat)
    requires SeatsSequential(tickets)
    requires a < b < |TicketsOn(tickets, number)|
    ensures TicketsOn(tickets, number)[a].seatNumber != TicketsOn(tickets, number)[b].seatNumber
  {
    assert SeatRow(TicketsOn(tickets, number)[a].seatNumber) == Some(a + 1);
    assert SeatRow(TicketsOn(tickets, number)[b].seatNumber) == Some(b + 1);
  }

  /** With unique flight numbers, the lookup by number finds the one flight that has it. */
  lemma {:induction false} FindFlightUnique(flights: seq<Flight>, i: nat)
    requires FlightKeysUnique(flights) && i < |flights|
    ensures FindFlight(flights, flights[i].number) == Some(flights[i])
  {
    if i > 0 {
      assert flights[0].number != flights[i].number;
      FindFlightUnique(flights[1..], i - 1);
    }
  }

  // ------------------------------------------------------------- reserve

  lemma ReserveKeepsTicketKeys(st: Store, batch: seq<Ticket>, first: int, user: int, flightNumber: string,
                               seatClass: string, price: int, now: DateTime, existing: nat)
    requires TicketKeysFresh(st.tickets, first)
    requires WellFormedBatch(batch, first, user, flightNumber, seatClass, price, now, existing)
    ensures TicketKeysFresh(st.tickets + batch, first + |batch|)
  {
    var ts := st.tickets + batch;
    forall i, j | 0 <= i < j < |ts|
      ensures ts[i].number != ts[j].number
    {
      if j >= |st.tickets| {
        assert ts[j] == batch[j - |st.tickets|];
        if i >= |st.tickets| {
          assert ts[i] == batch[i - |st.tickets|];
        }
      }
    }
  }

  /** Rows counting up from 1, followed by rows counting up from where they stopped, still count up from 1. */
  lemma RowsOfAppend(front: seq<Ticket>, back: seq<Ticket>)
    requires forall j :: 0 <= j < |front| ==> SeatRow(front[j].seatNumber) == Some(j + 1)
    requires forall j :: 0 <= j < |back| ==> SeatRow(back[j].seatNumber) == Some(|front| + j + 1)
    ensures forall k :: 0 <= k < |front + back| ==> SeatRow((front + back)[k].seatNumber) == Some(k + 1)
  {
    forall k | 0 <= k < |front + back|
      ensures SeatRow((front + back)[k].seatNumber) == Some(k + 1)
    {
      if k >= |front| {
        assert (front + back)[k] == back[k - |front|];
      }
    }
  }

  /** The flight's seats after a booking: the old rows, then the batch's rows right after them. */
  lemma ReserveKeepsSeatsOn(tickets: seq<Ticket>, batch: seq<Ticket>, first: int, user: int, flightNumber: string,
                            seatClass: string, price: int, now: DateTime, number: string)
    requires forall k :: 0 <= k < |TicketsOn(tickets, number)| ==>
      SeatRow(TicketsOn(tickets, number)[k].seatNumber) == Some(k + 1)
    requires WellFormedBatch(batch, first, user, flightNumber, seatClass, price, now, |TicketsOn(tickets, flightNumber)|)
    ensures forall k :: 0 <= k < |TicketsOn(tickets + batch, number)| ==>
      SeatRow(TicketsOn(tickets + batch, number)[k].seatNumber) == Some(k + 1)
  {
    var front, back := TicketsOn(tickets, number), TicketsOn(batch, number);
    BookedOnAppend(tickets, batch, number);
    BatchRowsOn(batch, first, user, flightNumber, seatClass, price, now, |TicketsOn(tickets, flightNumber)|, number);
    RowsOfAppend(front, back);
  }

  /** A batch's tickets on its own flight are the whole batch, rows following `existing`; on any other flight there are none. */
  lemma BatchRowsOn(batch: seq<Ticket>, first: int, user: int, flightNumber: string,
                    seatClass: string, price: int, now: DateTime, existing: nat, number: string)
    requires WellFormedBatch(batch, first, user, flightNumber, seatClass, price, now, existing)
    ensures number == flightNumber ==> TicketsOn(batch, number) == batch
    ensures number != flightNumber ==> TicketsOn(batch, number) == []
    ensures forall j :: 0 <= j < |TicketsOn(batch, number)| ==>
      SeatRow(TicketsOn(batch, number)[j].seatNumber) == Some(existing + j + 1)
  {
    if number == flightNumber {
      AllBooked(batch, number);
    } else {
      NoneBooked(batch, number);
    }
  }

  lemma ReserveKeepsSeats(tickets: seq<Ticket>, batch: seq<Ticket>, first: int, user: int, flightNumber: string,
                          seatClass: string, price: int, now: DateTime)
    requires SeatsSequential(tickets)
    requires WellFormedBatch(batch, first, user, flightNumber, seatClass, price, now, |TicketsOn(tickets, flightNumber)|)
    ensures SeatsSequential(tickets + batch)
  {
    forall number: string
      ensures forall k :: 0 <= k < |TicketsOn(tickets + batch, number)| ==>
        SeatRow(TicketsOn(tickets + batch, number)[k].seatNumber) == Some(k + 1)
    {
      ReserveKeepsSeatsOn(tickets, batch, first, user, flightNumber, seatClass, price, now, number);
    }
  }

  lemma ReserveKeepsOverbooking(st: Store, flightNumber: string, form: ReserveForm, user: int, now: DateTime)
    requires FlightKeysUnique(st.flights) && NoOverbooking(st)
    requires Reserve(st, Post, flightNumber, form, user, now, Committed).response.Booked?
    ensures NoOverbooking(Reserve(st, Post, flightNumber, form, user, now, Committed).store)
  {
    var after := Reserve(st, Post, flightNumber, form, user, now, Committed).store;
    var f := FindFlight(st.flights, flightNumber).value;
    ReserveBookedStore(st, flightNumber, form, user, now);
    forall i | 0 <= i < |after.flights|
      ensures AvailableSeats(after, after.flights[i]) >= 0
    {
      var g := st.flights[i];
      ReserveAvailability(st, flightNumber, form, user, now, g);
      if g.number == flightNumber {
        FindFlightUnique(st.flights, i);
      }
    }
  }

  lemma ReserveKeepsReferences(st: Store, batch: seq<Ticket>, first: int, user: int, flightNumber: string,
                               seatClass: string, price: int, now: DateTime, existing: nat)
    requires TicketsReferToRows(st)
    requires flightNumber in FlightNumbers(st.flights) && user in PassengerIds(st.passengers)
    requires WellFormedBatch(batch, first, user, flightNumber, seatClass, price, now, existing)
    ensures TicketsReferToRows(st.(tickets := st.tickets + batch, nextTicketNumber := first + |batch|))
  {
    var ts := st.tickets + batch;
    forall i | 0 <= i < |ts|
      ensures ts[i].flightNumber in FlightNumbers(st.flights) && ts[i].passengerId in PassengerIds(st.passengers)
    {
      if i >= |st.tickets| {
        assert ts[i] == batch[i - |st.tickets|];
      }
    }
  }

  /** A reservation by a registered passenger keeps the store valid. */
  lemma ReservePreservesValid(st: Store, flightNumber: string, form: ReserveForm, user: int, now: DateTime, commit: Commit)
    requires Valid(st)
    requires user in PassengerIds(st.passengers)
    ensures Valid(Reserve(st, Post, flightNumber, form, user, now, commit).store)
  {
    if commit == Committed && Reserve(st, Post, flightNumber, form, user, now, commit).response.Booked? {
      var n := RequestedCount(form);
      var seatClass := form.seatClass.GetOr("ECONOMY");
      var price := TicketPrice(seatClass);
      var existing := |TicketsOn(st.tickets, flightNumber)|;
      var batch := NewTickets(st.nextTicketNumber, user, flightNumber, seatClass, price, now, existing, n);
      var after := st.(tickets := st.tickets + batch, nextTicketNumber := st.nextTicketNumber + n);
      assert Reserve(st, Post, flightNumber, form, user, now, commit).store == after by {
        ReserveBookedStore(st, flightNumber, form, user, now);
      }
      assert |batch| == n && WellFormedBatch(batch, st.nextTicketNumber, user, flightNumber, seatClass, price, now, existing) by {
        NewTicketsShape(st.nextTicketNumber, user, flightNumber, seatClass, price, now, existing, n);
      }
      assert TicketKeysFresh(after.tickets, after.nextTicketNumber) by {
        ReserveKeepsTicketKeys(st, batch, st.nextTicketNumber, user, flightNumber, seatClass, price, now, existing);
      }
      assert SeatsSequential(after.tickets) by {
        ReserveKeepsSeats(st.tickets, batch, st.nextTicketNumber, user, flightNumber, seatClass, price, now);
      }
      assert NoOverbooking(after) by {
        ReserveBookedStore(st, flightNumber, form, user, now);
        ReserveKeepsOverbooking(st, flightNumber, form, user, now);
      }
      assert TicketsReferToRows(after) by {
        ReserveBookedStore(st, flightNumber, form, user, now);
        var f := FindFlight(st.flights, flightNumber).value;
        var k :| 0 <= k < |st.flights| && st.flights[k] == f;
        assert st.flights[k].number == flightNumber;
        ReserveKeepsReferences(st, batch, st.nextTicketNumber, user, flightNumber, seatClass, price, now, existing);
      }
    }
  }

  // -------------------------------------------------------------- cancel

  /** The seat numbers of a list of tickets, in order. */
  function SeatsOf(tickets: seq<Ticket>): (r: seq<string>)
    ensures |r| == |tickets|
    ensures forall k :: 0 <= k < |tickets| ==> r[k] == tickets[k].seatNumber
  {
    seq(|tickets|, k requires 0 <= k < |tickets| => tickets[k].seatNumber)
  }

  lemma SeatsOfCons(t: Ticket, rest: seq<Ticket>)
    ensures SeatsOf([t] + rest) == [t.seatNumber] + SeatsOf(rest)
  {
    assert ([t] + rest)[1..] == rest;
  }

  /** Rewriting one ticket's status keeps every flight's ticket list, seat for seat. */
  lemma {:induction false} TicketsOnAfterStatus(tickets: seq<Ticket>, i: nat, s: TicketStatus, number: string)
    requires i < |tickets|
    ensures SeatsOf(TicketsOn(tickets[i := tickets[i].(status := s)], number)) == SeatsOf(TicketsOn(tickets, number))
  {
    var updated := tickets[i := tickets[i].(status := s)];
    var rest, updatedRest := TicketsOn(tickets[1..], number), TicketsOn(updated[1..], number);
    if i > 0 {
      assert updated[1..] == tickets[1..][i - 1 := tickets[1..][i - 1].(status := s)];
      TicketsOnAfterStatus(tickets[1..], i - 1, s, number);
    } else {
      assert updated[1..] == tickets[1..];
    }
    assert SeatsOf(updatedRest) == SeatsOf(rest);
    if tickets[0].flightNumber == number {
      SeatsOfCons(tickets[0], rest);
      SeatsOfCons(updated[0], updatedRest);
    }
  }

  lemma CancelKeepsSeats(tickets: seq<Ticket>, i: nat)
    requires i < |tickets| && SeatsSequential(tickets)
    ensures SeatsSequential(tickets[i := tickets[i].(status := Canceled)])
  {
    var after := tickets[i := tickets[i].(status := Canceled)];
    forall number: string, k | 0 <= k < |TicketsOn(after, number)|
      ensures SeatRow(TicketsOn(after, number)[k].seatNumber) == Some(k + 1)
    {
      TicketsOnAfterStatus(tickets, i, Canceled, number);
      assert SeatsOf(TicketsOn(after, number))[k] == SeatsOf(TicketsOn(tickets, number))[k];
    }
  }

  lemma CancelKeepsOverbooking(st: Store, ticketNumber: int, user: int)
    requires NoOverbooking(st)
    requires CancelTicket(st, ticketNumber, user, Committed).response.Cancelled?
    ensures NoOverbooking(CancelTicket(st, ticketNumber, user, Committed).store)
  {
    var after := CancelTicket(st, ticketNumber, user, Committed).store;
    forall j | 0 <= j < |after.flights|
      ensures AvailableSeats(after, after.flights[j]) >= 0
    {
      CancelAvailability(st, ticketNumber, user, after.flights[j]);
    }
  }

  lemma CancelKeepsReferences(st: Store, i: nat)
    requires i < |st.tickets| && TicketsReferToRows(st)
    ensures TicketsReferToRows(st.(tickets := st.tickets[i := st.tickets[i].(status := Canceled)]))
  {
    var after := st.tickets[i := st.tickets[i].(status := Canceled)];
    forall j | 0 <= j < |after|
      ensures after[j].flightNumber == st.tickets[j].flightNumber
      ensures after[j].passengerId == st.tickets[j].passengerId
    {
    }
  }

  lemma CancelKeepsTicketKeys(tickets: seq<Ticket>, i: nat, next: int)
    requires i < |tickets| && TicketKeysFresh(tickets, next)
    ensures TicketKeysFresh(tickets[i := tickets[i].(status := Canceled)], next)
  {
    var after := tickets[i := tickets[i].(status := Canceled)];
    assert forall j :: 0 <= j < |after| ==> after[j].number == tickets[j].number;
  }

  /** A cancellation keeps the store valid. */
  lemma CancelPreservesValid(st: Store, ticketNumber: int, user: int, commit: Commit)
    requires Valid(st)
    ensures Valid(CancelTicket(st, ticketNumber, user, commit).store)
  {
    if commit == Committed && CancelTicket(st, ticketNumber, user, commit).response.Cancelled? {
      var i := FindTicket(st.tickets, ticketNumber).value;
      var after := st.(tickets := st.tickets[i := st.tickets[i].(status := Canceled)]);
      assert CancelTicket(st, ticketNumber, user, commit).store == after;
      CancelKeepsSeats(st.tickets, i);
      CancelKeepsOverbooking(st, ticketNumber, user);
      CancelKeepsReferences(st, i);
      CancelKeepsTicketKeys(st.tickets, i, st.nextTicketNumber);
    }
  }

  // ------------------------------------------------------------ register

  /** A registration keeps the store valid. */
  lemma RegisterPreservesValid(st: Store, verb: Method, form: RegisterForm, commit: Commit)
    requires Valid(st)
    ensures Valid(Register(st, verb, form, commit).store)
  {
    var r := Register(st, verb, form, commit);
    if r.response.Registered? {
      var p := NewPassenger(st.nextPassengerId, form);
      var ps := st.passengers + [p];
      assert FirstFailure(st, form).None?;
      assert FindPassengerByEmail(st.passengers, form.email.value).None?;
      forall i, j | 0 <= i < j < |ps| && ps[i].email.Some?
        ensures ps[i].email != ps[j].email
      {
        if j == |st.passengers| {
          assert ps[i] == st.passengers[i];
        }
      }
      assert PassengerIds(st.passengers) <= PassengerIds(ps) by {
        forall x | x in PassengerIds(st.passengers)
          ensures x in PassengerIds(ps)
        {
          var k :| 0 <= k < |st.passengers| && st.passengers[k].id == x;
          assert ps[k].id == x;
        }
      }
    }
  }
}
