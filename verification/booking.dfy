/**
 * The reservation, cancellation and "my reservations" workflows. Each one is
 * a function from the store and the request to a `Step`: the store after the
 * workflow and the outcome the user sees. The reservation writes all its
 * tickets in one commit or none of them.
 */
module Booking {
  import opened Wrappers
  import opened Seqs
  import opened Calendar
  import opened Models
  import opened Seats

  // ------------------------------------------------------------ pricing

  /**
   * The per-ticket price of a seat class: the base fare times 2.5 for
   * BUSINESS, times 4 for FIRST, and unchanged for any other class text.
   */
  function TicketPrice(seatClass: string): (p: int)
    ensures seatClass == "BUSINESS" ==> 2 * p == 5 * BasePrice
    ensures seatClass == "FIRST" ==> p == 4 * BasePrice
    ensures seatClass != "BUSINESS" && seatClass != "FIRST" ==> p == BasePrice
  {
    if seatClass == "BUSINESS" then 500
    else if seatClass == "FIRST" then 800
    else BasePrice
  }

  function SumPrices(tickets: seq<Ticket>): int {
    if tickets == [] then 0 else tickets[0].price + SumPrices(tickets[1..])
  }

  lemma {:induction false} SumOfEqualPrices(tickets: seq<Ticket>, price: int)
    requires forall k :: 0 <= k < |tickets| ==> tickets[k].price == price
    ensures SumPrices(tickets) == |tickets| * price
  {
    if tickets != [] {
      SumOfEqualPrices(tickets[1..], price);
    }
  }

  // ------------------------------------------------------------ reserve

  /** The reservation form; an absent field takes the form's default (1 passenger, ECONOMY). */
  datatype ReserveForm = ReserveForm(numPassengers: Option<int>, seatClass: Option<string>)

  datatype ReserveError = TooFewPassengers | NotEnoughSeats(available: int)

  datatype ReserveResponse =
    | FlightNotFound
    | ReservePage(flight: Flight)
    | ReserveRejected(error: ReserveError)
    | Booked(count: nat, total: int)
    | BookingFailed

  /**
   * The tickets one reservation creates. The `i`-th sits in row `existing + i + 1`,
   * where `existing` counts every ticket of the flight whatever its status,
   * and takes the `i`-th letter of the A-F cycle.
   */
  function NewTickets(first: int, user: int, flightNumber: string, seatClass: string, price: int,
                      now: DateTime, existing: nat, n: nat): seq<Ticket>
  {
    seq(n, i requires 0 <= i < n =>
      Ticket(first + i, user, flightNumber, SeatNumber(existing + i + 1, i), seatClass, price, now, Active))
  }

  /**
   * The reservation page for `flightNumber`, requested by passenger `user` at
   * time `now`. A GET shows the form. A POST checks the passenger count
   * against 1 and the flight's available seats, prices the tickets by class,
   * and appends all of them to the store when the commit succeeds.
   */
  function Reserve(st: Store, verb: Method, flightNumber: string, form: ReserveForm,
                   user: int, now: DateTime, commit: Commit): (r: Step<ReserveResponse>)
    ensures !r.response.Booked? ==> r.store == st
    ensures r.response == FlightNotFound <==> FindFlight(st.flights, flightNumber).None?
    ensures verb == Get && FindFlight(st.flights, flightNumber).Some? ==>
      r.response == ReservePage(FindFlight(st.flights, flightNumber).value)
  {
    match FindFlight(st.flights, flightNumber)
    case None => Step(st, FlightNotFound)
    case Some(f) =>
      if verb == Get then Step(st, ReservePage(f))
      else
        var n := RequestedCount(form);
        var seatClass := form.seatClass.GetOr("ECONOMY");
        var available := AvailableSeats(st, f);
        if n < 1 then Step(st, ReserveRejected(TooFewPassengers))
        else if n > available then Step(st, ReserveRejected(NotEnoughSeats(available)))
        else
          var price := TicketPrice(seatClass);
          var batch := NewTickets(st.nextTicketNumber, user, f.number, seatClass, price, now,
                                  |TicketsOn(st.tickets, f.number)|, n);
          if commit == CommitFailed then Step(st, BookingFailed)
          else
            Step(st.(tickets := st.tickets + batch, nextTicketNumber := st.nextTicketNumber + n),
                 Booked(n, price * n))
  }

  /** The passenger count a POST asks for. */
  function RequestedCount(form: ReserveForm): int {
    form.numPassengers.GetOr(1)
  }

  /** A booking succeeds exactly when the count is between 1 and the flight's free seats and the commit goes through. */
  lemma ReserveOutcome(st: Store, flightNumber: string, form: ReserveForm, user: int, now: DateTime, commit: Commit)
    requires FindFlight(st.flights, flightNumber).Some?
    ensures var f := FindFlight(st.flights, flightNumber).value;
      var n := RequestedCount(form);
      var r := Reserve(st, Post, flightNumber, form, user, now, commit);
      && (n < 1 ==> r.response == ReserveRejected(TooFewPassengers))
      && (n >= 1 && n > AvailableSeats(st, f) ==> r.response == ReserveRejected(NotEnoughSeats(AvailableSeats(st, f))))
      && (r.response.Booked? <==> 1 <= n <= AvailableSeats(st, f) && commit == Committed)
      && (r.response.BookingFailed? <==> 1 <= n <= AvailableSeats(st, f) && commit == CommitFailed)
  {
  }

  /** Booking every remaining seat is allowed; one more than that is not. */
  lemma ReserveBoundary(st: Store, flightNumber: string, seatClass: Option<string>, user: int, now: DateTime)
    requires FindFlight(st.flights, flightNumber).Some?
    requires AvailableSeats(st, FindFlight(st.flights, flightNumber).value) >= 1
    ensures var k := AvailableSeats(st, FindFlight(st.flights, flightNumber).value);
      && Reserve(st, Post, flightNumber, ReserveForm(Some(k), seatClass), user, now, Committed).response.Booked?
      && Reserve(st, Post, flightNumber, ReserveForm(Some(k + 1), seatClass), user, now, Committed).response
           == ReserveRejected(NotEnoughSeats(k))
  {
    var k := AvailableSeats(st, FindFlight(st.flights, flightNumber).value);
    ReserveOutcome(st, flightNumber, ReserveForm(Some(k), seatClass), user, now, Committed);
    ReserveOutcome(st, flightNumber, ReserveForm(Some(k + 1), seatClass), user, now, Committed);
  }

  /** On a booking the store gains exactly the batch `NewTickets` describes, and the ticket counter moves past it. */
  lemma ReserveBookedStore(st: Store, flightNumber: string, form: ReserveForm, user: int, now: DateTime)
    requires Reserve(st, Post, flightNumber, form, user, now, Committed).response.Booked?
    ensures FindFlight(st.flights, flightNumber).Some?
    ensures var r := Reserve(st, Post, flightNumber, form, user, now, Committed);
      var n := RequestedCount(form);
      var seatClass := form.seatClass.GetOr("ECONOMY");
      var batch := NewTickets(st.nextTicketNumber, user, flightNumber, seatClass, TicketPrice(seatClass), now,
                              |TicketsOn(st.tickets, flightNumber)|, n);
      && 1 <= n <= AvailableSeats(st, FindFlight(st.flights, flightNumber).value)
      && r.response == Booked(n, TicketPrice(seatClass) * n)
      && r.store == st.(tickets := st.tickets + batch, nextTicketNumber := st.nextTicketNumber + n)
  {
    var f := FindFlight(st.flights, flightNumber).value;
    assert f.number == flightNumber;
  }

  /**
   * What a booking's batch looks like: `|batch|` tickets, each ACTIVE, belonging
   * to the passenger and the flight, with the class and its price, the booking
   * time and the next fresh number. The seat row of the `i`-th is its place
   * after the `existing` tickets of the flight, and its letter cycles with `i`.
   */
  predicate WellFormedBatch(batch: seq<Ticket>, first: int, user: int, flightNumber: string, seatClass: string,
                            price: int, now: DateTime, existing: nat)
  {
    forall i :: 0 <= i < |batch| ==>
      && batch[i].status == Active
      && batch[i].passengerId == user
      && batch[i].flightNumber == flightNumber
      && batch[i].seatClass == seatClass
      && batch[i].price == price
      && batch[i].bookingDate == now
      && batch[i].number == first + i
      && SeatRow(batch[i].seatNumber) == Some(existing + i + 1)
      && batch[i].seatNumber[|batch[i].seatNumber| - 1] == SeatLetter(i)
  }

  /** `NewTickets` builds a well-formed batch of exactly `n` tickets, costing `n` times the price. */
  lemma NewTicketsShape(first: int, user: int, flightNumber: string, seatClass: string, price: int,
                        now: DateTime, existing: nat, n: nat)
    ensures var batch := NewTickets(first, user, flightNumber, seatClass, price, now, existing, n);
      && |batch| == n
      && WellFormedBatch(batch, first, user, flightNumber, seatClass, price, now, existing)
      && SumPrices(batch) == n * price
    ensures var batch := NewTickets(first, user, flightNumber, seatClass, price, now, existing, n);
      forall i :: 0 <= i < n ==> batch[i].seatNumber == SeatNumber(existing + i + 1, i)
  {
    var batch := NewTickets(first, user, flightNumber, seatClass, price, now, existing, n);
    assert |batch| == n;
    NewTicketsWellFormed(first, user, flightNumber, seatClass, price, now, existing, n);
    NewTicketSeats(first, user, flightNumber, seatClass, price, now, existing, n);
    SumOfEqualPrices(batch, price);
  }

  lemma NewTicketSeats(first: int, user: int, flightNumber: string, seatClass: string, price: int,
                       now: DateTime, existing: nat, n: nat)
    ensures var batch := NewTickets(first, user, flightNumber, seatClass, price, now, existing, n);
      forall i :: 0 <= i < n ==> batch[i].seatNumber == SeatNumber(existing + i + 1, i)
  {
  }

  lemma NewTicketsWellFormed(first: int, user: int, flightNumber: string, seatClass: string, price: int,
                             now: DateTime, existing: nat, n: nat)
    ensures WellFormedBatch(NewTickets(first, user, flightNumber, seatClass, price, now, existing, n),
                            first, user, flightNumber, seatClass, price, now, existing)
  {
    var batch := NewTickets(first, user, flightNumber, seatClass, price, now, existing, n);
    forall i | 0 <= i < |batch|
      ensures SeatRow(batch[i].seatNumber) == Some(existing + i + 1)
      ensures batch[i].seatNumber[|batch[i].seatNumber| - 1] == SeatLetter(i)
    {
      SeatOfNewTicket(batch[i].seatNumber, existing, i);
    }
  }

  lemma SeatOfNewTicket(seat: string, existing: nat, i: nat)
    requires seat == SeatNumber(existing + i + 1, i)
    ensures SeatRow(seat) == Some(existing + i + 1)
    ensures seat[|seat| - 1] == SeatLetter(i)
  {
    SeatNumberShape(existing + i + 1, i);
  }

  /**
   * A successful booking appends exactly `n` tickets after the existing ones,
   * a well-formed batch numbered from the ticket counter, and charges the sum
   * of their prices; the other tables are untouched.
   */
  lemma ReserveCreatesTickets(st: Store, flightNumber: string, form: ReserveForm, user: int, now: DateTime)
    requires Reserve(st, Post, flightNumber, form, user, now, Committed).response.Booked?
    ensures var r := Reserve(st, Post, flightNumber, form, user, now, Committed);
      var n := RequestedCount(form);
      var seatClass := form.seatClass.GetOr("ECONOMY");
      var existing := |TicketsOn(st.tickets, flightNumber)|;
      var added := r.store.tickets[|st.tickets|..];
      && r.response.count == n
      && |r.store.tickets| == |st.tickets| + n
      && r.store.tickets[..|st.tickets|] == st.tickets
      && WellFormedBatch(added, st.nextTicketNumber, user, flightNumber, seatClass, TicketPrice(seatClass), now, existing)
      && r.response.total == SumPrices(added)
      && r.store.nextTicketNumber == st.nextTicketNumber + n
      && r.store.passengers == st.passengers && r.store.flights == st.flights
      && r.store.aircraft == st.aircraft
  {
    var n := RequestedCount(form);
    var seatClass := form.seatClass.GetOr("ECONOMY");
    var existing := |TicketsOn(st.tickets, flightNumber)|;
    var batch := NewTickets(st.nextTicketNumber, user, flightNumber, seatClass, TicketPrice(seatClass), now, existing, n);
    var r := Reserve(st, Post, flightNumber, form, user, now, Committed);
    ReserveBookedStore(st, flightNumber, form, user, now);
    NewTicketsShape(st.nextTicketNumber, user, flightNumber, seatClass, TicketPrice(seatClass), now, existing, n);
    assert r.store.tickets == st.tickets + batch;
    assert r.store.tickets[|st.tickets|..] == batch;
    assert r.store.tickets[..|st.tickets|] == st.tickets;
  }

  /** A booking of `n` seats lowers the flight's availability by exactly `n`, never below zero, and no other flight's. */
  lemma ReserveAvailability(st: Store, flightNumber: string, form: ReserveForm, user: int, now: DateTime, g: Flight)
    requires Reserve(st, Post, flightNumber, form, user, now, Committed).response.Booked?
    ensures var r := Reserve(st, Post, flightNumber, form, user, now, Committed);
      var f := FindFlight(st.flights, flightNumber).value;
      && AvailableSeats(r.store, f) == AvailableSeats(st, f) - RequestedCount(form)
      && AvailableSeats(r.store, f) >= 0
      && (g.number != flightNumber ==> AvailableSeats(r.store, g) == AvailableSeats(st, g))
  {
    var f := FindFlight(st.flights, flightNumber).value;
    var n := RequestedCount(form);
    var seatClass := form.seatClass.GetOr("ECONOMY");
    var existing := |TicketsOn(st.tickets, flightNumber)|;
    var batch := NewTickets(st.nextTicketNumber, user, flightNumber, seatClass, TicketPrice(seatClass), now, existing, n);
    ReserveBookedStore(st, flightNumber, form, user, now);
    NewTicketsShape(st.nextTicketNumber, user, flightNumber, seatClass, TicketPrice(seatClass), now, existing, n);
    AvailableAfterAppend(st, batch, f);
    AvailableAfterAppend(st, batch, g);
    AllBooked(batch, f.number);
    if g.number != flightNumber {
      NoneBooked(batch, g.number);
    }
  }

  /** Appending tickets lowers a flight's availability by the appended ACTIVE tickets of that flight. */
  lemma AvailableAfterAppend(st: Store, batch: seq<Ticket>, f: Flight)
    ensures AvailableSeats(st.(tickets := st.tickets + batch), f) ==
      if f.aircraftId in st.aircraft then AvailableSeats(st, f) - |BookedOn(batch, f.number)| else 0
  {
    BookedOnAppend(st.tickets, batch, f.number);
    BookedOnCountsActiveRows(st.tickets, f.number);
    BookedOnCountsActiveRows(st.tickets + batch, f.number);
  }

  lemma {:induction false} AllBooked(batch: seq<Ticket>, number: string)
    requires forall i :: 0 <= i < |batch| ==> batch[i].flightNumber == number && batch[i].status == Active
    ensures TicketsOn(batch, number) == batch
    ensures BookedOn(batch, number) == batch
  {
    if batch != [] {
      assert batch == [batch[0]] + batch[1..];
      BookedOnAppend([batch[0]], batch[1..], number);
      BookedOnSingle(batch[0], number);
      assert TicketsOn([batch[0]], number) == [batch[0]] by {
        assert [batch[0]][1..] == [];
      }
      AllBooked(batch[1..], number);
    }
  }

  lemma {:induction false} NoneBooked(batch: seq<Ticket>, number: string)
    requires forall i :: 0 <= i < |batch| ==> batch[i].flightNumber != number
    ensures TicketsOn(batch, number) == []
    ensures BookedOn(batch, number) == []
  {
    if batch != [] {
      assert batch == [batch[0]] + batch[1..];
      BookedOnAppend([batch[0]], batch[1..], number);
      assert TicketsOn([batch[0]], number) == [] by {
        assert [batch[0]][1..] == [];
      }
      NoneBooked(batch[1..], number);
    }
  }

  // ------------------------------------------------------------- cancel

  datatype CancelResponse = TicketNotFound | Unauthorized | AlreadyCanceled | Cancelled | CancelFailed

  /**
   * Cancellation of ticket `ticketNumber` by passenger `user`: only the owner
   * may cancel, a ticket already CANCELED is left alone, and otherwise the
   * ticket's status becomes CANCELED when the commit succeeds.
   */
  function CancelTicket(st: Store, ticketNumber: int, user: int, commit: Commit): (r: Step<CancelResponse>)
    ensures !r.response.Cancelled? ==> r.store == st
    ensures r.response.Cancelled? ==>
      && r.store == st.(tickets := r.store.tickets)
      && |r.store.tickets| == |st.tickets|
      && exists i :: 0 <= i < |st.tickets| && st.tickets[i].number == ticketNumber
           && st.tickets[i].passengerId == user && st.tickets[i].status != Canceled
           && r.store.tickets == st.tickets[i := st.tickets[i].(status := Canceled)]
  {
    match FindTicket(st.tickets, ticketNumber)
    case None => Step(st, TicketNotFound)
    case Some(i) =>
      var t := st.tickets[i];
      if t.passengerId != user then Step(st, Unauthorized)
      else if t.status == Canceled then Step(st, AlreadyCanceled)
      else if commit == CommitFailed then Step(st, CancelFailed)
      else Step(st.(tickets := st.tickets[i := t.(status := Canceled)]), Cancelled)
  }

  /**
   * Every outcome of a cancellation, decided in the order the page checks:
   * a missing ticket, another passenger's ticket, a ticket already CANCELED;
   * otherwise the ticket is cancelled exactly when the commit succeeds.
   */
  lemma CancelOutcome(st: Store, ticketNumber: int, user: int, commit: Commit)
    ensures var r := CancelTicket(st, ticketNumber, user, commit).response;
      var hit := FindTicket(st.tickets, ticketNumber);
      && (r == TicketNotFound <==> forall i :: 0 <= i < |st.tickets| ==> st.tickets[i].number != ticketNumber)
      && (r == Unauthorized <==> hit.Some? && st.tickets[hit.value].passengerId != user)
      && (r == AlreadyCanceled <==>
            hit.Some? && st.tickets[hit.value].passengerId == user && st.tickets[hit.value].status == Canceled)
      && (r == Cancelled <==>
            hit.Some? && st.tickets[hit.value].passengerId == user && st.tickets[hit.value].status != Canceled
            && commit == Committed)
      && (r == CancelFailed <==>
            hit.Some? && st.tickets[hit.value].passengerId == user && st.tickets[hit.value].status != Canceled
            && commit == CommitFailed)
  {
    var hit := FindTicket(st.tickets, ticketNumber);
    if hit.Some? {
      assert st.tickets[hit.value].number == ticketNumber;
    }
  }

  /** Someone else's ticket is refused and nothing changes. */
  lemma CancelRequiresOwner(st: Store, ticketNumber: int, user: int, commit: Commit)
    requires FindTicket(st.tickets, ticketNumber).Some?
    requires st.tickets[FindTicket(st.tickets, ticketNumber).value].passengerId != user
    ensures CancelTicket(st, ticketNumber, user, commit) == Step(st, Unauthorized)
  {
  }

  /** Cancelling twice is cancelling once: the second request finds the ticket CANCELED and changes nothing. */
  lemma CancelIdempotent(st: Store, ticketNumber: int, user: int, commit: Commit)
    requires CancelTicket(st, ticketNumber, user, Committed).response.Cancelled?
    ensures var once := CancelTicket(st, ticketNumber, user, Committed).store;
      CancelTicket(once, ticketNumber, user, commit) == Step(once, AlreadyCanceled)
  {
    var i := FindTicket(st.tickets, ticketNumber).value;
    var once := CancelTicket(st, ticketNumber, user, Committed).store;
    FindTicketAfterUpdate(st.tickets, i, st.tickets[i].(status := Canceled), ticketNumber);
  }

  lemma {:induction false} FindTicketAfterUpdate(tickets: seq<Ticket>, i: nat, t: Ticket, number: int)
    requires FindTicket(tickets, number) == Some(i)
    requires t.number == number
    ensures FindTicket(tickets[i := t], number) == Some(i)
  {
    if i > 0 {
      assert tickets[i := t][1..] == tickets[1..][i - 1 := t];
      FindTicketAfterUpdate(tickets[1..], i - 1, t, number);
    }
  }

  lemma ActiveRowsAfterUpdate(tickets: seq<Ticket>, i: nat, t: Ticket, number: string)
    requires i < |tickets|
    requires t.flightNumber == tickets[i].flightNumber && t.status != Active
    ensures ActiveRows(tickets[i := t], number) == ActiveRows(tickets, number) - {i}
  {
  }

  /**
   * Cancelling an ACTIVE ticket frees exactly one seat on its flight;
   * cancelling a RESCHEDULED one frees none; no other flight is affected.
   */
  lemma CancelAvailability(st: Store, ticketNumber: int, user: int, f: Flight)
    requires CancelTicket(st, ticketNumber, user, Committed).response.Cancelled?
    ensures var t := st.tickets[FindTicket(st.tickets, ticketNumber).value];
      var after := CancelTicket(st, ticketNumber, user, Committed).store;
      AvailableSeats(after, f) ==
        AvailableSeats(st, f) + (if f.number == t.flightNumber && t.status == Active && f.aircraftId in st.aircraft then 1 else 0)
  {
    var i := FindTicket(st.tickets, ticketNumber).value;
    assert CancelTicket(st, ticketNumber, user, Committed).store
      == st.(tickets := st.tickets[i := st.tickets[i].(status := Canceled)]);
    AvailableAfterStatus(st, i, Canceled, f);
  }

  /** Taking one ticket out of ACTIVE frees its seat, on its own flight only. */
  lemma AvailableAfterStatus(st: Store, i: nat, s: TicketStatus, f: Flight)
    requires i < |st.tickets| && s != Active
    ensures var t := st.tickets[i];
      AvailableSeats(st.(tickets := st.tickets[i := t.(status := s)]), f) ==
        AvailableSeats(st, f) + (if f.number == t.flightNumber && t.status == Active && f.aircraftId in st.aircraft then 1 else 0)
  {
    var t := st.tickets[i];
    ActiveRowsAfterUpdate(st.tickets, i, t.(status := s), f.number);
    if f.number == t.flightNumber && t.status == Active {
      assert i in ActiveRows(st.tickets, f.number);
    } else {
      assert i !in ActiveRows(st.tickets, f.number);
    }
  }

  // ---------------------------------------------------- my reservations

  function OwnedBy(user: int): Ticket -> bool {
    (t: Ticket) => t.passengerId == user
  }

  /** Newest booking first: no ticket is followed by one booked later. */
  predicate NewestFirst(tickets: seq<Ticket>) {
    forall i, j :: 0 <= i < j < |tickets| ==> !Earlier(tickets[i].bookingDate, tickets[j].bookingDate)
  }

  function InsertByDate(t: Ticket, sorted: seq<Ticket>): (r: seq<Ticket>)
    requires NewestFirst(sorted)
    ensures NewestFirst(r)
    ensures multiset(r) == multiset(sorted) + multiset{t}
    ensures |r| == |sorted| + 1
    ensures forall k :: 0 <= k < |r| ==> r[k] == t || r[k] in sorted
  {
    if sorted == [] || !Earlier(t.bookingDate, sorted[0].bookingDate) then
      assert forall k :: 1 <= k < |sorted| + 1 ==> ([t] + sorted)[k] == sorted[k - 1];
      AheadOfAll(t, sorted);
      [t] + sorted
    else
      var rest := InsertByDate(t, sorted[1..]);
      assert sorted == [sorted[0]] + sorted[1..];
      InsertBehindHead(t, sorted, rest);
      [sorted[0]] + rest
  }

  /** A ticket not booked before the newest of a newest-first list can go in front of it. */
  lemma AheadOfAll(t: Ticket, sorted: seq<Ticket>)
    requires NewestFirst(sorted)
    requires sorted == [] || !Earlier(t.bookingDate, sorted[0].bookingDate)
    ensures NewestFirst([t] + sorted)
  {
    forall k | 0 <= k < |sorted|
      ensures !Earlier(t.bookingDate, sorted[k].bookingDate)
    {
      if k > 0 {
        EarlierIsStrictTotalOrder(t.bookingDate, sorted[0].bookingDate, sorted[k].bookingDate);
        EarlierIsStrictTotalOrder(sorted[0].bookingDate, sorted[k].bookingDate, t.bookingDate);
      }
    }
    FrontOfNewestFirst(t, sorted);
  }

  /** The newest ticket stays in front when `t`, booked earlier, is inserted behind it. */
  lemma InsertBehindHead(t: Ticket, sorted: seq<Ticket>, rest: seq<Ticket>)
    requires NewestFirst(sorted) && sorted != [] && Earlier(t.bookingDate, sorted[0].bookingDate)
    requires NewestFirst(rest)
    requires forall k :: 0 <= k < |rest| ==> rest[k] == t || rest[k] in sorted[1..]
    ensures NewestFirst([sorted[0]] + rest)
  {
    forall k | 0 <= k < |rest|
      ensures !Earlier(sorted[0].bookingDate, rest[k].bookingDate)
    {
      if rest[k] == t {
        EarlierIsStrictTotalOrder(t.bookingDate, sorted[0].bookingDate, t.bookingDate);
      } else {
        var m :| 0 <= m < |sorted[1..]| && sorted[1..][m] == rest[k];
        assert sorted[m + 1] == rest[k];
      }
    }
    FrontOfNewestFirst(sorted[0], rest);
  }

  lemma FrontOfNewestFirst(h: Ticket, rest: seq<Ticket>)
    requires NewestFirst(rest)
    requires forall k :: 0 <= k < |rest| ==> !Earlier(h.bookingDate, rest[k].bookingDate)
    ensures NewestFirst([h] + rest)
  {
    var r := [h] + rest;
    forall i, j | 0 <= i < j < |r|
      ensures !Earlier(r[i].bookingDate, r[j].bookingDate)
    {
      if i > 0 {
        assert r[i] == rest[i - 1] && r[j] == rest[j - 1];
      } else {
        assert r[j] == rest[j - 1];
      }
    }
  }

  function SortNewestFirst(tickets: seq<Ticket>): (r: seq<Ticket>)
    ensures NewestFirst(r)
    ensures multiset(r) == multiset(tickets)
  {
    if tickets == [] then []
    else
      assert tickets == [tickets[0]] + tickets[1..];
      InsertByDate(tickets[0], SortNewestFirst(tickets[1..]))
  }

  /**
   * "My reservations": the requesting passenger's tickets, every one of them
   * and no other, ordered by booking date with the newest first.
   */
  function MyReservations(st: Store, user: int): (r: seq<Ticket>)
    ensures NewestFirst(r)
    ensures multiset(r) == multiset(Filter(st.tickets, OwnedBy(user)))
    ensures forall t :: t in r <==> t in st.tickets && t.passengerId == user
  {
    var mine := Filter(st.tickets, OwnedBy(user));
    var r := SortNewestFirst(mine);
    FilterMembership(st.tickets, OwnedBy(user));
    SameMembers(r, mine);
    r
  }
}
