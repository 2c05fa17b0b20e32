/**
 * The entity schema of the booking app as immutable values: airports,
 * airlines, aircraft, flights, passengers and tickets, the store that holds
 * them, and the derived attributes the workflows read (available seats, the
 * flight's base price, a passenger's first and last name and session id, and
 * the stubbed password methods).
 */
module Models {
  import opened Wrappers
  import opened Seqs
  import opened Text
  import opened Decimal
  import opened Calendar

  datatype Airport = Airport(code: string, city: string, country: string)

  datatype Airline = Airline(id: int, name: string)

  datatype Aircraft = Aircraft(id: int, model: string, capacity: int, airlineId: int)

  datatype Flight = Flight(
    number: string,
    airlineId: int,
    aircraftId: int,
    departureAirport: string,
    arrivalAirport: string,
    departureTime: DateTime,
    arrivalTime: DateTime,
    durationMinutes: Option<int>)

  datatype Passenger = Passenger(
    id: int,
    fullName: string,
    dateOfBirth: Date,
    nationality: string,
    phone: Option<string>,
    email: Option<string>)

  /** The values the ticket status column takes. */
  datatype TicketStatus = Active | Canceled | Rescheduled

  datatype Ticket = Ticket(
    number: int,
    passengerId: int,
    flightNumber: string,
    seatNumber: string,
    seatClass: string,
    price: int,
    bookingDate: DateTime,
    status: TicketStatus)

  /**
   * The database. Tables whose rows are read by key are maps; tables the
   * workflows scan or append to are sequences in row order. The two counters
   * stand for the keys the database generates for new passengers and tickets.
   */
  datatype Store = Store(
    airports: map<string, Airport>,
    airlines: map<int, Airline>,
    aircraft: map<int, Aircraft>,
    flights: seq<Flight>,
    passengers: seq<Passenger>,
    tickets: seq<Ticket>,
    nextPassengerId: int,
    nextTicketNumber: int)

  /** How the commit that ends a workflow turns out; a failed commit is rolled back. */
  datatype Commit = Committed | CommitFailed

  /** The HTTP method of a request to a page that has a form. */
  datatype Method = Get | Post

  /** A workflow's effect: the store after it, and what the user is shown. */
  datatype Step<R> = Step(store: Store, response: R)

  // ------------------------------------------------------------- lookups

  /** The flight with the given primary key (`Flight.query.get`). */
  function FindFlight(flights: seq<Flight>, number: string): (r: Option<Flight>)
    ensures r.Some? ==> r.value in flights && r.value.number == number
    ensures r.None? ==> forall i :: 0 <= i < |flights| ==> flights[i].number != number
  {
    if flights == [] then None
    else if flights[0].number == number then Some(flights[0])
    else FindFlight(flights[1..], number)
  }

  /** The position of the ticket with the given primary key (`Ticket.query.get`). */
  function FindTicket(tickets: seq<Ticket>, number: int): (r: Option<nat>)
    ensures r.Some? ==> r.value < |tickets| && tickets[r.value].number == number
    ensures r.None? ==> forall i :: 0 <= i < |tickets| ==> tickets[i].number != number
  {
    if tickets == [] then None
    else if tickets[0].number == number then Some(0)
    else match FindTicket(tickets[1..], number)
      case None => None
      case Some(i) => Some(i + 1)
  }

  /** The first passenger whose email equals `email` (`filter_by(email=...).first()`). */
  function FindPassengerByEmail(passengers: seq<Passenger>, email: string): (r: Option<Passenger>)
    ensures r.Some? ==> r.value in passengers && r.value.email == Some(email)
    ensures r.None? ==> forall i :: 0 <= i < |passengers| ==> passengers[i].email != Some(email)
  {
    if passengers == [] then None
    else if passengers[0].email == Some(email) then Some(passengers[0])
    else FindPassengerByEmail(passengers[1..], email)
  }

  // ---------------------------------------------------- available seats

  function OnFlight(number: string): Ticket -> bool {
    (t: Ticket) => t.flightNumber == number
  }

  predicate IsActiveTicket(t: Ticket) {
    t.status == Active
  }

  /** `flight.tickets`: the tickets referring to the flight, in row order. */
  function TicketsOn(tickets: seq<Ticket>, number: string): seq<Ticket> {
    Filter(tickets, OnFlight(number))
  }

  /** The tickets of the flight whose status is exactly ACTIVE. */
  function BookedOn(tickets: seq<Ticket>, number: string): seq<Ticket> {
    Filter(TicketsOn(tickets, number), IsActiveTicket)
  }

  /** An independent count: the row positions holding an ACTIVE ticket of the flight. */
  ghost function ActiveRows(tickets: seq<Ticket>, number: string): set<int> {
    set i | 0 <= i < |tickets| && tickets[i].flightNumber == number && tickets[i].status == Active
  }

  lemma BookedOnAppend(a: seq<Ticket>, b: seq<Ticket>, number: string)
    ensures TicketsOn(a + b, number) == TicketsOn(a, number) + TicketsOn(b, number)
    ensures BookedOn(a + b, number) == BookedOn(a, number) + BookedOn(b, number)
  {
    FilterAppend(a, b, OnFlight(number));
    FilterAppend(TicketsOn(a, number), TicketsOn(b, number), IsActiveTicket);
  }

  lemma BookedOnSingle(t: Ticket, number: string)
    ensures BookedOn([t], number) == if t.flightNumber == number && t.status == Active then [t] else []
  {
    assert [t][1..] == [];
  }

  lemma ActiveRowsSnoc(init: seq<Ticket>, last: Ticket, number: string)
    ensures ActiveRows(init + [last], number) ==
      ActiveRows(init, number) + (if last.flightNumber == number && last.status == Active then {|init|} else {})
  {
    var ts := init + [last];
    assert forall i :: 0 <= i < |init| ==> ts[i] == init[i];
  }

  lemma {:induction false} BookedOnCountsActiveRows(tickets: seq<Ticket>, number: string)
    ensures |BookedOn(tickets, number)| == |ActiveRows(tickets, number)|
  {
    if tickets != [] {
      var init, last := tickets[..|tickets| - 1], tickets[|tickets| - 1];
      assert tickets == init + [last];
      BookedOnAppend(init, [last], number);
      BookedOnSingle(last, number);
      BookedOnCountsActiveRows(init, number);
      ActiveRowsSnoc(init, last, number);
      assert |init| !in ActiveRows(init, number);
    }
  }

  /**
   * `Flight.available_seats`: the aircraft's capacity less the tickets of the
   * flight whose status is exactly ACTIVE; 0 when the flight has no aircraft.
   */
  function AvailableSeats(st: Store, f: Flight): (n: int)
    ensures f.aircraftId !in st.aircraft ==> n == 0
    ensures f.aircraftId in st.aircraft ==>
      n == st.aircraft[f.aircraftId].capacity - |ActiveRows(st.tickets, f.number)|
  {
    BookedOnCountsActiveRows(st.tickets, f.number);
    if f.aircraftId in st.aircraft then
      st.aircraft[f.aircraftId].capacity - |BookedOn(st.tickets, f.number)|
    else
      0
  }

  /** A CANCELED or RESCHEDULED ticket does not take a seat: adding one leaves every flight's availability as it was. */
  lemma InactiveTicketsNotCounted(st: Store, t: Ticket, f: Flight)
    requires t.status != Active
    ensures AvailableSeats(st.(tickets := st.tickets + [t]), f) == AvailableSeats(st, f)
  {
    ActiveRowsSnoc(st.tickets, t, f.number);
  }

  /** The base fare every flight reports. */
  const BasePrice: int := 200

  /** `Flight.price`: the base fare, whatever the flight. */
  function FlightPrice(f: Flight): (p: int)
    ensures p == BasePrice
  {
    BasePrice
  }

  lemma FlightPriceIgnoresFlight(f: Flight, g: Flight)
    ensures FlightPrice(f) == FlightPrice(g) == 200
  {
  }

  // ------------------------------------------------------------- names

  /**
   * `Passenger.first_name`: the first whitespace-separated word of the full
   * name, or "" when there is none.
   */
  function FirstName(fullName: string): (r: string)
    ensures r == "" || IsToken(r)
    ensures r == TakeWord(TrimLeft(fullName))
  {
    var parts := Split(fullName);
    SplitFirst(fullName);
    SplitTokens(fullName);
    if parts != [] then parts[0] else ""
  }

  /**
   * `first_name` as the code writes it: the guard only tests that the full
   * name is non-empty before taking the first word. `None` stands for the
   * IndexError raised when the name is non-empty but holds no word.
   */
  function FirstNameAsWritten(fullName: string): Option<string> {
    if fullName == "" then Some("")
    else
      var parts := Split(fullName);
      if parts == [] then None else Some(parts[0])
  }

  /** The guard tests emptiness where it needs "has a word": the two differ on blank names only. */
  lemma FirstNameAsWrittenFails(fullName: string)
    ensures FirstNameAsWritten(fullName).None? <==>
      fullName != "" && forall i :: 0 <= i < |fullName| ==> IsSpace(fullName[i])
    ensures FirstNameAsWritten(fullName).Some? ==> FirstNameAsWritten(fullName).value == FirstName(fullName)
  {
    SplitEmpty(fullName);
  }

  /** A blank full name, which registration accepts, makes the as-written accessor raise. */
  lemma BlankNameBreaksFirstName()
    ensures FirstNameAsWritten("   ") == None
    ensures FirstName("   ") == ""
  {
    FirstNameAsWrittenFails("   ");
  }

  /**
   * `Passenger.last_name`: the words after the first, joined by single
   * blanks, or "" when there are fewer than two words.
   */
  function LastName(fullName: string): (r: string)
    ensures r == "" <==> |Split(fullName)| < 2
    ensures Split(r) == if |Split(fullName)| > 1 then Split(fullName)[1..] else []
  {
    var parts := Split(fullName);
    SplitTokens(fullName);
    if |parts| > 1 then
      SplitJoin(parts[1..]);
      assert Split(Join(parts[1..])) != [];
      Join(parts[1..])
    else
      ""
  }

  /** First name, a blank and last name give back the whitespace-normalised full name. */
  lemma FullNameRoundTrip(fullName: string)
    requires |Split(fullName)| >= 2
    ensures FirstName(fullName) + " " + LastName(fullName) == Join(Split(fullName))
  {
  }

  /** Whatever the name, re-splitting first name, blank, last name yields the same words. */
  lemma FullNameWordsPreserved(fullName: string)
    ensures Split(FirstName(fullName) + " " + LastName(fullName)) == Split(fullName)
  {
    var n := |Split(fullName)|;
    if n >= 2 {
      WordsPreservedMany(fullName);
    } else if n == 1 {
      WordsPreservedOne(fullName);
    } else {
      WordsPreservedNone(fullName);
    }
  }

  lemma WordsPreservedMany(fullName: string)
    requires |Split(fullName)| >= 2
    ensures Split(FirstName(fullName) + " " + LastName(fullName)) == Split(fullName)
  {
    SplitTokens(fullName);
    FullNameRoundTrip(fullName);
    SplitJoin(Split(fullName));
  }

  lemma BlankSplit()
    ensures Split(" ") == []
  {
    SplitSpace(' ', []);
    assert [' '] + [] == " ";
  }

  lemma WordsPreservedOne(fullName: string)
    requires |Split(fullName)| == 1
    ensures Split(FirstName(fullName) + " " + LastName(fullName)) == Split(fullName)
  {
    var first := FirstName(fullName);
    SplitTokens(fullName);
    assert LastName(fullName) == "";
    assert first == Split(fullName)[0];
    assert first + " " + LastName(fullName) == first + " ";
    SplitToken(first, " ");
    BlankSplit();
    assert Split(fullName) == [first];
  }

  lemma WordsPreservedNone(fullName: string)
    requires Split(fullName) == []
    ensures Split(FirstName(fullName) + " " + LastName(fullName)) == Split(fullName)
  {
    assert FirstName(fullName) == "";
    assert LastName(fullName) == "";
    assert "" + " " + "" == " ";
    BlankSplit();
  }

  // ------------------------------------------------------ authentication

  /** `Passenger.get_id`: the decimal text of the passenger's key, as Flask-Login stores it. */
  function GetId(p: Passenger): (s: string)
    ensures ParseInt(s) == Some(p.id)
    ensures |s| >= 1
    ensures s[0] == '-' ==> |s| >= 2 && s[1] != '0'
    ensures s[0] != '-' && |s| > 1 ==> s[0] != '0'
  {
    IntToStringRoundTrip(p.id);
    assert p.id < 0 && -p.id < 10 ==> NatToString(-p.id) == [DigitChar(-p.id)];
    IntToString(p.id)
  }

  /** Distinct passengers get distinct session ids. */
  lemma GetIdInjective(p: Passenger, q: Passenger)
    requires GetId(p) == GetId(q)
    ensures p.id == q.id
  {
  }

  /** `Passenger.set_password`: the hashing line is commented out, so nothing is stored. */
  function SetPassword(p: Passenger, password: string): (q: Passenger)
    ensures q == p
  {
    p
  }

  /** `Passenger.check_password`: stubbed to accept every password. */
  function CheckPassword(p: Passenger, password: string): (ok: bool)
    ensures ok
  {
    true
  }
}
