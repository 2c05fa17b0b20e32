# Flight booking core, modelled in Dafny

This project models the business logic of a small Flask/SQLAlchemy flight-booking
application: passengers register and log in, search flights, reserve tickets,
list their reservations and cancel tickets, against a relational store of
airports, airlines, aircraft, flights, passengers and tickets.

The store is an immutable value (`Models.Store`). Every request handler is a pure
function from the store and the request to a `Step`, which pairs the store after
the request with the outcome the user sees. Flash messages, templates and
redirects become response tags. The database commit is an input (`Commit`): a
failed commit is rolled back, so the store is returned unchanged. The clock
(`datetime.now()`) is an input too.

Modules, in dependency order:

- `Wrappers`: the `Option` type.
- `Seqs`: an order-preserving `Filter`, with its subsequence and membership facts.
- `Text`: Python's `str.isspace`, `strip`, `split()`, `' '.join` and ASCII `upper`/`lower`, and the case-insensitive substring test that `ilike '%p%'` performs.
- `Decimal`: `str(int)`, zero padding as in the `02d` format, and the digit reading that inverts them.
- `Calendar`: Gregorian dates and `datetime.strptime(s, '%Y-%m-%d')`.
- `Models`: the entities and the store, plus the derived attributes `available_seats`, `price`, `first_name`, `last_name`, `get_id`, `set_password` and `check_password`.
- `Seats`: the seat-number generator of the reservation page.
- `Booking`: the reserve, cancel-ticket and my-reservations handlers.
- `Search`: the search and results handlers.
- `Auth`: the register and login handlers.
- `Invariants`: key and foreign-key constraints, no overbooking, and sequential seat rows, each preserved by reserve, cancel and register.

Seat numbers work as follows:

- Six seats booked together on an empty flight get `01A, 02B, 03C, 04D, 05E, 06F` (`Seats.SixOnEmptyFlight`).
- The row of the `i`-th new ticket (counting from 0) is the flight's existing ticket count, whatever their status, plus `i + 1`. So the row is the ticket's 1-based position among all of the flight's tickets.
- The letter cycles A to F with the ticket's index within the batch.

## Model

| member | source | states |
|---|---|---|
| Models.AvailableSeats | models.py:71-77 | with an aircraft, availability is its capacity minus the number of rows holding an ACTIVE ticket of the flight; with no aircraft it is 0 |
| Models.InactiveTicketsNotCounted | models.py:74-76 | CANCELED and RESCHEDULED tickets take no seat: adding one leaves every flight's availability unchanged |
| Models.FlightPrice | models.py:79-84 | the flight price is the base fare 200 for every flight |
| Models.FlightPriceIgnoresFlight | models.py:79-84 | any two flights have the same price, 200 |
| Models.FirstName | models.py:143-146 | the first name is "" or a single whitespace-free word, namely the first word of the full name after leading blanks |
| Models.FirstNameAsWrittenFails | models.py:143-146 | the accessor as written fails exactly on non-empty names made only of whitespace, and agrees with the corrected one everywhere else |
| Models.BlankNameBreaksFirstName | models.py:143-146 | on the name "   " the accessor as written raises, while the corrected one returns "" |
| Models.LastName | models.py:148-152 | the last name is "" exactly when the full name has fewer than two words; otherwise splitting it again gives the full name's words after the first |
| Models.FullNameRoundTrip | models.py:143-152 | for two or more words, first name, a blank and last name give the whitespace-normalised full name |
| Models.FullNameWordsPreserved | models.py:143-152 | for any full name, splitting first name, blank and last name gives back exactly the full name's words |
| Models.GetId | models.py:123-125 | the session id is a canonical decimal numeral, with no leading zero and no `-0`, that reads back as the passenger's key |
| Models.GetIdInjective | models.py:123-125 | different passenger keys never share a session id |
| Models.SetPassword | models.py:127-131 | setting a password changes no field of the passenger |
| Models.CheckPassword | models.py:133-141 | every password is accepted |
| Models.FindFlight | user_routes.py:99 | the lookup returns a flight of the table with the requested number, or reports that no flight has it |
| Models.FindTicket | user_routes.py:173 | the lookup returns the position of a ticket with the requested number, or reports that none has it |
| Models.FindPassengerByEmail | auth_routes.py:46 | the lookup returns a passenger whose email is the given one, or reports that none has it |
| Text.Strip | user_routes.py:32-33 | the stripped text is the input with its leading and trailing whitespace runs removed, and starts and ends with a non-blank |
| Text.LowerOfUpper | user_routes.py:32-33 | lower-casing after upper-casing equals lower-casing alone |
| Text.ContainsIffOccurs | user_routes.py:45-46 | the substring test holds exactly when the pattern occurs at some position of the text |
| Text.SplitJoin | models.py:151-152 | joining words with single blanks and splitting again gives the same words |
| Text.ConcatSplit | models.py:146 | the words of a split, concatenated, are exactly the non-blank characters of the text |
| Text.SplitFirst | models.py:146 | a split is empty exactly when the text is all blank, and otherwise its first word is the leading word after the blanks |
| Decimal.IntToStringRoundTrip | models.py:125 | the decimal text of an integer reads back as that integer |
| Decimal.PaddedRoundTrip | user_routes.py:129 | a zero-padded numeral is all digits and reads back as the number it was made from |
| Decimal.NatToStringLength | user_routes.py:129 | a number below 10^k has at most k digits, so the two-digit padding applies below 100 |
| Calendar.ParseIsoDate | auth_routes.py:40 | whatever date the parser accepts is a real calendar date: year 1 to 9999, and a day the month has |
| Calendar.ParseFormatRoundTrip | auth_routes.py:39-43 | every calendar date, written `YYYY-MM-DD`, is read back as the same date |
| Calendar.ParseIsoDateExact | auth_routes.py:40 | the parser yields date d exactly when d is a calendar date and the text is four digits naming its year, a dash, its month as two digits or (below 10) one, a dash, and its day as two digits or (below 10) one digit, bare or after a blank; any other text, such as one with trailing characters, is refused |
| Calendar.ParseAccepts | auth_routes.py:39-43 | one-digit months and days are accepted, and so is 29 February of a leap year |
| Calendar.ParseRejects | auth_routes.py:39-43 | 29 February of a common year, a thirteenth month and 31 April are refused |
| Calendar.EarlierIsStrictTotalOrder | user_routes.py:162 | the booking-date order is irreflexive, transitive and total on distinct timestamps |
| Seats.SeatLetter | user_routes.py:128 | the letter is one of A to F, and its offset from A is the batch index modulo 6 |
| Seats.SeatNumberShape | user_routes.py:127-129 | a seat number is two or more digits and a letter; its digits read back as the row, and its last character is the batch's letter |
| Seats.SeatNumberInjective | user_routes.py:127-129 | equal seat numbers have equal rows and the same batch index modulo 6 |
| Seats.SixOnEmptyFlight | user_routes.py:125-129 | six seats on an empty flight are 01A, 02B, 03C, 04D, 05E, 06F, and a seventh would be 07A |
| Booking.TicketPrice | user_routes.py:114-120 | a BUSINESS ticket costs 2.5 times the base fare, a FIRST ticket 4 times, and any other class the base fare |
| Booking.Reserve | user_routes.py:93-152 | an unknown flight number, and only that, is answered "flight not found"; a GET on a known flight shows its reservation page; any outcome other than a booking leaves the whole store unchanged |
| Booking.ReserveOutcome | user_routes.py:101-112 | a count below 1 is refused; a count above the flight's free seats is refused with that number; a booking happens exactly when the count is between 1 and the free seats and the commit succeeds |
| Booking.ReserveBoundary | user_routes.py:110-112 | booking every remaining seat succeeds, and one seat more is refused |
| Booking.ReserveBookedStore | user_routes.py:122-143 | a booking adds the whole batch after the existing tickets and changes nothing else, and the total is the ticket price times the count |
| Booking.NewTicketsShape | user_routes.py:125-140 | the batch has exactly n tickets; each is ACTIVE and belongs to the passenger and the flight, with the class, its price, the booking time and a fresh number; its seat is the row zero-padded to at least two digits, followed by the letter, where the row is its place after the flight's existing tickets and the letter cycles with the batch index; the batch costs n times the price |
| Booking.ReserveCreatesTickets | user_routes.py:122-143 | after a booking, the old tickets come first and exactly n well-formed new tickets follow; the total charged is the sum of their prices; the other tables are untouched |
| Booking.ReserveAvailability | user_routes.py:110-143 | a booking of n seats lowers the flight's availability by exactly n, leaves it at 0 or above, and leaves every other flight's availability unchanged |
| Booking.AvailableAfterAppend | models.py:71-77 | appending tickets lowers a flight's availability by the number of appended ACTIVE tickets of that flight |
| Booking.CancelTicket | user_routes.py:166-196 | any outcome other than a cancellation leaves the store unchanged; a cancellation sets to CANCELED the status of the requester's not-yet-cancelled ticket, and changes nothing else |
| Booking.CancelOutcome | user_routes.py:173-194 | the response is decided in the order the page checks: not found exactly when no ticket has the number; refused when it is another passenger's; already cancelled when its status is CANCELED; otherwise cancelled exactly when the commit succeeds, and a failure exactly when it does not |
| Booking.CancelRequiresOwner | user_routes.py:175-178 | a ticket belonging to someone else is refused, and nothing changes |
| Booking.CancelIdempotent | user_routes.py:180-186 | a second cancellation of the same ticket finds it CANCELED and changes nothing |
| Booking.CancelAvailability | user_routes.py:185-186 | cancelling an ACTIVE ticket frees exactly one seat on its flight, cancelling a RESCHEDULED one frees none, and other flights are unaffected |
| Booking.InsertByDate | user_routes.py:162 | inserting into a newest-first list keeps it newest-first and adds exactly that ticket |
| Booking.SortNewestFirst | user_routes.py:162 | the sort orders by booking date, newest first, and is a permutation of its input |
| Booking.MyReservations | user_routes.py:155-163 | the list holds the requester's tickets, every one and nothing else, each as often as stored, newest booking first |
| Search.SearchFlights | user_routes.py:20-76 | a GET shows an empty page; a POST finds, in table order, exactly the flights of the table that match origin, destination and date and have a free seat; it flags an unreadable date and an empty result |
| Search.RejectedDateIsIgnored | user_routes.py:63-68 | an unreadable date is reported and then ignored: the flights are those of the same search without a date |
| Search.EmptySearchIsResults | user_routes.py:27-71 | a search with blank origin and destination and no date finds what the results page lists |
| Search.UppercaseCriterionHarmless | user_routes.py:32-46 | upper-casing a criterion does not change whether it matches a column |
| Search.NarrowingByDate | user_routes.py:62-66 | dropping the date criterion can only widen the result |
| Search.Results | user_routes.py:79-89 | the results page lists, in table order, exactly the flights with a free seat |
| Auth.Register | auth_routes.py:9-71 | a GET shows the form; a POST that passes every check registers when its commit succeeds; a registration comes only from such a POST and appends exactly one passenger under the next passenger id; any other outcome leaves the store unchanged |
| Auth.RegisterValidation | auth_routes.py:25-65 | each refusal happens exactly when every earlier check passes and its own fails: missing field, password mismatch, password shorter than 6 characters, unreadable date of birth, email already taken; a form passing all five registers exactly when the commit succeeds, and reports a failure exactly when it does not |
| Auth.RegisteredPassenger | auth_routes.py:17-57 | the new passenger carries the form's full name, email and phone, the parsed date of birth, and the nationality or USA when the field is absent |
| Auth.RegisterTwice | auth_routes.py:45-48 | registering the same form again is refused as a taken email and changes nothing |
| Auth.Login | auth_routes.py:74-103 | a GET shows the form; missing credentials are refused; with both filled the outcome is a login or invalid credentials; a login is for a passenger with that email, its session id reads back as the passenger's key, and it goes to the next URL when one is given, else to the search page |
| Auth.LoginOutcome | auth_routes.py:89-101 | with both fields filled, login succeeds exactly when some passenger has the email, as the passenger the email lookup finds, and fails exactly when none has it |
| Auth.PasswordIgnored | models.py:133-141 | with both fields filled, the outcome does not depend on the password typed |
| Auth.RegisterThenLogin | auth_routes.py:51-95 | a freshly registered passenger can log in at once, as the new passenger, and is greeted by first name |
| Auth.BlankNameRegisters | auth_routes.py:26 | a full name of blanks passes registration, and the first-name accessor as written cannot serve it |
| Invariants.SeatNumbersDistinct | user_routes.py:127-129 | when rows count up from 1 on a flight, no two of its tickets share a seat number |
| Invariants.FindFlightUnique | user_routes.py:99 | with unique flight numbers, the lookup finds the one flight that has the number |
| Invariants.TicketsOnAfterStatus | user_routes.py:186 | changing one ticket's status keeps every flight's ticket list, seat for seat |
| Invariants.ReserveKeepsSeats | user_routes.py:125-129 | a booking keeps each flight's rows counting up from 1 |
| Invariants.ReserveKeepsOverbooking | user_routes.py:110-143 | a booking never takes a flight of the table below zero free seats |
| Invariants.ReservePreservesValid | user_routes.py:93-152 | a reservation by a registered passenger keeps keys unique and fresh, foreign keys resolvable, no flight overbooked and seat rows sequential |
| Invariants.CancelPreservesValid | user_routes.py:166-196 | a cancellation keeps the same invariants |
| Invariants.RegisterPreservesValid | auth_routes.py:45-63 | a registration keeps passenger keys fresh and emails unique, and the other invariants |

## Left out

- `app.py` and `oracle_config_template.py` are not part of this model. They hold the application setup, the session user loader and the database connection settings.
- Templates, flash messages, `redirect`, `url_for` and `get_or_404` appear only as response tags. The profile page and logout only render or end the session and hold no logic.
- The `origin`, `destination` and `id` aliases of a flight, the `username` alias of a passenger and the `__repr__` methods return a field unchanged or a display string. No workflow depends on them.
- Payment, Staff, FlightStaff and TicketChange are declared in the schema, but no workflow reads or writes them.
- Search: when both origin and destination are given, the code joins the airport table twice without an alias. The model gives the intended conjunction of the two airport filters, not what the database makes of that query.
- Search: `%` and `_` typed into a criterion are LIKE wildcards in the real query. The model treats them as literal characters.
- Search and the date parser model ASCII only. Upper- and lower-casing map only `a`-`z`/`A`-`Z`, and `strptime` accepts only ASCII digits. Python and the database also map non-ASCII letters and accept other Unicode digits.
- Reserve: `int()` of a non-numeric passenger count raises an unhandled error. The form carries an already-parsed integer instead.
- Reserve: each ticket's booking time is taken when that ticket is built. The model gives the whole batch one time, `now`.
- Reserve and cancel: two concurrent requests can both pass the availability check. The model is sequential, so `Invariants.ReserveKeepsOverbooking` holds only for requests applied one after another.
- Prices are integers (200, 500, 800). The source computes them in floating point, but these multipliers are exact.
- Ticket status is one of the three values the column comment at models.py:174 lists: ACTIVE, CANCELED and RESCHEDULED. The column itself is free text, and any other status is not modelled.
- Column widths are not modelled. Examples are the six-character seat number and the 120-character name and email.
- Oracle storing an empty string as NULL is not modelled. Neither are the constraint errors this would cause at commit. A commit failure of any cause is the `CommitFailed` input.
- Database-generated keys are the store's two counters. Row order is the table order. The database's order for tickets with equal booking dates is unspecified, and `Booking.MyReservations` only promises newest first.
- Password hashing is commented out in the source. Only the stubs' behaviour is modelled.
- Models.FirstName: models the accessor with its blank-name crash corrected (see Findings). The crashing version is `Models.FirstNameAsWritten`.
- Auth.Login: greets with the corrected first name. As written, logging in as a passenger whose full name is all blanks raises instead.

## Findings

| source | as written | input that shows it | evidently intended | confidence | as-written member | corrected member |
|---|---|---|---|---|---|---|
| models.py:146 | the guard tests that the full name is non-empty, then takes the first word of its split | full name `"   "`, which registration accepts (auth_routes.py:26 only tests truthiness); the split is empty and indexing it raises IndexError, for example in the login greeting | return "" when the name has no word | high; not executed | Models.FirstNameAsWritten (Models.BlankNameBreaksFirstName, Auth.BlankNameRegisters) | Models.FirstName |
