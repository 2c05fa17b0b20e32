/**
 * The flight search page and the results page. A search narrows the flights
 * by departure and arrival airport (code or city, case-insensitive substring),
 * optionally by departure date, and always to flights with a free seat.
 */
module Search {
  import opened Wrappers
  import opened Seqs
  import opened Text
  import opened Calendar
  import opened Models

  /** The search form; a field the request leaves out is `None`. */
  datatype SearchForm = SearchForm(origin: Option<string>, destination: Option<string>, date: Option<string>)

  /** The messages the page flashes. */
  datatype Notice = InvalidDateFormat | NoFlightsFound

  datatype SearchPage = SearchPage(flights: seq<Flight>, searchPerformed: bool, notices: seq<Notice>)

  /** An origin or destination criterion: the field, blanks stripped, upper-cased; "" when absent. */
  function Criterion(field: Option<string>): string {
    Upper(Strip(field.GetOr("")))
  }

  /**
   * The airport filter for one end of a flight. An empty criterion keeps
   * every flight. Otherwise the flight's airport must be in the airports
   * table (the filter joins it) and the criterion must occur, ignoring case,
   * in the airport code or in the airport's city.
   */
  predicate EndpointMatches(st: Store, code: string, term: string) {
    term == "" || (code in st.airports && (ILikeContains(code, term) || ILikeContains(st.airports[code].city, term)))
  }

  /** The date the search filters on: the text must be present and non-empty, and it must parse. */
  function SearchDate(date: Option<string>): Option<Date> {
    if date.Some? && date.value != "" then ParseIsoDate(date.value) else None
  }

  /** The date text was given but is not a `YYYY-MM-DD` calendar date. */
  predicate DateRejected(date: Option<string>) {
    date.Some? && date.value != "" && ParseIsoDate(date.value).None?
  }

  /** Every criterion of the search holds for `f`: both ends, and the departure day when one is given. */
  predicate Matches(st: Store, origin: string, destination: string, day: Option<Date>, f: Flight) {
    && EndpointMatches(st, f.departureAirport, origin)
    && EndpointMatches(st, f.arrivalAirport, destination)
    && (day.Some? ==> f.departureTime.date == day.value)
  }

  function Wanted(st: Store, origin: string, destination: string, day: Option<Date>): Flight -> bool {
    (f: Flight) => Matches(st, origin, destination, day, f) && AvailableSeats(st, f) > 0
  }

  function HasSeats(st: Store): Flight -> bool {
    (f: Flight) => AvailableSeats(st, f) > 0
  }

  /**
   * The search page. A GET shows an empty page. A POST keeps, in table order,
   * the flights that match every given criterion and have a free seat, and
   * flashes a notice for a date it cannot read and for an empty result.
   */
  function SearchFlights(st: Store, verb: Method, form: SearchForm): (p: SearchPage)
    ensures verb == Get ==> p == SearchPage([], false, [])
    ensures verb == Post ==>
      var origin, destination, day := Criterion(form.origin), Criterion(form.destination), SearchDate(form.date);
      && p.searchPerformed
      && IsSubsequence(p.flights, st.flights)
      && (forall f :: f in p.flights <==>
            f in st.flights && Matches(st, origin, destination, day, f) && AvailableSeats(st, f) > 0)
      && (InvalidDateFormat in p.notices <==> DateRejected(form.date))
      && (NoFlightsFound in p.notices <==> p.flights == [])
  {
    if verb == Get then SearchPage([], false, [])
    else
      var origin, destination := Criterion(form.origin), Criterion(form.destination);
      var flights := Filter(st.flights, Wanted(st, origin, destination, SearchDate(form.date)));
      FilterMembership(st.flights, Wanted(st, origin, destination, SearchDate(form.date)));
      var dateNotice := if DateRejected(form.date) then [InvalidDateFormat] else [];
      var emptyNotice := if flights == [] then [NoFlightsFound] else [];
      SearchPage(flights, true, dateNotice + emptyNotice)
  }

  /** A date that does not parse is reported and then ignored: the flights are those of the same search without a date. */
  lemma RejectedDateIsIgnored(st: Store, form: SearchForm)
    requires DateRejected(form.date)
    ensures SearchFlights(st, Post, form).flights == SearchFlights(st, Post, form.(date := None)).flights
    ensures InvalidDateFormat in SearchFlights(st, Post, form).notices
    ensures InvalidDateFormat !in SearchFlights(st, Post, form.(date := None)).notices
  {
  }

  /** Blank criteria filter nothing: a POST of an empty form finds what the results page lists. */
  lemma EmptySearchIsResults(st: Store, form: SearchForm)
    requires Strip(form.origin.GetOr("")) == "" && Strip(form.destination.GetOr("")) == ""
    requires SearchDate(form.date).None?
    ensures SearchFlights(st, Post, form).flights == Results(st)
  {
    var w := Wanted(st, "", "", None);
    assert forall f :: w(f) == HasSeats(st)(f);
    FilterSameFilter(st.flights, w, HasSeats(st));
  }

  lemma {:induction false} FilterSameFilter(s: seq<Flight>, p: Flight -> bool, q: Flight -> bool)
    requires forall f :: p(f) == q(f)
    ensures Filter(s, p) == Filter(s, q)
  {
    if s != [] {
      FilterSameFilter(s[1..], p, q);
    }
  }

  /**
   * Upper-casing the criterion changes nothing: the comparison lower-cases
   * both sides, so a term matches a column exactly when its upper-cased
   * form does.
   */
  lemma UppercaseCriterionHarmless(column: string, term: string)
    ensures ILikeContains(column, Upper(term)) <==> ILikeContains(column, term)
  {
    LowerOfUpper(term);
  }

  /** Adding a criterion can only narrow the result. */
  lemma NarrowingByDate(st: Store, form: SearchForm, f: Flight)
    requires f in SearchFlights(st, Post, form).flights
    ensures f in SearchFlights(st, Post, form.(date := None)).flights
  {
  }

  /** The results page: every flight with a free seat, in table order. */
  function Results(st: Store): (r: seq<Flight>)
    ensures IsSubsequence(r, st.flights)
    ensures forall f :: f in r <==> f in st.flights && AvailableSeats(st, f) > 0
  {
    FilterMembership(st.flights, HasSeats(st));
    Filter(st.flights, HasSeats(st))
  }
}
