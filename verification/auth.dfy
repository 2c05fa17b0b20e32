/**
 * Registration and login. Registration validates the form field by field,
 * the first failing check deciding the message, and appends one passenger.
 * Login looks the passenger up by email; the password check is stubbed.
 */
module Auth {
  import opened Wrappers
  import opened Text
  import opened Decimal
  import opened Calendar
  import opened Models

  // ------------------------------------------------------------ register

  /** The registration form; a field the request leaves out is `None`. */
  datatype RegisterForm = RegisterForm(
    fullName: Option<string>,
    email: Option<string>,
    password: Option<string>,
    confirmPassword: Option<string>,
    phone: Option<string>,
    dateOfBirth: Option<string>,
    nationality: Option<string>)

  datatype RegisterError = MissingFields | PasswordMismatch | PasswordTooShort | InvalidDate | EmailTaken

  datatype RegisterResponse = RegisterPage | RegisterRejected(error: RegisterError) | Registered(passengerId: int) | RegisterFailed

  /** The shortest password registration accepts. */
  const MinPasswordLength: nat := 6

  /** A form field is filled when it is present and not the empty string. */
  predicate Filled(field: Option<string>) {
    field.Some? && field.value != ""
  }

  predicate RequiredFilled(form: RegisterForm) {
    && Filled(form.fullName) && Filled(form.email) && Filled(form.password)
    && Filled(form.confirmPassword) && Filled(form.dateOfBirth)
  }

  /** The first check the form fails, in the order the page runs them; `None` when it passes all five. */
  function FirstFailure(st: Store, form: RegisterForm): Option<RegisterError> {
    if !RequiredFilled(form) then Some(MissingFields)
    else if form.password.value != form.confirmPassword.value then Some(PasswordMismatch)
    else if |form.password.value| < MinPasswordLength then Some(PasswordTooShort)
    else if ParseIsoDate(form.dateOfBirth.value).None? then Some(InvalidDate)
    else if FindPassengerByEmail(st.passengers, form.email.value).Some? then Some(EmailTaken)
    else None
  }

  /** The passenger a valid form describes; the nationality defaults to USA when the field is absent. */
  function NewPassenger(id: int, form: RegisterForm): Passenger
    requires RequiredFilled(form) && ParseIsoDate(form.dateOfBirth.value).Some?
  {
    var p := Passenger(id, form.fullName.value, ParseIsoDate(form.dateOfBirth.value).value,
                       form.nationality.GetOr("USA"), form.phone, Some(form.email.value));
    SetPassword(p, form.password.value)
  }

  /**
   * The registration page. A POST whose form passes every check adds one
   * passenger, keyed by the next passenger id, when the commit succeeds.
   */
  function Register(st: Store, verb: Method, form: RegisterForm, commit: Commit): (r: Step<RegisterResponse>)
    ensures !r.response.Registered? ==> r.store == st
    ensures verb == Get ==> r.response == RegisterPage
    ensures verb == Post && FirstFailure(st, form).None? && commit == Committed ==> r.response.Registered?
    ensures r.response.Registered? ==>
      && verb == Post && commit == Committed
      && RequiredFilled(form) && ParseIsoDate(form.dateOfBirth.value).Some?
      && r.response.passengerId == st.nextPassengerId
      && r.store == st.(passengers := st.passengers + [NewPassenger(st.nextPassengerId, form)],
                        nextPassengerId := st.nextPassengerId + 1)
  {
    if verb == Get then Step(st, RegisterPage)
    else match FirstFailure(st, form)
      case Some(e) => Step(st, RegisterRejected(e))
      case None =>
        if commit == CommitFailed then Step(st, RegisterFailed)
        else
          var p := NewPassenger(st.nextPassengerId, form);
          assert verb == Post && commit == Committed;
          Step(st.(passengers := st.passengers + [p], nextPassengerId := st.nextPassengerId + 1),
               Registered(p.id))
  }

  /**
   * Each rejection happens exactly when every earlier check passes and its own
   * fails; a POST passing all five checks registers when the commit
   * succeeds and reports the failure when it does not.
   */
  lemma RegisterValidation(st: Store, form: RegisterForm, commit: Commit)
    ensures var r := Register(st, Post, form, commit).response;
      && (r == RegisterRejected(MissingFields) <==> !RequiredFilled(form))
      && (r == RegisterRejected(PasswordMismatch) <==>
            RequiredFilled(form) && form.password.value != form.confirmPassword.value)
      && (r == RegisterRejected(PasswordTooShort) <==>
            RequiredFilled(form) && form.password.value == form.confirmPassword.value
            && |form.password.value| < 6)
      && (r == RegisterRejected(InvalidDate) <==>
            RequiredFilled(form) && form.password.value == form.confirmPassword.value
            && |form.password.value| >= 6 && ParseIsoDate(form.dateOfBirth.value).None?)
      && (r == RegisterRejected(EmailTaken) <==>
            RequiredFilled(form) && form.password.value == form.confirmPassword.value
            && |form.password.value| >= 6 && ParseIsoDate(form.dateOfBirth.value).Some?
            && exists i :: 0 <= i < |st.passengers| && st.passengers[i].email == form.email)
      && (r.Registered? <==> FirstFailure(st, form).None? && commit == Committed)
      && (r == RegisterFailed <==> FirstFailure(st, form).None? && commit == CommitFailed)
  {
    if RequiredFilled(form) {
      var hit := FindPassengerByEmail(st.passengers, form.email.value);
      if hit.Some? {
        var i :| 0 <= i < |st.passengers| && st.passengers[i] == hit.value;
      }
    }
  }

  /** A successful registration stores the form's data, with the parsed date of birth. */
  lemma RegisteredPassenger(st: Store, form: RegisterForm)
    requires Register(st, Post, form, Committed).response.Registered?
    ensures var p := Register(st, Post, form, Committed).store.passengers[|st.passengers|];
      && p.id == st.nextPassengerId
      && p.fullName == form.fullName.value
      && p.email == form.email
      && p.phone == form.phone
      && ParseIsoDate(form.dateOfBirth.value) == Some(p.dateOfBirth)
      && p.nationality == (if form.nationality.Some? then form.nationality.value else "USA")
  {
  }

  /** Registering the same email twice: the second attempt is refused and changes nothing. */
  lemma RegisterTwice(st: Store, form: RegisterForm, commit: Commit)
    requires Register(st, Post, form, Committed).response.Registered?
    ensures var once := Register(st, Post, form, Committed).store;
      Register(once, Post, form, commit) == Step(once, RegisterRejected(EmailTaken))
  {
    var once := Register(st, Post, form, Committed).store;
    var p := NewPassenger(st.nextPassengerId, form);
    assert once.passengers[|st.passengers|] == p;
    assert FindPassengerByEmail(once.passengers, form.email.value).Some?;
  }

  // --------------------------------------------------------------- login

  /** Where a successful login sends the browser: the `next` URL when one is given, else the search page. */
  datatype Redirect = ToNext(url: string) | ToSearch

  datatype LoginResponse =
    | LoginPage
    | MissingCredentials
    | InvalidCredentials
    | LoggedIn(passengerId: int, session: string, greeting: string, target: Redirect)

  /** The welcome message, addressed by first name. */
  function Greeting(p: Passenger): string {
    "Welcome back, " + FirstName(p.fullName) + "!"
  }

  /**
   * The login page. A POST needs both fields filled; it logs in the first
   * passenger with that email, since the password check accepts anything.
   */
  function Login(st: Store, verb: Method, email: Option<string>, password: Option<string>, next: Option<string>): (r: LoginResponse)
    ensures verb == Get ==> r == LoginPage
    ensures verb == Post && (!Filled(email) || !Filled(password)) ==> r == MissingCredentials
    ensures verb == Post && Filled(email) && Filled(password) ==> r.LoggedIn? || r == InvalidCredentials
    ensures r.LoggedIn? ==>
      && Filled(email) && Filled(password)
      && exists i :: 0 <= i < |st.passengers| && st.passengers[i].id == r.passengerId
           && st.passengers[i].email == email
    ensures r.LoggedIn? ==> ParseInt(r.session) == Some(r.passengerId)
    ensures r.LoggedIn? ==> r.target == if Filled(next) then ToNext(next.value) else ToSearch
  {
    if verb == Get then LoginPage
    else if !Filled(email) || !Filled(password) then MissingCredentials
    else match FindPassengerByEmail(st.passengers, email.value)
      case None => InvalidCredentials
      case Some(p) =>
        if CheckPassword(p, password.value) then
          LoggedIn(p.id, GetId(p), Greeting(p), if Filled(next) then ToNext(next.value) else ToSearch)
        else InvalidCredentials
  }

  /**
   * With both fields filled, login succeeds exactly when some passenger has
   * the email, and then as the passenger the email lookup finds; it fails
   * exactly when none has it.
   */
  lemma LoginOutcome(st: Store, email: string, password: string, next: Option<string>)
    requires email != "" && password != ""
    ensures var r := Login(st, Post, Some(email), Some(password), next);
      && (r.LoggedIn? <==> exists i :: 0 <= i < |st.passengers| && st.passengers[i].email == Some(email))
      && (r == InvalidCredentials <==> forall i :: 0 <= i < |st.passengers| ==> st.passengers[i].email != Some(email))
      && (r.LoggedIn? ==> r.passengerId == FindPassengerByEmail(st.passengers, email).value.id)
  {
    var hit := FindPassengerByEmail(st.passengers, email);
    if hit.Some? {
      var i :| 0 <= i < |st.passengers| && st.passengers[i] == hit.value;
      assert st.passengers[i].email == Some(email);
    }
  }

  /** The stubbed check: whatever non-empty password is typed, the outcome is the same. */
  lemma PasswordIgnored(st: Store, email: Option<string>, pw1: string, pw2: string, next: Option<string>)
    requires pw1 != "" && pw2 != ""
    ensures Login(st, Post, email, Some(pw1), next) == Login(st, Post, email, Some(pw2), next)
  {
  }

  /** A fresh registration can log in at once, as the new passenger, greeted by first name. */
  lemma RegisterThenLogin(st: Store, form: RegisterForm, password: string, next: Option<string>)
    requires Register(st, Post, form, Committed).response.Registered?
    requires password != ""
    ensures var after := Register(st, Post, form, Committed).store;
      var r := Login(after, Post, form.email, Some(password), next);
      && r.LoggedIn?
      && r.passengerId == st.nextPassengerId
      && r.greeting == "Welcome back, " + FirstName(form.fullName.value) + "!"
  {
    var p := NewPassenger(st.nextPassengerId, form);
    FindAfterAppend(st.passengers, p, form.email.value);
  }

  lemma {:induction false} FindAfterAppend(passengers: seq<Passenger>, p: Passenger, email: string)
    requires FindPassengerByEmail(passengers, email).None?
    requires p.email == Some(email)
    ensures FindPassengerByEmail(passengers + [p], email) == Some(p)
  {
    if passengers != [] {
      assert (passengers + [p])[1..] == passengers[1..] + [p];
      FindAfterAppend(passengers[1..], p, email);
    } else {
      assert passengers + [p] == [p];
    }
  }

  /**
   * A full name of blanks passes the required-field check, since it is a
   * non-empty string; the first-name accessor as written then has no word to
   * return, while the corrected one yields "".
   */
  lemma BlankNameRegisters(st: Store, form: RegisterForm)
    requires form.fullName == Some("   ")
    requires FirstFailure(st, form).None?
    ensures Register(st, Post, form, Committed).response.Registered?
    ensures var p := Register(st, Post, form, Committed).store.passengers[|st.passengers|];
      FirstNameAsWritten(p.fullName).None? && FirstName(p.fullName) == ""
  {
    BlankNameBreaksFirstName();
  }
}
