/** The sign-in form: in login mode it opens a session for a known email; in
    registration mode it is meant to create a user for a new email, save it
    and log it in. As written, the registration lookup calls `getUsers`,
    which the store does not define, so every registration throws before the
    duplicate check and nothing is saved (`SubmitAsWritten`; see "## Findings"
    in README.md). `Submit` and `AuthForm.HandleSubmit` model the handler
    with that lookup corrected to `getAllUsers`. In the corrected handler,
    emails stay unique because saving is an upsert; the duplicate check is
    what stops a registration from overwriting an existing account. */
module Auth {
  import opened Types
  import opened StorageService

  /** The department every self-registered user is placed in. */
  const Department: string := "Creative Strategy"
  /** The role the form starts with. */
  const DefaultRole: string := "Strategist"
  const EmailNotFound: string := "Email not found. Please register as a new employee."
  const EmailTaken: string := "Email already registered."
  /** A label for the TypeError raised when the registration branch calls a
      member the store object does not have. It is not the engine's exact
      wording, which varies between browsers and builds. */
  const MissingMember: string := "TypeError: storageService.getUsers is not a function"

  /** What the form holds when it is submitted. */
  datatype Form = Form(isLogin: bool, email: string, fullName: string, role: string)

  /** What one submit leaves behind: the error message shown, the persisted
      entries, and the user handed to the application (the completion
      callback), if any. */
  datatype Outcome = Outcome(error: string, storage: Storage, completed: Option<User>)

  /** What a submit that throws leaves behind: the exception's message, the
      error message shown (as last set before the throw) and the persisted
      entries. Nothing is handed to the application. */
  datatype Thrown = Thrown(reason: string, error: string, storage: Storage)

  /** The record registration creates. */
  function NewUser(f: Form, now: int): User {
    User(f.email, f.fullName, f.role, Department, now, Some([]))
  }

  /** One submit of the form against the entries `s`, with the registration
      lookup going through getAllUsers. The message shown afterwards does not
      depend on the one shown before: each submit starts by clearing it. */
  function Submit(f: Form, now: int, s: Storage): Outcome {
    if f.isLogin then
      match Find(UsersOf(s), f.email)
      case Some(u) => Outcome("", AfterLogin(s, f.email), Some(u))
      case None => Outcome(EmailNotFound, AfterLogin(s, f.email), None)
    else if Find(UsersOf(s), f.email).Some? then
      Outcome(EmailTaken, s, None)
    else
      var u := NewUser(f, now);
      Outcome("", AfterLogin(AfterSaveUser(s, u), f.email), Some(u))
  }

  /** One submit as the handler is written: the registration branch looks the
      email up through `getUsers`, which the store object does not define
      (it has getAllUsers, addUser, updateUser, saveUser, getCurrentUser,
      login, logout and addReportToUser), so it throws after the message was
      cleared and before the store is touched. */
  function SubmitAsWritten(f: Form, now: int, s: Storage): (r: Result<Outcome, Thrown>)
    ensures r.Ok? <==> f.isLogin
    ensures r.Ok? ==> r.value == Submit(f, now, s)
    ensures r.Err? ==> r.error == Thrown(MissingMember, "", s)
  {
    if f.isLogin then Ok(Submit(f, now, s))
    else Err(Thrown(MissingMember, "", s))
  }

  // ---------------------------------------------------------------------
  // Lemmas

  /** Login with a known email completes with the stored user and makes it
      the session; the user list is kept. */
  lemma LoginKnownCompletes(f: Form, now: int, s: Storage)
    requires f.isLogin && HasEmail(UsersOf(s), f.email)
    ensures var o := Submit(f, now, s);
            o.error == "" && o.completed == Find(UsersOf(s), f.email) &&
            o.completed.Some? && o.completed.value.email == f.email &&
            o.storage.sessionEntry == o.completed && o.storage.usersEntry == s.usersEntry
  {
  }

  /** Login with an unknown email shows the not-found message and changes
      nothing. */
  lemma LoginUnknownRejected(f: Form, now: int, s: Storage)
    requires f.isLogin && !HasEmail(UsersOf(s), f.email)
    ensures Submit(f, now, s) == Outcome(EmailNotFound, s, None)
  {
  }

  /** Registering a present email shows the duplicate message and changes
      nothing. */
  lemma RegisterTakenRejected(f: Form, now: int, s: Storage)
    requires !f.isLogin && HasEmail(UsersOf(s), f.email)
    ensures Submit(f, now, s) == Outcome(EmailTaken, s, None)
  {
  }

  /** Registering a new email appends a user with the entered email, name and
      role, the fixed department, the supplied join time and an empty
      history; that user becomes the session and is handed to the
      application; emails stay unique. */
  lemma RegisterNewSucceeds(f: Form, now: int, s: Storage)
    requires !f.isLogin && !HasEmail(UsersOf(s), f.email)
    ensures var o := Submit(f, now, s);
            o.error == "" && o.completed.Some? &&
            var u := o.completed.value;
            u.email == f.email && u.fullName == f.fullName && u.role == f.role &&
            u.department == Department && u.joinedDate == now && u.analysisHistory == Some([]) &&
            UsersOf(o.storage) == UsersOf(s) + [u] &&
            o.storage.sessionEntry == Some(u) &&
            Find(UsersOf(o.storage), f.email) == Some(u) &&
            (UniqueEmails(UsersOf(s)) ==> UniqueEmails(UsersOf(o.storage)))
  {
    var u := NewUser(f, now);
    FindAfterAppend(UsersOf(s), u, f.email);
    if UniqueEmails(UsersOf(s)) {
      AppendUniqueIffAbsent(UsersOf(s), u);
    }
  }

  /** What the duplicate check prevents: registering a taken email without it
      (save, then log in) would overwrite the first account with that email
      by a record with an empty history, and log the registrant into it. */
  lemma RegisterWithoutCheckOverwrites(f: Form, now: int, s: Storage)
    requires !f.isLogin && HasEmail(UsersOf(s), f.email)
    ensures var t := AfterLogin(AfterSaveUser(s, NewUser(f, now)), f.email);
            var i := FindIndex(UsersOf(s), f.email);
            |UsersOf(t)| == |UsersOf(s)| &&
            UsersOf(t)[i] == NewUser(f, now) && History(UsersOf(t)[i]) == [] &&
            t.sessionEntry == Some(NewUser(f, now)) &&
            (UniqueEmails(UsersOf(s)) ==> UniqueEmails(UsersOf(t)))
  {
    var u := NewUser(f, now);
    UpdateUserReplacesFirstMatch(s, u);
    FindAfterReplace(UsersOf(s), u, f.email);
    if UniqueEmails(UsersOf(s)) {
      SaveUserKeepsUnique(s, u);
    }
  }

  /** A submit succeeds exactly when it shows no message. */
  lemma CompletedIffNoError(f: Form, now: int, s: Storage)
    ensures Submit(f, now, s).completed.Some? <==> Submit(f, now, s).error == ""
  {
  }

  /** Every submit keeps the session consistent, and keeps emails unique. */
  lemma SubmitPreserves(f: Form, now: int, s: Storage)
    ensures SessionConsistent(s) ==> SessionConsistent(Submit(f, now, s).storage)
    ensures UniqueEmails(UsersOf(s)) ==> UniqueEmails(UsersOf(Submit(f, now, s).storage))
  {
    if !f.isLogin && !HasEmail(UsersOf(s), f.email) {
      var u := NewUser(f, now);
      if SessionConsistent(s) {
        SaveUserKeepsSession(s, u);
        LoginKeepsSession(AfterSaveUser(s, u), f.email);
      }
      if UniqueEmails(UsersOf(s)) {
        SaveUserKeepsUnique(s, u);
      }
    }
  }

  /** Register "a@x.com" on a fresh profile, log out, and log in again: the
      second login finds the same user. */
  lemma RegisterLogoutLoginScenario(name: string, role: string, now: int)
    ensures var reg := Submit(Form(false, "a@x.com", name, role), now, EmptyStorage);
            var out := AfterLogout(reg.storage);
            var again := Submit(Form(true, "a@x.com", "", DefaultRole), now, out);
            reg.completed.Some? && again.error == "" && again.completed == reg.completed &&
            again.storage.sessionEntry == reg.completed
  {
  }

  /** As written, every registration throws with the message cleared and the
      entries as they were, so nothing is stored and nobody is logged in. */
  lemma RegistrationAsWrittenThrows(f: Form, now: int, s: Storage)
    requires !f.isLogin
    ensures SubmitAsWritten(f, now, s) == Err(Thrown(MissingMember, "", s))
  {
  }

  /** The concrete case: on a fresh profile, registering "a@x.com" throws and
      a following login is refused, where the corrected handler registers the
      user and the login succeeds. */
  lemma RegistrationAsWrittenCounterexample(now: int)
    ensures var reg := SubmitAsWritten(Form(false, "a@x.com", "A", DefaultRole), now, EmptyStorage);
            reg.Err? &&
            SubmitAsWritten(Form(true, "a@x.com", "", DefaultRole), now, reg.error.storage) ==
              Ok(Outcome(EmailNotFound, EmptyStorage, None))
    ensures var reg := Submit(Form(false, "a@x.com", "A", DefaultRole), now, EmptyStorage);
            Submit(Form(true, "a@x.com", "", DefaultRole), now, reg.storage).error == ""
  {
  }

  // ---------------------------------------------------------------------
  // The form component

  /** The form's state: the mode, the three inputs, and the message shown. */
  class AuthForm {
    var isLogin: bool
    var email: string
    var fullName: string
    var role: string
    var error: string

    function Input(): Form
      reads this
    {
      Form(isLogin, email, fullName, role)
    }

    constructor ()
      ensures isLogin && email == "" && fullName == "" && role == DefaultRole && error == ""
    {
      isLogin := true;
      email := "";
      fullName := "";
      role := DefaultRole;
      error := "";
    }

    /** The link under the form switches between login and registration. */
    method ToggleMode()
      modifies this`isLogin
      ensures isLogin == !old(isLogin)
    {
      isLogin := !isLogin;
    }

    /** Submits the form, as the handler does with the registration lookup
        corrected to getAllUsers (as written, registration throws instead:
        see `SubmitAsWritten`). `now` is the clock reading used as the join
        time. Returns the user handed to the completion callback, if any. */
    method HandleSubmit(store: UserStore, now: int) returns (completed: Option<User>)
      modifies this`error, store
      ensures var o := Submit(old(Input()), now, old(store.State()));
              error == o.error && store.State() == o.storage && completed == o.completed
      ensures SessionConsistent(old(store.State())) ==> SessionConsistent(store.State())
      ensures UniqueEmails(old(UsersOf(store.State()))) ==> UniqueEmails(UsersOf(store.State()))
    {
      SubmitPreserves(Input(), now, store.State());
      error := "";
      completed := None;
      if isLogin {
        var user := store.Login(email);
        if user.Some? {
          completed := user;
        } else {
          error := EmailNotFound;
        }
      } else {
        var users := store.GetAllUsers();
        var existing := Find(users, email);
        if existing.Some? {
          error := EmailTaken;
          return;
        }
        var newUser := User(email, fullName, role, Department, now, Some([]));
        store.SaveUser(newUser);
        var _ := store.Login(email);
        completed := Some(newUser);
      }
    }
  }
}
