/** The client-side user store: a persisted list of user records, keyed in
    practice by email, and a persisted "active session" slot holding a copy
    of one user. Each persisted entry is either absent or holds its decoded
    value; decoding and encoding are taken to be exact inverses. */
module StorageService {
  import opened Types

  /** The two persisted entries between operations. `None` means the key is
      absent (never written, or removed). */
  datatype Storage = Storage(usersEntry: Option<seq<User>>, sessionEntry: Option<User>)

  /** A fresh browser profile: neither key has been written. */
  const EmptyStorage: Storage := Storage(None, None)

  // ---------------------------------------------------------------------
  // Lookups over the user list

  /** Some entry of `users` has this email (the `some` lookup). */
  predicate HasEmail(users: seq<User>, email: string) {
    exists i :: 0 <= i < |users| && users[i].email == email
  }

  /** No two entries share an email. */
  predicate UniqueEmails(users: seq<User>) {
    forall i, j :: 0 <= i < |users| && 0 <= j < |users| && users[i].email == users[j].email ==> i == j
  }

  /** The index of the first entry with this email, or -1 (the `findIndex` lookup). */
  function FindIndex(users: seq<User>, email: string): (r: int)
    ensures -1 <= r < |users|
    ensures r < 0 <==> !HasEmail(users, email)
    ensures r >= 0 ==> users[r].email == email
    ensures r >= 0 ==> forall j :: 0 <= j < r ==> users[j].email != email
  {
    if |users| == 0 then -1
    else if users[0].email == email then 0
    else
      var k := FindIndex(users[1..], email);
      assert forall i :: 1 <= i < |users| ==> users[i] == users[1..][i - 1];
      if k < 0 then -1 else k + 1
  }

  /** The first entry with this email, if any (the `find` lookup). */
  function Find(users: seq<User>, email: string): (r: Option<User>)
    ensures r.Some? <==> HasEmail(users, email)
    ensures r.Some? ==> r.value.email == email
    ensures r.Some? ==> exists i :: 0 <= i < |users| && users[i] == r.value &&
                          forall j :: 0 <= j < i ==> users[j].email != email
  {
    var i := FindIndex(users, email);
    if i < 0 then None else Some(users[i])
  }

  // ---------------------------------------------------------------------
  // The effect of each operation on the persisted entries

  /** What getAllUsers reads: the stored list, or the empty list when none
      has been stored yet. */
  function UsersOf(s: Storage): seq<User> {
    s.usersEntry.GetOr([])
  }

  /** The user list after its first entry with `user.email` is overwritten. */
  function ReplaceFirst(users: seq<User>, user: User): seq<User> {
    var i := FindIndex(users, user.email);
    if i < 0 then users else users[i := user]
  }

  /** The session after an update of `user`: refreshed only when it holds a
      user with the same email. */
  function SyncSession(session: Option<User>, user: User): Option<User> {
    if session.Some? && session.value.email == user.email then Some(user) else session
  }

  function AfterAddUser(s: Storage, user: User): Storage {
    Storage(Some(UsersOf(s) + [user]), s.sessionEntry)
  }

  function AfterUpdateUser(s: Storage, user: User): Storage {
    if HasEmail(UsersOf(s), user.email) then
      Storage(Some(ReplaceFirst(UsersOf(s), user)), SyncSession(s.sessionEntry, user))
    else
      s
  }

  function AfterSaveUser(s: Storage, user: User): Storage {
    if HasEmail(UsersOf(s), user.email) then AfterUpdateUser(s, user) else AfterAddUser(s, user)
  }

  function AfterLogin(s: Storage, email: string): Storage {
    match Find(UsersOf(s), email)
    case Some(u) => s.(sessionEntry := Some(u))
    case None => s
  }

  function AfterLogout(s: Storage): Storage {
    s.(sessionEntry := None)
  }

  /** The user with `report` put in front of their history. */
  function WithReport(u: User, report: Report): User {
    u.(analysisHistory := Some([report] + History(u)))
  }

  function AfterAddReport(s: Storage, email: string, report: Report): Storage {
    match Find(UsersOf(s), email)
    case Some(u) => AfterUpdateUser(s, WithReport(u, report))
    case None => s
  }

  // ---------------------------------------------------------------------
  // Invariants

  /** A present session is a copy of the record the store finds by its email. */
  predicate SessionConsistent(s: Storage) {
    s.sessionEntry.Some? ==> Find(UsersOf(s), s.sessionEntry.value.email) == s.sessionEntry
  }

  // ---------------------------------------------------------------------
  // Lemmas about the lookups

  /** An index that matches and has no earlier match is what findIndex returns. */
  lemma FindIndexIsFirstMatch(users: seq<User>, email: string, k: int)
    requires 0 <= k < |users| && users[k].email == email
    requires forall j :: 0 <= j < k ==> users[j].email != email
    ensures FindIndex(users, email) == k
  {
  }

  /** The lookups look only at emails. */
  lemma FindIndexSameEmails(a: seq<User>, b: seq<User>, email: string)
    requires |a| == |b|
    requires forall k :: 0 <= k < |a| ==> a[k].email == b[k].email
    ensures FindIndex(a, email) == FindIndex(b, email)
    ensures HasEmail(a, email) == HasEmail(b, email)
  {
  }

  /** Overwriting the first match keeps every email in place. */
  lemma ReplaceFirstKeepsEmails(users: seq<User>, user: User)
    ensures |ReplaceFirst(users, user)| == |users|
    ensures forall k :: 0 <= k < |users| ==> ReplaceFirst(users, user)[k].email == users[k].email
  {
  }

  /** After overwriting the first match of `user.email`, looking up that email
      finds `user`, and every other email finds what it found before. */
  lemma FindAfterReplace(users: seq<User>, user: User, email: string)
    ensures Find(ReplaceFirst(users, user), email) ==
            if email == user.email && HasEmail(users, email) then Some(user) else Find(users, email)
  {
    ReplaceFirstKeepsEmails(users, user);
    FindIndexSameEmails(ReplaceFirst(users, user), users, email);
    var i := FindIndex(users, user.email);
    var k := FindIndex(users, email);
    if i >= 0 && k >= 0 && email != user.email {
      assert k != i;
    }
  }

  /** Appending leaves existing matches first; an appended entry is found only
      when no earlier entry has its email. */
  lemma FindAfterAppend(users: seq<User>, user: User, email: string)
    ensures Find(users + [user], email) ==
            if HasEmail(users, email) then Find(users, email)
            else if user.email == email then Some(user) else None
  {
    var t := users + [user];
    var k := FindIndex(users, email);
    if k >= 0 {
      FindIndexIsFirstMatch(t, email, k);
    } else if user.email == email {
      FindIndexIsFirstMatch(t, email, |users|);
    } else {
      assert forall i :: 0 <= i < |users| ==> t[i] == users[i];
    }
  }

  // ---------------------------------------------------------------------
  // Lemmas about the operations

  /** getAllUsers on a fresh profile returns the empty list. */
  lemma NothingStoredMeansNoUsers()
    ensures UsersOf(EmptyStorage) == []
  {
  }

  /** addUser appends at the end: earlier entries keep their order, the session
      is untouched, and no duplicate check is made. */
  lemma AddUserAppends(s: Storage, user: User)
    ensures var t := UsersOf(AfterAddUser(s, user));
            |t| == |UsersOf(s)| + 1 && t[..|UsersOf(s)|] == UsersOf(s) && t[|UsersOf(s)|] == user
    ensures AfterAddUser(s, user).sessionEntry == s.sessionEntry
    ensures HasEmail(UsersOf(s), user.email) ==> !UniqueEmails(UsersOf(AfterAddUser(s, user)))
  {
    var u := UsersOf(s);
    var t := UsersOf(AfterAddUser(s, user));
    if HasEmail(u, user.email) {
      var i :| 0 <= i < |u| && u[i].email == user.email;
      assert t[i].email == t[|u|].email;
    }
  }

  /** An append keeps emails unique exactly when the email is new. */
  lemma AppendUniqueIffAbsent(users: seq<User>, user: User)
    requires UniqueEmails(users)
    ensures UniqueEmails(users + [user]) <==> !HasEmail(users, user.email)
  {
    var t := users + [user];
    if HasEmail(users, user.email) {
      var i :| 0 <= i < |users| && users[i].email == user.email;
      assert t[i].email == t[|users|].email;
    } else {
      assert forall i :: 0 <= i < |users| ==> t[i] == users[i] && t[i].email != user.email;
    }
  }

  /** updateUser overwrites only the first entry with the user's email: the
      length and every other entry are kept; with no match nothing changes. */
  lemma UpdateUserReplacesFirstMatch(s: Storage, user: User)
    ensures var t := UsersOf(AfterUpdateUser(s, user)); var i := FindIndex(UsersOf(s), user.email);
            |t| == |UsersOf(s)| &&
            (i >= 0 ==> t[i] == user && forall j :: 0 <= j < |t| && j != i ==> t[j] == UsersOf(s)[j])
    ensures !HasEmail(UsersOf(s), user.email) ==> AfterUpdateUser(s, user) == s
  {
  }

  /** updateUser refreshes the session copy exactly when the email matches a
      stored entry and a session with that email exists; afterwards such a
      session equals the stored record. */
  lemma UpdateUserSyncsSession(s: Storage, user: User)
    ensures var t := AfterUpdateUser(s, user);
            t.sessionEntry ==
              if HasEmail(UsersOf(s), user.email) && s.sessionEntry.Some? &&
                 s.sessionEntry.value.email == user.email
              then Some(user) else s.sessionEntry
    ensures var t := AfterUpdateUser(s, user);
            HasEmail(UsersOf(s), user.email) && t.sessionEntry.Some? && t.sessionEntry.value.email == user.email ==>
              Find(UsersOf(t), user.email) == t.sessionEntry
  {
    if HasEmail(UsersOf(s), user.email) {
      FindAfterReplace(UsersOf(s), user, user.email);
    }
  }

  /** updateUser keeps emails unique. */
  lemma UpdateUserKeepsUnique(s: Storage, user: User)
    requires UniqueEmails(UsersOf(s))
    ensures UniqueEmails(UsersOf(AfterUpdateUser(s, user)))
  {
  }

  /** saveUser is an upsert: afterwards the first user found by that email is
      the given user; an absent email is appended and a present one is
      overwritten in place. */
  lemma SaveUserUpserts(s: Storage, user: User)
    ensures Find(UsersOf(AfterSaveUser(s, user)), user.email) == Some(user)
    ensures |UsersOf(AfterSaveUser(s, user))| ==
            if HasEmail(UsersOf(s), user.email) then |UsersOf(s)| else |UsersOf(s)| + 1
  {
    if HasEmail(UsersOf(s), user.email) {
      FindAfterReplace(UsersOf(s), user, user.email);
    } else {
      FindAfterAppend(UsersOf(s), user, user.email);
    }
  }

  /** saveUser keeps emails unique. */
  lemma SaveUserKeepsUnique(s: Storage, user: User)
    requires UniqueEmails(UsersOf(s))
    ensures UniqueEmails(UsersOf(AfterSaveUser(s, user)))
  {
  }

  /** login on a present email makes the stored user the session; on an absent
      email it changes nothing. The user list is never changed. */
  lemma LoginSetsSession(s: Storage, email: string)
    ensures HasEmail(UsersOf(s), email) ==>
              var t := AfterLogin(s, email);
              t.sessionEntry == Find(UsersOf(s), email) && t.sessionEntry.value.email == email &&
              t.usersEntry == s.usersEntry
    ensures !HasEmail(UsersOf(s), email) ==> AfterLogin(s, email) == s
  {
  }

  /** logout empties the session, keeps the list, and is idempotent. */
  lemma LogoutIdempotent(s: Storage)
    ensures AfterLogout(s).sessionEntry == None && AfterLogout(s).usersEntry == s.usersEntry
    ensures AfterLogout(AfterLogout(s)) == AfterLogout(s)
  {
  }

  /** addReportToUser on a present email puts the report in front of that
      user's history (one longer), keeps every other entry and the list
      length; on an absent email it is a no-op. */
  lemma AddReportPrepends(s: Storage, email: string, report: Report)
    ensures HasEmail(UsersOf(s), email) ==>
              var oldUser := Find(UsersOf(s), email).value;
              var t := UsersOf(AfterAddReport(s, email, report));
              var newUser := Find(t, email);
              newUser.Some? &&
              History(newUser.value) == [report] + History(oldUser) &&
              |History(newUser.value)| == |History(oldUser)| + 1 &&
              newUser.value == oldUser.(analysisHistory := Some(History(newUser.value)))
    ensures var i := FindIndex(UsersOf(s), email); var t := UsersOf(AfterAddReport(s, email, report));
            |t| == |UsersOf(s)| && forall j :: 0 <= j < |t| && j != i ==> t[j] == UsersOf(s)[j]
    ensures !HasEmail(UsersOf(s), email) ==> AfterAddReport(s, email, report) == s
  {
    if HasEmail(UsersOf(s), email) {
      var u := WithReport(Find(UsersOf(s), email).value, report);
      FindAfterReplace(UsersOf(s), u, email);
      UpdateUserReplacesFirstMatch(s, u);
    }
  }

  /** Two reports added in turn sit newest first. */
  lemma AddTwoReportsNewestFirst(s: Storage, email: string, r1: Report, r2: Report)
    requires HasEmail(UsersOf(s), email)
    ensures var t := AfterAddReport(AfterAddReport(s, email, r1), email, r2);
            Find(UsersOf(t), email).Some? &&
            History(Find(UsersOf(t), email).value) == [r2, r1] + History(Find(UsersOf(s), email).value)
  {
    AddReportPrepends(s, email, r1);
    var s1 := AfterAddReport(s, email, r1);
    AddReportPrepends(s1, email, r2);
  }

  /** Session consistency needs nothing of the list: every operation keeps
      it on its own, whether or not emails are unique. */
  lemma AddUserKeepsSession(s: Storage, user: User)
    requires SessionConsistent(s)
    ensures SessionConsistent(AfterAddUser(s, user))
  {
    if s.sessionEntry.Some? {
      FindAfterAppend(UsersOf(s), user, s.sessionEntry.value.email);
    }
  }

  lemma UpdateUserKeepsSession(s: Storage, user: User)
    requires SessionConsistent(s)
    ensures SessionConsistent(AfterUpdateUser(s, user))
  {
    var t := AfterUpdateUser(s, user);
    if HasEmail(UsersOf(s), user.email) && t.sessionEntry.Some? {
      FindAfterReplace(UsersOf(s), user, t.sessionEntry.value.email);
    }
  }

  lemma SaveUserKeepsSession(s: Storage, user: User)
    requires SessionConsistent(s)
    ensures SessionConsistent(AfterSaveUser(s, user))
  {
    if HasEmail(UsersOf(s), user.email) {
      UpdateUserKeepsSession(s, user);
    } else {
      AddUserKeepsSession(s, user);
    }
  }

  lemma LoginKeepsSession(s: Storage, email: string)
    requires SessionConsistent(s)
    ensures SessionConsistent(AfterLogin(s, email))
  {
  }

  lemma LogoutKeepsSession(s: Storage)
    requires SessionConsistent(s)
    ensures SessionConsistent(AfterLogout(s))
  {
  }

  lemma AddReportKeepsSession(s: Storage, email: string, report: Report)
    requires SessionConsistent(s)
    ensures SessionConsistent(AfterAddReport(s, email, report))
  {
    var f := Find(UsersOf(s), email);
    if f.Some? {
      UpdateUserKeepsSession(s, WithReport(f.value, report));
    }
  }

  /** addReportToUser keeps emails unique. */
  lemma AddReportKeepsUnique(s: Storage, email: string, report: Report)
    requires UniqueEmails(UsersOf(s))
    ensures UniqueEmails(UsersOf(AfterAddReport(s, email, report)))
  {
    var f := Find(UsersOf(s), email);
    if f.Some? {
      UpdateUserKeepsUnique(s, WithReport(f.value, report));
    }
  }

  // ---------------------------------------------------------------------
  // The store object

  /** The store over the two persisted entries. The methods that change the
      list read it, change their copy and write it back, as the TypeScript
      store does. */
  class UserStore {
    var usersEntry: Option<seq<User>>
    var sessionEntry: Option<User>

    /** The persisted entries as a value. */
    function State(): Storage
      reads this
    {
      Storage(usersEntry, sessionEntry)
    }

    constructor ()
      ensures State() == EmptyStorage
    {
      usersEntry := None;
      sessionEntry := None;
    }

    /** All stored users in insertion order; empty when nothing is stored. */
    method GetAllUsers() returns (users: seq<User>)
      ensures users == UsersOf(State())
      ensures usersEntry.None? ==> users == []
    {
      users := if usersEntry.Some? then usersEntry.value else [];
    }

    /** The session copy, if a session is active. */
    method GetCurrentUser() returns (current: Option<User>)
      ensures current == sessionEntry
      ensures current.Some? && SessionConsistent(State()) ==>
                Find(UsersOf(State()), current.value.email) == current
    {
      current := sessionEntry;
    }

    method AddUser(user: User)
      modifies this
      ensures State() == AfterAddUser(old(State()), user)
      ensures SessionConsistent(old(State())) ==> SessionConsistent(State())
      ensures UniqueEmails(old(UsersOf(State()))) ==>
                (UniqueEmails(UsersOf(State())) <==> !HasEmail(old(UsersOf(State())), user.email))
    {
      if SessionConsistent(State()) {
        AddUserKeepsSession(State(), user);
      }
      if UniqueEmails(UsersOf(State())) {
        AppendUniqueIffAbsent(UsersOf(State()), user);
      }
      var users := GetAllUsers();
      users := users + [user];
      usersEntry := Some(users);
    }

    method UpdateUser(user: User)
      modifies this
      ensures State() == AfterUpdateUser(old(State()), user)
      ensures SessionConsistent(old(State())) ==> SessionConsistent(State())
      ensures UniqueEmails(old(UsersOf(State()))) ==> UniqueEmails(UsersOf(State()))
    {
      if SessionConsistent(State()) {
        UpdateUserKeepsSession(State(), user);
      }
      if UniqueEmails(UsersOf(State())) {
        UpdateUserKeepsUnique(State(), user);
      }
      var users := GetAllUsers();
      var index := FindIndex(users, user.email);
      if index > -1 {
        users := users[index := user];
        usersEntry := Some(users);
        var current := GetCurrentUser();
        if current.Some? && current.value.email == user.email {
          sessionEntry := Some(user);
        }
      }
    }

    method SaveUser(user: User)
      modifies this
      ensures State() == AfterSaveUser(old(State()), user)
      ensures SessionConsistent(old(State())) ==> SessionConsistent(State())
      ensures UniqueEmails(old(UsersOf(State()))) ==> UniqueEmails(UsersOf(State()))
    {
      if SessionConsistent(State()) {
        SaveUserKeepsSession(State(), user);
      }
      if UniqueEmails(UsersOf(State())) {
        SaveUserKeepsUnique(State(), user);
      }
      var users := GetAllUsers();
      var present := HasEmail(users, user.email);
      if present {
        UpdateUser(user);
      } else {
        AddUser(user);
      }
    }

    method Login(email: string) returns (user: Option<User>)
      modifies this
      ensures user == Find(old(UsersOf(State())), email)
      ensures State() == AfterLogin(old(State()), email)
      ensures SessionConsistent(old(State())) ==> SessionConsistent(State())
    {
      var users := GetAllUsers();
      user := Find(users, email);
      if user.Some? {
        sessionEntry := user;
      }
    }

    method Logout()
      modifies this
      ensures State() == AfterLogout(old(State()))
      ensures SessionConsistent(State())
    {
      sessionEntry := None;
    }

    method AddReportToUser(userEmail: string, report: Report)
      modifies this
      ensures State() == AfterAddReport(old(State()), userEmail, report)
      ensures SessionConsistent(old(State())) ==> SessionConsistent(State())
      ensures UniqueEmails(old(UsersOf(State()))) ==> UniqueEmails(UsersOf(State()))
    {
      if SessionConsistent(State()) {
        AddReportKeepsSession(State(), userEmail, report);
      }
      if UniqueEmails(UsersOf(State())) {
        AddReportKeepsUnique(State(), userEmail, report);
      }
      var users := GetAllUsers();
      var found := Find(users, userEmail);
      if found.Some? {
        var user := found.value.(analysisHistory := Some([report] + found.value.analysisHistory.GetOr([])));
        UpdateUser(user);
      }
    }
  }
}
