# User and session store of the Ice Media Lab ad-intelligence portal

The portal keeps its employees in the browser. Two persisted entries hold
this data:

- the organisation's user list, a JSON array of user records keyed in
  practice by email;
- the active session, a JSON copy of one user record.

The store object `storageService` (services/storageService.ts) reads, edits
and writes back these entries. Its operations are:

- `getAllUsers`, `addUser`, `updateUser` and `saveUser` (upsert);
- `getCurrentUser`, `login` and `logout`;
- `addReportToUser`, which puts a new report in front of a user's history.

The sign-in form (components/Auth.tsx, `handleSubmit`) uses the store:

- in login mode it opens a session for a known email;
- in registration mode it is meant to refuse an email that is already taken,
  and otherwise to create a user in the "Creative Strategy" department with
  an empty history, save the user and log them in. As written, the lookup on
  line 29 calls `getUsers`, which the store does not define. So every
  registration throws before the duplicate check, and nothing is saved (see
  "## Findings"). The model keeps both versions. `SubmitAsWritten` is the
  handler as written. `Submit` and `HandleSubmit` are the handler with line
  29's lookup corrected to `getAllUsers`.

Emails stay unique because `saveUser` is an upsert: it calls the store's
unchecked insert only for an email that is absent. In the corrected handler
the form's duplicate check does something else. It stops a registration from
overwriting an existing account, whose history would be lost, and from
logging the registrant into that account. As written, the check is never
reached.

The model has three files:

- `types.dfy` (module `Types`) defines the user and report records.
- `storage_service.dfy` (module `StorageService`) has the class `UserStore`.
  Its fields `usersEntry` and `sessionEntry` are the two persisted entries.
  Each is `None` while its key is absent. The methods that change the list
  read it, change their copy and write it back, as the TypeScript store does.
  Each method's `ensures`
  gives the new entries as a specification function of the old ones
  (`AfterAddUser`, `AfterUpdateUser`, …). The lemmas state what those
  functions promise.
- `auth.dfy` (module `Auth`) has the class `AuthForm`. Its `HandleSubmit`
  method models the corrected handler and is specified by the function
  `Submit`. The function `SubmitAsWritten` models the handler as written.

Two invariants are proved:

- **Unique emails:** no two stored users share an email.
- **Session consistency:** a present session equals the record that the store
  finds by the session's email.

Every store operation keeps session consistency on its own, whether or not
emails are unique. Every operation except a bare `addUser` keeps unique
emails. `addUser` keeps them exactly when its email is new, and its only
caller, `saveUser`, calls it only in that case. Every submit of the corrected form
keeps each invariant. The session copy therefore cannot drift from the list,
as long as every write succeeds and only one tab is open. Both conditions are
outside the model; see "## Left out".

## Model

| member | source | states |
|---|---|---|
| `StorageService.FindIndex` | services/storageService.ts:29 | the index is -1 exactly when no entry has the email; otherwise that entry has the email and no earlier entry does |
| `StorageService.Find` | services/storageService.ts:68 | a user is found exactly when some entry has the email; it is an entry with that email and no earlier entry has it |
| `StorageService.FindAfterReplace` | services/storageService.ts:29-31 | after the first match of a user's email is overwritten, that email finds the new user and every other email finds what it found before |
| `StorageService.FindAfterAppend` | services/storageService.ts:19-20 | after an append, an email already present still finds its old first match; the appended user is found only by an email that was absent |
| `StorageService.UserStore.constructor` | services/storageService.ts:3-4 | a fresh profile has neither the user-list key nor the session key |
| `StorageService.UserStore.GetAllUsers` | services/storageService.ts:10-13 | returns the stored list, and the empty list when nothing has been stored |
| `StorageService.NothingStoredMeansNoUsers` | services/storageService.ts:10-13 | on a fresh profile the user list reads as empty |
| `StorageService.UserStore.AddUser` | services/storageService.ts:18-22 | the stored list becomes the old list with the user appended; the session is untouched; session consistency is kept; from unique emails, uniqueness is kept exactly when the email is new |
| `StorageService.AddUserAppends` | services/storageService.ts:18-22 | the list grows by one, the old entries are a prefix in the same order, the last entry is the user, the session is unchanged, and appending a present email breaks uniqueness because no duplicate check is made |
| `StorageService.AppendUniqueIffAbsent` | services/storageService.ts:18-22 | starting from unique emails, an append keeps them unique if and only if the appended email is new |
| `StorageService.AddUserKeepsSession` | services/storageService.ts:18-22 | addUser keeps the session consistent, whatever the list holds |
| `StorageService.UserStore.UpdateUser` | services/storageService.ts:27-40 | the new entries are those of the update specification; session consistency and unique emails are each kept |
| `StorageService.UpdateUserReplacesFirstMatch` | services/storageService.ts:27-33 | only the first entry with the user's email is overwritten; the length and all other entries are unchanged; with no match nothing changes, the session included |
| `StorageService.UpdateUserSyncsSession` | services/storageService.ts:34-38 | the session becomes the user exactly when an entry matched and the session holds a user with that email, and is untouched otherwise; afterwards such a session equals the stored record |
| `StorageService.UpdateUserKeepsUnique` | services/storageService.ts:27-33 | an update keeps emails unique |
| `StorageService.UpdateUserKeepsSession` | services/storageService.ts:27-40 | an update keeps the session consistent, whether or not emails are unique |
| `StorageService.UserStore.SaveUser` | services/storageService.ts:45-53 | updates when the email is present and appends otherwise; session consistency and unique emails are each kept |
| `StorageService.SaveUserUpserts` | services/storageService.ts:45-53 | afterwards the first user found by that email is the given user; the list grows by one exactly when the email was absent |
| `StorageService.SaveUserKeepsUnique` | services/storageService.ts:45-53 | if emails were unique before a save, they are unique after it |
| `StorageService.SaveUserKeepsSession` | services/storageService.ts:45-53 | a save keeps the session consistent, whether or not emails are unique |
| `StorageService.UserStore.GetCurrentUser` | services/storageService.ts:58-61 | returns the session entry; under session consistency it is the record the store finds by its email |
| `StorageService.UserStore.Login` | services/storageService.ts:66-74 | returns the first stored user with the email, or nothing; sets the session to that user and otherwise changes nothing; session consistency is kept |
| `StorageService.LoginSetsSession` | services/storageService.ts:66-74 | on a present email the session becomes the stored user with that email and the list is kept; on an absent email nothing changes |
| `StorageService.LoginKeepsSession` | services/storageService.ts:66-74 | login keeps the session consistent |
| `StorageService.UserStore.Logout` | services/storageService.ts:79-81 | the session is removed and the list is kept, so the session is trivially consistent |
| `StorageService.LogoutIdempotent` | services/storageService.ts:79-81 | after logout the session is empty and the list unchanged; logging out twice equals logging out once |
| `StorageService.LogoutKeepsSession` | services/storageService.ts:79-81 | logout keeps the session consistent |
| `StorageService.UserStore.AddReportToUser` | services/storageService.ts:86-93 | the new entries are those of the add-report specification; session consistency and unique emails are each kept |
| `StorageService.AddReportPrepends` | services/storageService.ts:86-93 | for a present email the user's history becomes the report followed by the old history (a missing history counting as empty), one longer, with every other field and every other entry unchanged; for an absent email nothing changes |
| `StorageService.AddTwoReportsNewestFirst` | services/storageService.ts:86-93 | adding R1 then R2 leaves a history that starts [R2, R1] and continues with the old history |
| `StorageService.AddReportKeepsSession` | services/storageService.ts:86-93 | adding a report keeps the session consistent, whether or not emails are unique |
| `StorageService.AddReportKeepsUnique` | services/storageService.ts:86-93 | adding a report keeps emails unique |
| `Auth.AuthForm.constructor` | components/Auth.tsx:11-15 | the form starts in login mode, with empty email and name, the role "Strategist" and no message |
| `Auth.AuthForm.ToggleMode` | components/Auth.tsx:126 | the link flips between login and registration mode |
| `Auth.AuthForm.HandleSubmit` | components/Auth.tsx:17-46 | with line 29's lookup corrected: the message, the store entries and the completed user are those of `Submit` on the form's inputs and the old entries; session consistency and unique emails are each kept |
| `Auth.LoginKnownCompletes` | components/Auth.tsx:21-24 | a known email completes with the stored user, which becomes the session; no message is shown and the list is kept |
| `Auth.LoginUnknownRejected` | components/Auth.tsx:25-27 | an unknown email shows "Email not found. Please register as a new employee." and changes nothing |
| `Auth.RegisterTakenRejected` | components/Auth.tsx:29-33 | with line 29's lookup corrected, registering a present email shows "Email already registered." and changes neither the list nor the session |
| `Auth.RegisterNewSucceeds` | components/Auth.tsx:34-44 | with line 29's lookup corrected, a new email yields a user with the entered email, name and role, department "Creative Strategy", the supplied join time and an empty history; it is appended, becomes the session and is completed, and emails stay unique |
| `Auth.RegisterWithoutCheckOverwrites` | components/Auth.tsx:29-33 | without the duplicate check, registering a taken email would overwrite the first account with that email by the new record (empty history) and log the registrant into it; uniqueness would still hold, so it is the save's upsert, not the check, that keeps emails unique |
| `Auth.CompletedIffNoError` | components/Auth.tsx:19-27 | the message is cleared at each submit, so a submit shows no message exactly when it completes |
| `Auth.SubmitPreserves` | components/Auth.tsx:17-46 | every submit of the corrected handler keeps session consistency, and keeps unique emails |
| `Auth.RegisterLogoutLoginScenario` | components/Auth.tsx:17-46 | with the corrected handler, register a@x.com on a fresh profile, log out, log in again: the second login succeeds with the same user |
| `Auth.SubmitAsWritten` | components/Auth.tsx:17-33 | the handler as written: it throws exactly in registration mode, leaving the message cleared and the entries as they were; in login mode it behaves as the corrected `Submit` |
| `Auth.RegistrationAsWrittenThrows` | components/Auth.tsx:29 | as written, every registration throws a TypeError, because the store defines no `getUsers`, with the message cleared and the entries unchanged |
| `Auth.RegistrationAsWrittenCounterexample` | components/Auth.tsx:29 | on a fresh profile, registering a@x.com as written throws, and a login run on the entries the throw left is refused with the not-found message; with the corrected lookup the same login succeeds |

## Left out

- Browser storage and JSON: the two persisted entries are the fields
  `usersEntry` and `sessionEntry`. Parsing a stored value is taken to return
  exactly what was stored. A corrupted entry, where `JSON.parse` throws, is
  not modelled.
- A failing write is not modelled. `localStorage.setItem` can throw, for
  example when the storage quota is exceeded, and every report is a large
  document. `updateUser` writes the list (services/storageService.ts:32) and
  the session (services/storageService.ts:37) in two separate writes. If the
  second write fails after the first succeeded, the list holds the new record
  and the session keeps the stale copy. The session-consistency results hold
  only when every write succeeds.
- The lost-update race between two tabs is not modelled. Each tab does its
  own read-modify-write and the last write wins. The model is
  single-threaded.
- Clock and randomness: `Date.now()` is the `now` parameter of
  `HandleSubmit`. A report's random id and timestamp come with the report.
- JavaScript numbers are modelled as unbounded integers. Join times and
  report timestamps are never used in arithmetic.
- The generated report sections are one opaque string. The store never
  reads them.
- `onAuthComplete` is modelled as `HandleSubmit`'s return value. `setError`
  is modelled as an assignment. A React state update shows only the
  handler's last value, and that is the value the model keeps.
- `e.preventDefault()`, the JSX, and the form's input handlers are not
  modelled. The handlers only copy text into the fields.
- The rest of the application is not part of this model: the application
  shell, the report generator, the other components, the prompt text.
- The directory view calls the same missing `getUsers`
  (components/EmployeeDirectory.tsx:6). That view is not part of this model.

## Findings

| source | as written | input that shows it | evidently intended | confidence | as-written member | corrected member |
|---|---|---|---|---|---|---|
| components/Auth.tsx:29 | the registration branch calls `storageService.getUsers()`, but the store defines only `getAllUsers` (services/storageService.ts:10), so the call throws a TypeError after the message was cleared and before anything is saved | register "a@x.com" on a fresh profile: nothing is stored, no session opens, and a later login with "a@x.com" shows "Email not found. Please register as a new employee." | look the email up in `getAllUsers()`, so that a new email is saved and logged in | not executed | `Auth.SubmitAsWritten`, `Auth.RegistrationAsWrittenCounterexample` | `Auth.Submit`, `Auth.AuthForm.HandleSubmit`, `Auth.RegisterNewSucceeds` |
