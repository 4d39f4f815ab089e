# technotes-api: request decisions of the auth, user and note handlers

This project models the decision logic of the technotes-api backend, an
Express/Mongoose service for users and notes with JWT authentication. The
model covers the three controllers:

- `login`, `refresh` and `logout` (controllers/authController.js);
- the user administration handlers (controllers/usersController.js);
- the note handlers (controllers/notesController.js).

Each handler is a pure function. It takes the request fields, a snapshot of
the two collections (`Store.Db`), and the outcomes of the libraries it calls.
It returns a `Http.Response`: a status, a JSON body and the cookie
operations, or the exception the handler throws. Handlers that write also
return the store they leave behind (`Http.Step`).

Library calls are arguments:

- `Crypto.Oracles` holds `bcrypt.compare`, `bcrypt.hash`, `jwt.sign` and
  `jwt.verify` as function values.
- `Crypto.SoundJwt` is the one assumption about them. It has three parts:
  a signed token is non-empty; it verifies, with its own secret, to its
  payload before it expires; and from its expiry time (`iat` plus the
  lifetime) on it does not verify. The token clauses of
  `Auth.AccessTokenFor` and `Auth.RefreshTokenFor`, the validity clause of
  `Auth.LoginCookieStored`, and the lemmas `Auth.LoginThenRefresh`,
  `Auth.LoginThenLateRefresh` and `Auth.LogoutIntendedEndsSession` are
  conditioned on it; nothing else uses it.
- `bcrypt.hash` is called with `Crypto.SaltRounds` (10) rounds.
- The clock (`now`, in seconds), new document ids, bcrypt's random salt and
  the note ticket counter are arguments too.

Each collection is a sequence in the store's natural order, so Mongoose's
`findOne` is "the first match" (`Store.FirstIndex`). The collation
(`locale: 'nl', strength: 2`) is `Text.CaseFoldEq`, equality up to the case
of ASCII letters.

`Store.WellFormed` states the store's invariants:

- user ids are unique;
- note ids are unique;
- usernames are unique up to case;
- note titles are unique up to case;
- every note belongs to an existing user.

Lemmas prove that every writing handler preserves these invariants.

`Browser` models the client's cookie jar, following the cookie
specification (RFC 6265bis):

- a `__Host-` cookie is kept only when it is `Secure` with path `/`;
- `SameSite=None` requires `Secure`;
- a clear is itself a `Set-Cookie` with a past expiry, so it must pass the
  same two rules, and it removes a cookie only when its path and
  partitioning match.

Express supplies path `/` when a call gives none. This jar lets the lemmas
state session round trips: login, then refresh, then logout.

Request fields: for `username`, `password` and `id` in the auth and user
handlers, an absent, `null` or empty value is written as the empty string,
because those handlers only test these fields for truthiness. The note
fields, `roles` and `active` are `Js.JsValue`, because the code tests their
`typeof` and `Array.isArray`.

In these places the code departs from the usual design of this token flow,
and the model follows the code:

- `refresh` does not reject a deactivated user (`Auth.RefreshIgnoresActive`).
- `logout` tests a cookie named `jwt` instead of `__Host-jwt`, and its clear
  call gives no path.
- A missing entity gets status 400, not 404.
- The duplicate-title guard of the note handlers throws instead of answering
  409.

## Model

| member | source | states |
|---|---|---|
| Text.Capitalize | controllers/usersController.js:13 | the result has the input's length, its first character upper-cased and every later character unchanged; the empty string maps to itself |
| Text.CapitalizeIdempotent | controllers/usersController.js:13 | capitalizing an already capitalized role changes nothing |
| Text.CapitalizeFixedPoint | controllers/usersController.js:13 | a role is left unchanged exactly when it is empty or does not start with a lower-case letter |
| Text.JoinLeftToRight | controllers/usersController.js:115 | the left-to-right accumulation that `Array.prototype.join` performs produces the recursive `Join` (separator between neighbours only) |
| Text.NatToStringRoundTrip | controllers/usersController.js:30 | the decimal text of a count in a message reads back as that count, so the message identifies it |
| Text.NatToString | controllers/notesController.js:22 | a count prints as a non-empty string of decimal digits with no leading zero |
| Text.JoinCapitalizedCaseFold | controllers/usersController.js:115 | the capitalized, comma-joined role list equals the plain joined list up to case, so the message names exactly the stored roles in order |
| Text.CapitalizeAll | controllers/usersController.js:115 | mapping capitalize over the roles keeps their number and order and capitalizes each one |
| Text.Join | controllers/usersController.js:115 | joining no parts gives the empty string, and a single part is returned alone with no separator |
| Text.JoinEnds | controllers/usersController.js:115 | a joined list begins with its first part and ends with its last |
| Text.CaseFoldEq | controllers/usersController.js:51 | the collation treats two strings as equal exactly when they have the same length and agree position by position once letters are lower-cased |
| Text.CaseFoldEqCapitalize | controllers/usersController.js:13 | capitalizing never changes what the case-insensitive collation compares |
| Store.UserIndexById | controllers/usersController.js:86 | the id lookup finds the user with that id (the first, should ids repeat), and reports absence only when no user has it; `findById` at usersController.js:157 and notesController.js:47 is the same lookup |
| Store.NoteIndexById | controllers/notesController.js:82 | the note lookup finds the note with that id (the first, should ids repeat), and reports absence only when no note has it; the existence test at notesController.js:168 is the same lookup |
| Store.NoteIndexByFoldedTitle | controllers/notesController.js:33 | the title lookup finds the first note whose title matches up to case, and reports absence only when none does; `exists` at notesController.js:110 is the same test |
| Store.UserIndexByName | controllers/authController.js:24 | login's lookup finds the first user whose name matches exactly, and reports absence only when no user has that exact name |
| Store.UserIndexByFoldedName | controllers/usersController.js:51 | the duplicate lookup finds the first user whose name matches up to case, and reports absence only when none does |
| Store.HasNoteOf | controllers/usersController.js:153 | the note-existence test holds exactly when some note is assigned to the given user id |
| Store.FoldedNameLookupFindsOwner | controllers/usersController.js:92-96 | when names are unique up to case, the case-insensitive lookup of a user's own name returns that user |
| Auth.AccessTokenFor | controllers/authController.js:32-41 | with sound signing, the access token is non-empty and, for exactly the 15 minutes from issue, verifies with the access secret to `{UserInfo:{username, roles}}` of that user, and from then on does not verify; refresh mints it the same way at authController.js:110-121 |
| Auth.RefreshTokenFor | controllers/authController.js:43-47 | with sound signing, the refresh token is non-empty and, for exactly the 7 days from issue, verifies with the refresh secret to `{username}` of that user and nothing else, and from then on does not verify |
| Auth.Login | controllers/authController.js:10-67 | 400 exactly when username or password is empty, whatever the store holds; unknown user, inactive user and wrong password all give one identical 401 with no cookie; 200 exactly when the first user of that name is active and the password matches; the body then carries only an access token with `{UserInfo:{username, roles}}`, the access secret and 15 minutes, and the one cookie `__Host-jwt` holds the refresh token with `{username}`, the refresh secret and 7 days, set httpOnly, secure, SameSite None, path `/`, partitioned |
| Auth.LoginCookieStored | controllers/authController.js:43-64 | the cookie's max-age of 604800000 ms equals the refresh token's 7-day lifetime; with sound signing, the stored token verifies exactly while that max-age runs; and a browser keeps the cookie: after login the jar holds the refresh token under `__Host-jwt` and nothing else changes |
| Auth.Refresh | controllers/authController.js:86-127 | no `__Host-jwt` cookie gives 401 'Unauthorized request'; a token that fails verification gives 403 'Forbidden'; a decoded name with no stored user gives 401 'Unauthorized'; otherwise 200 with a new access token built from the stored user's current name and roles; no cookie is ever set |
| Auth.RefreshIgnoresActive | controllers/authController.js:106-108 | refresh depends only on the stored names and roles: it answers alike for stores that differ only in `active` flags, ids or hashes, so a deactivated user still gets access tokens |
| Auth.LoginThenRefresh | controllers/authController.js:43-123 | the cookie a successful login stores lets any refresh before the token expires mint an access token from the current record of that name, reflecting role changes since login; once no user of that name remains, refresh gives 401 |
| Auth.LoginThenLateRefresh | controllers/authController.js:46-104 | once the 7 days of the refresh token a login stored are over, a client that still presents that expired token gets 403 'Forbidden', whatever the store holds (a browser honouring the cookie's max-age would send no cookie and get the 401 of authController.js:91) |
| Auth.Logout | controllers/authController.js:133-139 | logout never fails: 204 with no body and no cookie operation exactly when no truthy `jwt` cookie was sent; otherwise 200 'Cookie cleared' and one clear of `__Host-jwt` with httpOnly, secure, SameSite None, partitioned and no path |
| Auth.LogoutIgnoresRefreshCookie | controllers/authController.js:135 | logout's answer is the same whether or not the refresh cookie `__Host-jwt` was sent, or with whatever value |
| Auth.LogoutClearMatchesLoginCookie | controllers/authController.js:136 | when logout does clear, it sends exactly one clear of `__Host-jwt`; its options equal those login set (httpOnly, secure, SameSite None, partitioned) once the path is filled in and the lifetime dropped; and since Express's default path is `/`, the browser drops the refresh cookie |
| Auth.LogoutAfterLoginKeepsRefreshCookie | controllers/authController.js:135 | with only the cookies a login leaves, logout answers 204 and the refresh cookie stays in the jar |
| Auth.LogoutIntended | controllers/authController.js:310-313 | the corrected logout tests `__Host-jwt`; without it, 204 with no body and no cookie operation; with it, 200 'Cookie cleared' and one clear with the set options minus the lifetime |
| Auth.LogoutIntendedEndsSession | controllers/authController.js:310-313 | after a login, the corrected logout answers 200 and removes the refresh cookie, and a second logout answers 204 |
| Users.PublicView | controllers/usersController.js:21 | the listing has one entry per user, in order, with id, name, roles and flag, and no password |
| Users.GetAllUsers | controllers/usersController.js:19-33 | always 200; 'No users found' with an empty list exactly when there are no users; otherwise "Technotes has N users" with every user listed without a password |
| Users.GetAllUsersCountIsListed | controllers/usersController.js:30 | the number printed in the listing message is the number of users in the list |
| Users.CreateNewUser | controllers/usersController.js:39-72 | 400 exactly when username or password is empty or roles is not a non-empty array; 409 exactly when valid and some stored name matches up to case; the store is unchanged in both cases; otherwise exactly one user is appended, with the bcrypt hash of the password at 10 salt rounds (not the password), the roles, and `active` true, and the reply shows only name and roles |
| Users.CreateNewUserPreservesWellFormed | controllers/usersController.js:49-64 | creating a user with a fresh id keeps every store invariant, in particular names unique up to case |
| Users.RolesLeadIn | controllers/usersController.js:117-119 | the lead-in is 'and has these following roles:' exactly when there are more than two roles |
| Users.ActiveText | controllers/usersController.js:112-114 | the flag reads "active" exactly when the user is active |
| Users.RolesText | controllers/usersController.js:115 | the roles text is every role capitalized, in order, joined by ", "; a single role is that role capitalized with no separator; up to case it is the stored roles joined |
| Users.UpdateMessage | controllers/usersController.js:112-129 | the message is "The user <name> is set to ", then "active" or "not active", then the lead-in chosen by the number of roles, then the roles text, separated by single spaces |
| Users.UpdateMessageNamesUserAndRoles | controllers/usersController.js:127-129 | the message starts "The user <name> is set to " and ends with the role list, which names exactly the stored roles in order, up to case |
| Users.UpdateMessageSingleRole | controllers/usersController.js:112-129 | with one role the message reads "... and has taken up the role of <Role>" |
| Users.Updated | controllers/usersController.js:100-107 | the saved user keeps its id; name, roles and flag are the new values; the hash changes to the new password's hash, at 10 salt rounds, exactly when a password is given, else it stays |
| Users.UpdateUser | controllers/usersController.js:78-142 | 400 'all fields are required' unless id, username, a non-empty roles array and a boolean `active` are given; 400 'user not found' for an unknown id; 409 exactly when the first case-insensitive name match is a different user; the store is unchanged in all three; 200 exactly when none of these applies, and then only that user's record is replaced, by the updated user, and the reply carries the update message |
| Users.UpdateUserNameRule | controllers/usersController.js:92-98 | with names unique up to case, taking a name held by user j is refused with 409 exactly when j is a different user, so a user may keep its own name in any case |
| Users.UpdateUserPreservesWellFormed | controllers/usersController.js:86-109 | an update keeps every store invariant, names unique up to case included |
| Users.DeleteUser | controllers/usersController.js:147-183 | an empty id gives 400; a user with notes gives 400 before its existence is checked; an unknown user gives 400; the store is unchanged in these cases; 200 exactly otherwise, removing exactly that user and nothing else, with the reply showing the deleted user |
| Users.DeleteUserPreservesWellFormed | controllers/usersController.js:151-166 | because of the note guard, a deletion never leaves a note without its user, keeps every invariant, and afterwards no user has that id |
| Notes.TitleMatch | controllers/notesController.js:33 | a title lookup only finds notes for a string title; it finds the first note whose title matches up to case, and reports absence only when none does |
| Notes.NoteWord | controllers/notesController.js:19-21 | "notes" exactly when the count exceeds one, "note" otherwise |
| Notes.GetAllNotes | controllers/notesController.js:6-25 | always 200; 'No notes in the current list' with an empty list exactly when there are no notes; otherwise "The list consist of N note(s) " with all notes |
| Notes.GetAllNotesCountIsListed | controllers/notesController.js:19-22 | the number printed in the listing message is the number of notes in the list |
| Notes.CreateNewNote | controllers/notesController.js:26-44 | the handler throws a ReferenceError for `duplicate`, leaving the store unchanged, exactly when the title matches a stored title up to case, even for an otherwise invalid request; otherwise it proceeds as `CreateAfterTitleCheck` |
| Notes.CreateAfterTitleCheck | controllers/notesController.js:46-66 | 400 unless user, title and text are non-empty strings; 400 for an unknown user or an inactive user, with the store unchanged; 200 exactly when the owner exists and is active, appending one note with `completed` false |
| Notes.CreateNewNoteIntended | controllers/notesController.js:33-44 | the corrected creation answers 409 for a title in use and leaves the store alone; it never throws; a title in use by no note proceeds exactly as `CreateAfterTitleCheck`, so a created note's title matches no stored title |
| Notes.CreateNewNoteIntendedPreservesWellFormed | controllers/notesController.js:26-66 | the corrected creation, with a fresh id, keeps every store invariant too |
| Notes.CreateNewNotePreservesWellFormed | controllers/notesController.js:26-66 | creating a note with a fresh id keeps every store invariant: the owner exists and titles stay unique up to case |
| Notes.Merged | controllers/notesController.js:103-133 | title and text take the new value only when it is a non-empty string; `completed` takes it only when it is a boolean; otherwise each keeps the stored value; the owner is always replaced; id and ticket stay |
| Notes.MergedIdempotent | controllers/notesController.js:122-133 | applying the same update twice equals applying it once, and an update with no usable field only reassigns the owner |
| Notes.UpdateAfterTitleCheck | controllers/notesController.js:122-147 | a passed update replaces only that note with the merged note and reports its ticket number |
| Notes.UpdatePrecheck | controllers/notesController.js:73-101 | an update is refused with 400, no cookie and the store unchanged, unless id and user are non-empty strings naming an existing note and an existing user; the checks run in that order: missing id or user gives 'ticket-id and userId are required to update a note', then an unknown note gives 'Provided id <id> does not refer to a note in the database', then an unknown user gives 'The provide userid <user> doesnt refer to a existing User' |
| Notes.UpdateNote | controllers/notesController.js:70-157 | refusals come from the pre-checks; after them, the handler throws exactly when the supplied title matches any stored title up to case; when no title matches it is exactly `UpdateAfterTitleCheck` on that note: 200 with the merged note |
| Notes.UpdateNoteOwnTitleThrows | controllers/notesController.js:110-120 | re-sending a note's own title makes the update throw |
| Notes.UpdateNoteIntended | controllers/notesController.js:110-120 | the corrected update answers 409 'title already in use by another note', the store unchanged, exactly when the title's first match is a different note; it never throws; when no title matches, or the match is the note itself, it is exactly `UpdateAfterTitleCheck` on that note |
| Notes.UpdateNoteIntendedKeepsOwnTitle | controllers/notesController.js:110-133 | with unique ids and titles, the corrected update accepts a note's own title in any case and stores it |
| Notes.UpdateNotePreservesWellFormed | controllers/notesController.js:96-133 | an update keeps every store invariant: the new owner exists and titles stay unique up to case |
| Notes.UpdateNoteIntendedPreservesWellFormed | controllers/notesController.js:96-133 | the corrected update keeps every store invariant too |
| Notes.DeleteNote | controllers/notesController.js:159-193 | 400 unless id is a non-empty string; 400 for an unknown note; the store is unchanged in both; 200 exactly otherwise, removing exactly that note and returning it in the reply |
| Notes.DeleteNotePreservesWellFormed | controllers/notesController.js:168-177 | a deletion keeps every store invariant, and afterwards no note has that id |

## Left out

- The cryptographic algorithms: HMAC-SHA256 signing and bcrypt hashing are arguments in `Crypto.Oracles`. The token's `iat`/`exp` arithmetic lives in the `sign`/`verify` functions.
- Express wiring, routing, static files, CORS, the 404 handler (server.js) and the database connection (config/dbConn.js): these are framework plumbing and I/O.
- The login rate limiter (middleware/loginLimiter.js): it only configures a library whose counting is not shown.
- The error middleware (middleware/errorHandler.js) is not modelled. A thrown error is the `Thrown` response, and the middleware answers for it. Its status fallback and its logging side effect are not modelled.
- models/User.js is not part of this model. `active` defaulting to `true` on creation is the schema default this codebase relies on.
- The ticket auto-increment plugin: the next ticket number is an argument of note creation.
- Mongoose's query machinery is not modelled:
  - ObjectId casting: an id that is not a valid ObjectId is treated as "not found", where Mongoose would throw a cast error.
  - Casting of non-string filter values other than an absent title (see `Notes.TitleMatch` below).
  - `lean` and `select`.
- Notes.TitleMatch: an omitted or non-string title matches no note. Mongoose documents `findOne({ _id: undefined })` as behaving like `findOne({})`, which returns some document. If an omitted `title` is dropped from the filter the same way, the as-written handlers throw more often than modelled: an update without a title (one that only toggles `completed`, say) throws at notesController.js:112, and a create without a title throws at notesController.js:35 whenever any note exists. The model does not decide this driver behaviour.
- In `refresh`, a verified payload without a `username` claim is treated as naming no user. The handlers never mint such a token with the refresh secret. If the access and refresh secrets were equal, an access token sent as the refresh cookie would verify, and `findOne({ username: undefined })` could then match some user; `Tokens.Config` does not rule out equal secrets, and this case is not modelled.
- Auth and user handlers: a `username`, `password` or `id` that is present but not a string is not modelled, because those handlers only truth-test the value and hand it to Mongoose. The same holds for role-array elements that are not strings, and for JavaScript numbers that are not whole numbers.
- Text.Capitalize: models `toUpperCase` for ASCII letters only. Unicode case mapping, including characters that upper-case to two characters, is not modelled.
- Text.CaseFoldEq: folds ASCII letters only. The Dutch collation's treatment of other letters is not modelled.
- Dead branches: a falsy result from `User.create`, `save`, `findByIdAndUpdate` or `deleteOne`, and `getAllNotes`' `!notes` branch, cannot occur on a store snapshot. The model has no such outcome.
- Concurrency: each handler is one atomic step over a snapshot. The check-then-write race between a duplicate check and the insert is not modelled. Nor is the sharing of `noteToUpdate` in `updateNote`: notesController.js:82 assigns it without declaring it, so in non-strict CommonJS it is one module-wide global, and two interleaved updates can merge fallback values from each other's note.
- Browser: the jar is keyed by cookie name and ignores expiry. A cookie's domain and partition key are those of the one API host.

## Findings

| source | as written | input that shows it | evidently intended | confidence | as-written member | corrected member |
|---|---|---|---|---|---|---|
| controllers/authController.js:135 | logout tests `cookies.jwt`, a cookie nothing sets | log in, then log out with the browser's cookies: only `__Host-jwt` is sent, so the answer is 204 and the refresh cookie survives | test and clear `__Host-jwt`, with the options the file's own notes give at lines 310-313 | high; not executed | Auth.LogoutAfterLoginKeepsRefreshCookie | Auth.LogoutIntendedEndsSession |
| controllers/notesController.js:35 | the duplicate-title guard reads the undeclared `duplicate` (and `id`), so any title match throws a ReferenceError instead of answering 409 | create a note whose title matches a stored title up to case | answer 409 'title already in use by another note' and leave the store unchanged | high; not executed | Notes.CreateNewNote | Notes.CreateNewNoteIntended |
| controllers/notesController.js:112 | the update's duplicate-title guard reads the undeclared `duplicate`, so re-sending a note's own title throws | update a note, sending its current title | refuse only a title held by a different note | high; not executed | Notes.UpdateNoteOwnTitleThrows | Notes.UpdateNoteIntendedKeepsOwnTitle |
