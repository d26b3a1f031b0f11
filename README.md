# Face-recognition attendance: model of the marking rule and the route guard

This project models the decision core of a face-recognition attendance
tracker. The backend keeps two collections: users, each with a stored
reference face descriptor, and an append-only ledger of attendance records.
`POST /api/mark-attendance` decides whether a user's presence for today is
recorded. The client's `ProtectedRoute` decides whether a protected screen is
shown or the visitor is sent elsewhere. The model covers:

- the ledger schema and its defaults: a record holds a user, a date that
  defaults to the current time, and a status that defaults to `"present"`;
- the mark-attendance handler as a class `AttendanceService` whose method
  `MarkAttendance` updates the ledger field. It is proved against the pure
  decision `Attendance.Decide` and the resulting ledger `Attendance.After`;
- the two read queries, "today's record" (`Ledger.Today`) and the
  newest-first history (`Ledger.History`);
- the login decision (`Auth.Login`);
- the route guard's redirects and rendered view (`RouteGuard`).

Modules: `Wrappers` (Option), `Store` (the first-match lookup behind
`findOne` and `findById`), `Clock` (local midnight), `FaceMatch` (the L1
distance and the 0.6 threshold), `Ledger` (schema and queries), `Attendance`
(the handler), `Auth` (login) and `RouteGuard` (the client guard).

Modelling choices:

- Time is an integer count of milliseconds since the epoch. "Today's
  midnight" is `StartOfDay(now, zone)`. `zone` is the server's fixed offset
  from UTC and is a constant of the service.
- Descriptors are `seq<real>`. The distance is the left fold over the
  captured descriptor's indices, as the handler's `reduce` is. The field is a
  JSON array, so the store default is an empty array, never a missing value.
  - If the captured descriptor is shorter than the stored one, only the
    stored prefix is compared.
  - If it is longer, the handler reads stored entries that do not exist. The
    sum is then not a number and `distance >= 0.6` is false, so the face is
    accepted. `FaceMatch.Rejected` states this case explicitly. The model
    adds no validation error and no NaN value.
- A descriptor is "supplied" exactly when it is present (`Some`). Any array
  is truthy in JavaScript, including the empty one, and the empty one always
  passes (`FaceMatch.AgreeingPrefixAccepted`).
- `findOne` and `findById` return the first matching document in
  collection order. The uniqueness of ids, and of emails through the unique
  index, is an assumed store invariant (`Ledger.UniqueUsers`).
- `bcrypt.compare` is a function parameter of `Auth.Login`. A signed token
  is modelled by what it carries: the user id, the secret and the `"1h"`
  lifetime.
- `requiredRole` follows JavaScript truthiness: the empty string acts like
  `null`.
- The handler does not compare descriptor lengths and has no validation
  error, and the model adds none.
- The guard checks only the session user, not a token.

## Model

| member | source | states |
|---|---|---|
| Store.FindFirst | backend/index.js:106-109 | a lookup finds nothing exactly when no document matches; otherwise it returns the first matching document |
| Clock.StartOfDay | backend/index.js:103-104 | today's midnight is at or before `now`, less than a day before it, and falls on a local day boundary |
| Clock.MidnightIsStartOfDay | backend/index.js:103-104 | each day has exactly one midnight: any day boundary within a day before `t` is `t`'s midnight |
| Clock.SameDayAsNow | backend/index.js:103-108 | every moment from today's midnight up to `now` lies on today's day |
| FaceMatch.Distance | backend/index.js:118-119 | the L1 distance is never negative, and it is zero exactly when the captured descriptor equals the reference on every captured index |
| FaceMatch.DistanceReadsPrefix | backend/index.js:118-119 | reference entries past the captured descriptor's length do not affect the distance |
| FaceMatch.DistanceSymmetric | backend/index.js:118-119 | for equal lengths the distance is the same whichever descriptor was captured |
| FaceMatch.Rejected | backend/index.js:116-123 | the test `distance >= 0.6`: a captured descriptor longer than the reference is never rejected, and a rejected descriptor differs from the reference at some captured index |
| FaceMatch.IdenticalAccepted | backend/index.js:116-123 | a descriptor identical to the reference is never rejected |
| FaceMatch.AgreeingPrefixAccepted | backend/index.js:116-123 | a captured descriptor that agrees with the reference on its own indices is never rejected, including the empty one |
| FaceMatch.LongerCapturedAccepted | backend/index.js:118-123 | a captured descriptor longer than the reference is never rejected, because its distance is not a number |
| FaceMatch.WorkedExamples | backend/index.js:118-123 | [0,0,0] against itself has distance 0 and passes; [1,1,1] against [0,0,0] has distance 3 and is rejected |
| Ledger.NewRecord | backend/index.js:28-32 | a new record belongs to the requesting user, is dated at the current time, has status "present", and so is dated at or after the midnight of its creation time in every zone |
| Ledger.FindUser | backend/index.js:96-100 | the user is missing exactly when no user has the id; otherwise a user with that id is returned |
| Ledger.Today | backend/index.js:147-157 | the answer is a record of that user dated at or after today's midnight, or null exactly when there is no such record |
| Ledger.Owned | backend/index.js:138 | the result holds all and only the ledger's records of that user, each as often as in the ledger |
| Ledger.Insert | backend/index.js:139 | inserting into a newest-first list keeps it newest first and adds exactly that record |
| Ledger.SortNewestFirst | backend/index.js:139 | the sort outputs a newest-first permutation of its input |
| Ledger.History | backend/index.js:136-145 | the history is newest first and holds all and only that user's records, each as often as in the ledger |
| Attendance.HttpStatus | backend/index.js:98-129 | the answer is 200 exactly for "already marked" and success, 404 exactly for an unknown user, 400 exactly for a rejected face |
| Attendance.MessagesDistinct | backend/index.js:98-129 | the four answers carry four different texts |
| Attendance.Decide | backend/index.js:93-134 | "User not found" exactly when no user has the id; "already marked" exactly when the user exists and has a record dated at or after midnight; "Face not recognized" only for a supplied descriptor rejected against that user's reference; a success only when there is no record today and the descriptor is absent or accepted |
| Attendance.After | backend/index.js:126-128 | the saved ledger keeps every earlier record in place and grows by exactly one record, the new one, only on success |
| Attendance.DecideForUser | backend/index.js:96-129 | with unique ids, the outcome is the handler's table applied to the one user with that id |
| Attendance.UnknownUserChangesNothing | backend/index.js:96-100 | an unknown user gets "User not found" and the ledger is unchanged |
| Attendance.AlreadyMarkedBeforeFaceCheck | backend/index.js:103-116 | a record dated at or after midnight means "already marked" for every descriptor, so the face check is never reached and the ledger is unchanged |
| Attendance.RejectionChangesNothing | backend/index.js:98-123 | every outcome except success leaves the ledger unchanged |
| Attendance.ErrorStatusChangesNothing | backend/index.js:98-123 | an answer with an error status (not 200) never changes the ledger |
| Attendance.FarDescriptorRefused | backend/index.js:116-123 | with no record today, a supplied descriptor at distance 0.6 or more gets "Face not recognized" and nothing is recorded |
| Attendance.MarkedWithoutOrWithMatchingDescriptor | backend/index.js:116-129 | an existing user with no record today is marked when no descriptor is sent (the face check is skipped) and when the sent descriptor equals the stored one |
| Attendance.SuccessAppendsOne | backend/index.js:126-129 | a success appends exactly one record, for the requesting user, dated now, with the schema's default status "present", and leaves earlier records in place |
| Attendance.TodayAfterMark | backend/index.js:147-157 | after a success, a today query made at any later moment of the same day returns the new record |
| Attendance.OwnedAppend | backend/index.js:138 | appending a record adds it to its owner's record list and changes no other user's list |
| Attendance.HistoryAfterMark | backend/index.js:136-141 | after a success the user's history gains exactly the new record, and every other user's history is unchanged |
| Attendance.SameDayTwice | backend/index.js:106-128 | after a call that marked the user, or found the day marked, a second call on the same day gets "already marked" and adds nothing |
| Attendance.MarkKeepsOncePerDay | backend/index.js:106-128 | one call keeps at most one record per user per local day, whatever the clock says |
| Attendance.TodayMeansSameDay | backend/index.js:103-113 | on a ledger with no future records, "dated at or after midnight" means "on today's day" |
| Attendance.RunKeepsOncePerDay | backend/index.js:106-128 | any sequence of calls keeps at most one record per user per day, keeps every earlier record, and adds at most one record per call |
| Attendance.AttendanceService.MarkAttendance | backend/index.js:93-134 | the handler answers `Decide` of the old state, leaves the users unchanged, and sets the ledger to `After` of the old ledger, keeping the store invariants |
| Auth.HttpStatus | backend/index.js:77-87 | the answer is 404 exactly for an unknown email, 400 exactly for invalid credentials, 200 exactly for a login |
| Auth.FindByEmail | backend/index.js:75 | no user is found exactly when no user has the email; otherwise a user with that email is returned |
| Auth.Login | backend/index.js:72-91 | "User not found" exactly when no user has the email; "Invalid credentials" only when that user's hash does not match; otherwise a token (built by `Auth.Sign`) whose payload is that user's id, with that user's id, name and email |
| Auth.LoginStatus | backend/index.js:77-87 | the login answer is 404 exactly when no user has the email, 400 only for a user whose password does not match its hash, 200 only for a user whose password matches |
| Auth.LoginForUser | backend/index.js:75-87 | with unique emails, the one user with that email gets a token for their id when the password matches, and "Invalid credentials" otherwise |
| RouteGuard.Redirects | front/src/components/ProtectedRoutes.jsx:11-19 | at most one push per evaluation; `/login` exactly when loading is over and there is no user; `/unauthorized` exactly when loading is over and the user's role differs from a required role; no push while loading |
| RouteGuard.Render | front/src/components/ProtectedRoutes.jsx:21-25 | the children are rendered exactly when loading is over, a user is present, and either no role is required or the user's role is the required one |
| RouteGuard.WhileLoading | front/src/components/ProtectedRoutes.jsx:12-22 | while loading nothing is pushed and only the placeholder shows |
| RouteGuard.NoRenderWhenRedirecting | front/src/components/ProtectedRoutes.jsx:12-21 | whenever a redirect is pushed, the children are not rendered |
| RouteGuard.RedirectOrRender | front/src/components/ProtectedRoutes.jsx:12-25 | once loading is over, the guard either renders the children or pushes a redirect, never both |
| RouteGuard.NoRoleAdmitsEveryUser | front/src/components/ProtectedRoutes.jsx:7-25 | with no required role, every signed-in user sees the children and is not redirected |

## Left out

- HTTP plumbing: Express routing, body parsing, CORS, static files, the listener and environment loading (backend/index.js:1-17, 184-185). These are I/O.
- Error answers with status 500: database failures, ids that are not valid ObjectIds, and a supplied descriptor that is not an array (it has no `reduce`). The catch blocks only report these.
- Non-numeric descriptor entries: descriptors are reals here. In the handler, an entry such as `"a"` or `{}` makes the sum not a number, so the face is accepted, as for a longer captured descriptor; `null` and numeric strings are coerced to numbers.
- The handler's two clock readings: midnight comes from `new Date()` before the lookups, and the record is dated by the schema default `Date.now` when it is created, after them. `Ledger.NewRecord`, `Attendance.After` and `Attendance.SuccessAppendsOne` use one instant `now` for both.
- Registration (`POST /api/register`) and the profile lookup (`GET /api/user/:userId`). They are outside the modelled core, so the users collection is an input of the service. Registration's `JSON.parse`, its bcrypt hashing with cost 10, the `role` default and the multer upload are left out with it.
- The `populate('userId', 'name')` join of the user's name into history entries. It only adds presentation.
- The store's own query engine, save and unique index. Collections are sequences, and the unique index is the assumed invariant `Ledger.UniqueUsers`.
- The check-then-act race between concurrent mark requests. The model covers sequential calls only.
- Floating-point arithmetic: descriptors and distances are mathematical reals. A descriptor longer than the stored one is the explicit "not a number" case, with no NaN value.
- Daylight-saving changes to the local offset: the zone offset is fixed.
- bcrypt and JWT internals, and token expiry checking. Hash comparison is a parameter. A token is the value it carries.
- The React pages and the navigation bar: fetch calls, `localStorage` and rendering. The client never sends a descriptor when it marks attendance. Its face match happens in a component that is not part of this model.
- `router.push` as a navigation side effect: the model returns the pushed paths as a value.
- Auth.Login: the answer is stated for the first user with the email, and `Auth.LoginForUser` identifies that user under the unique-email invariant. Without the invariant, the model does not say which of several users with the same email answers.
