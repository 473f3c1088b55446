# Distributed enrollment system: the decision logic of its four services

This project models, in Dafny, the logic inside four small HTTP services of a university enrollment system, with the HTTP, JSON and cryptography layers stripped away:

- **Course service** (`ledger.dfy`, module `Ledger`). This is the enrollment ledger: a course list with open-seat counters, and a set of enrollment keys `"CourseID:StudentID"`.
  - The mutex makes each handler one atomic step. The class `CourseService` holds the two collections as fields. Its `Enroll` and `GetCourses` methods are proved against the pure functions `EnrollEffect` and `Snapshot`.
  - Its invariant `Valid()` holds for every course: open seats plus the enrollment keys for that course equal the seats it started with.
- **Grade service** (`grades.dfy`, module `Grades`):
  - bearer-header extraction;
  - fail-closed introspection against the auth node;
  - role-based access checks;
  - the grade book, which can only be appended to.
  - The class `GradeService` holds the grade book. Its `GetGrades` method filters in a loop, and `UploadGrade` appends after checks in a fixed order.
- **Auth service** (`auth.dfy`, module `Auth`):
  - signing-key selection;
  - the credential store;
  - `login`, which checks credentials and builds claims whose `exp` claim (section 4.1.4 of RFC 7519) is issue time plus one hour;
  - `validate`, which handles the header and decides valid or invalid.
  - The HS256 JWT library (RFC 7519, signed as in section 3.2 of RFC 7518) is foreign code. It enters as a parameter `Jwt(sign, parse)`. What the model relies on about it is the predicate `Sound`: a round trip under the same key while the token is live, refusal under any other key, and refusal once expired. `Sound` is always taken as a precondition, never assumed.
- **Portal** (`portal.dfy`, module `Portal`). The dashboard is a pure function of the cookies and of the outcome of each outbound call. Each section degrades on its own. The per-course button rule of the template is a small decision function.
- **Cross-service facts** (`integration.dfy`, module `Integration`):
  - a fresh login is authenticated by the grade service under the issued identity;
  - the token expires an hour after login;
  - the portal's button predicts what enroll would answer.
- `http.dfy` (module `Http`) holds the shared pieces: `Option`, the outcome of one outbound call (`Reply`), the rule for when such a call succeeds (`FetchFromNode`), status codes, and Go's `HasPrefix`/`TrimPrefix`.

Every outbound call becomes the reply it produced: `Unreachable` (transport error or timeout), or `Response(status, body)`, where the body is `None` when it did not decode. Wall-clock time is a parameter `now`, in Unix seconds.

Behaviour as the code has it (the model follows the code throughout):
- The course service checks no token at all on `enroll` or `getCourses`.
- `validate` accepts a token with or without the `"Bearer "` prefix.
- The grade service accepts any 200 reply that decodes, without looking at its `status` field.
- An unset `JWT_SECRET` falls back to a fixed key rather than refusing to start. `Auth.FallbackKeyForgeable` states what that allows.
- The auth service's validate answer splices the username and role into its JSON text unescaped. It round-trips only for JSON-safe identities (see "## Left out").
- `enroll` accepts an empty student ID and takes a seat under the key `"C:"`. `getCourses` never flags an entry for an empty ID, so that seat shows in no listing, and a repeat gets "already enrolled" (`Ledger.EmptyStudentSeatHidden`). This is why `Ledger.EnrollThenListed` and `Integration.ButtonPredictsEnroll` require a non-empty student ID.
- The `"CourseID:StudentID"` key is not injective: `"A:B"` with `"s"` and `"A"` with `"B:s"` share a key. `Ledger.KeyCollision` exhibits this. The seat-conservation invariant and key injectivity are proved for colon-free, unique catalogue IDs. The seeded catalogue satisfies both, and the course list never changes. Colon-free catalogue IDs protect those invariants, but not the 404 answer. A request's course and student IDs are arbitrary, and the duplicate check runs before the lookup. So on the seeded catalogue, after ("CCPROG2", "x:y") enrolls, a request for the unknown course "CCPROG2:x" with student "y" gets 409 "already enrolled" instead of 404.

## Model

| member | source | states |
|---|---|---|
| `Http.FetchFromNode` | portal/main.go:153-169 | a call succeeds iff the node is reached, answers 200 and the body decodes, and then yields that body; the grade service's validateTokenAndGetUser (grade-service/main.go:32-50) applies the same rule |
| `Ledger.StatusOf` | course-service/main.go:68-104 | each answer has its own status: 200 only for a successful enroll, 405 only for a wrong method, 400 only for an undecodable body, 404 only for an unknown course, and 409 for both "already enrolled" and "course full" |
| `Ledger.EnrollKey` | course-service/main.go:83 | the enrollment key is the course ID, a colon and the student ID; its properties are `Ledger.KeyBelongsTo`, `Ledger.KeyInjective` and `Ledger.KeyCollision` |
| `Ledger.Find` | course-service/main.go:90-91 | the search stops at the first course with the requested ID; `None` means no course has it |
| `Ledger.EnrollEffect` | course-service/main.go:67-105 | every refused call leaves the ledger unchanged; a successful one changes at most one course, by one less open slot |
| `Ledger.Personalize` | course-service/main.go:54-60 | one listing entry: a copy of the course, flagged enrolled when a student ID is given and its key is present; stated by `Ledger.SnapshotReportsEnrollment` |
| `Ledger.Snapshot` | course-service/main.go:52-62 | the listing has one entry per course |
| `Ledger.EnrolledEffect` | course-service/main.go:90-98 | success means the request was POST with a body, the key was absent, the first matching course had a slot, that course lost exactly one slot, exactly that key was added, and every other course is unchanged |
| `Ledger.DuplicateWins` | course-service/main.go:82-87 | an existing key gives "already enrolled" and no change, before the course is looked up, so it wins over "course full" and "not found" |
| `Ledger.RequestChecksFirst` | course-service/main.go:68-77 | a non-POST request gives 405 and an undecodable body gives 400, whatever the ledger holds, with no change |
| `Ledger.FullOrUnknownRefused` | course-service/main.go:90-104 | an unknown course gives "not found"; when the first course with the requested ID has no open slot the answer is "course full", whatever later courses with that ID hold; neither changes anything |
| `Ledger.EnrollKeepsSlotsNonNegative` | course-service/main.go:92-93 | if no slot count is negative before a call, none is negative after it |
| `Ledger.KeyBelongsTo` | course-service/main.go:83 | for colon-free course IDs, a key has the prefix `c2:` iff it was made for course `c2` |
| `Ledger.KeyInjective` | course-service/main.go:83 | for colon-free course IDs, equal keys mean the same course and the same student |
| `Ledger.KeyCollision` | course-service/main.go:83-100 | two different pairs share a key: with a catalogue ID containing `:`, enrolling the first pair makes the second "already enrolled"; on the seeded catalogue, enrolling ("CCPROG2", "x:y") makes a request for the unknown course "CCPROG2:x" with student "y" answer "already enrolled" rather than "not found" |
| `Ledger.EnrollConservesSeats` | course-service/main.go:93-94 | for unique colon-free IDs, every call keeps each course's open slots plus its enrollment keys constant |
| `Ledger.SnapshotAt` | course-service/main.go:53-61 | listing entry j is course j copied, flagged when a student ID is given and its key is present |
| `Ledger.SnapshotReportsEnrollment` | course-service/main.go:54-60 | for a stored course, the listing copies id, title, credits and slots; `IsEnrolled` is true iff the student ID is non-empty and its key is present |
| `Ledger.EnrollThenListed` | course-service/main.go:57-94 | after a successful enroll of (c, s), with s non-empty, the listing for s marks course c as enrolled |
| `Ledger.RepeatEnrollRefused` | course-service/main.go:83-87 | after a successful enroll, repeating it gives "already enrolled" and changes nothing |
| `Ledger.EmptyStudentSeatHidden` | course-service/main.go:55-94 | an enroll with an empty student ID that succeeds stores the key `"C:"`, the listing for the empty ID flags nothing, and repeating the request gives "already enrolled" with no change |
| `Ledger.LastSeatGoesOnce` | course-service/main.go:79-101 | for the last open seat, two different students one after the other: the first is enrolled, the second gets "course full", and the course ends at 0 |
| `Ledger.LastSeatScenario` | course-service/main.go:90-101 | STDISCM with one seat: student1 is enrolled (slots go to 0), student2 gets "course full", student1 again gets "already enrolled" with no change |
| `Ledger.SeedCourses` | course-service/main.go:32-36 | the seeded catalogue has unique, colon-free course IDs |
| `Ledger.CourseService.constructor` | course-service/main.go:27-37 | the service starts with the seeded courses, no enrollments, and its invariant |
| `Ledger.CourseService.GetCourses` | course-service/main.go:41-65 | the loop builds exactly the listing `Snapshot` of the current state and writes nothing |
| `Ledger.CourseService.Enroll` | course-service/main.go:67-105 | the answer and the new fields are those `EnrollEffect` gives for the old state; the invariant is kept |
| `Auth.JwtKey` | auth-service/main.go:15-21 | the key is the secret when one is configured, the fallback constant otherwise, and never empty |
| `Auth.StoreConsistent` | auth-service/main.go:36-45 | the password table and the role table have the same usernames |
| `Auth.RoleOf` | auth-service/main.go:64 | the role table read as Go reads a map: the stored role, or the empty string for a missing username |
| `Auth.CredentialsMatch` | auth-service/main.go:54-55 | the credentials match when the username is in the password table and its password equals the submitted one |
| `Auth.IssuedClaims` | auth-service/main.go:61-68 | the claims minted at time `now`: the username, its role as `RoleOf` reads it, and exp = now + 3600 |
| `Auth.LoginStatus` | auth-service/main.go:49-78 | each login answer has its own status: 400 for an undecodable body, 401 for a failed credential check, 200 for an issued token |
| `Auth.Login` | auth-service/main.go:47-79 | an undecodable body gives 400 before any lookup; a token is issued iff the username is known and the password matches, otherwise 401; the token signs the submitted username, its role and exp = now + 3600 under `JwtKey`, and the response's role is that role |
| `Auth.LoginResolvesRole` | auth-service/main.go:62-65 | in a consistent store, every successful login returns the user's stored role |
| `Auth.LoginFailuresIndistinguishable` | auth-service/main.go:54-58 | for any store, any unknown username and any known username with a wrong password get the same answer, `LoginUnauthorized`, with status 401 |
| `Auth.Validate` | auth-service/main.go:81-104 | an empty header gives 401; otherwise a `"Bearer "` prefix is removed if present; the answer is valid iff the library accepts the rest, and it echoes the username and role of the claims |
| `Auth.ValidateStatus` | auth-service/main.go:85-102 | validate answers 200 exactly for a valid token and 401 exactly for a refused one |
| `Auth.BearerPrefixOptional` | auth-service/main.go:83-88 | a bare non-empty token is validated the same as the same token after `"Bearer "` |
| `Auth.LoginThenValidate` | auth-service/main.go:60-103 | given a sound library, a token from a successful login validates, for the hour after issue, to the submitted username and the returned role |
| `Auth.IssuedTokenExpires` | auth-service/main.go:61-66 | given a sound library, from issue time plus one hour on, the token is refused |
| `Auth.OtherKeyRefused` | auth-service/main.go:92-94 | given a sound library, a token issued under one key is refused by a validator with a different key |
| `Auth.FallbackKeyForgeable` | auth-service/main.go:15-21 | with no secret configured, any identity signed with the public fallback constant validates |
| `Grades.BearerToken` | grade-service/main.go:54-59 | a token exists iff the header starts with `"Bearer "`, and then prefix plus token is the header |
| `Grades.Identify` | grade-service/main.go:54-66 | no bearer token means no call to the auth node; otherwise the stripped token is what is introspected; authentication succeeds iff that reply passes `FetchFromNode` (fail-closed: unreachable, non-200 and undecodable all mean "not authenticated"), and the user is the decoded body |
| `Grades.MayViewGrades` | grade-service/main.go:75 | faculty may view anyone's grades, anyone else only those whose student ID is their username; stated by `Grades.ViewPolicy` |
| `Grades.MayUpload` | grade-service/main.go:107 | only faculty may upload; stated by `Grades.ViewPolicy` |
| `Grades.ViewPolicy` | grade-service/main.go:75-78 | viewing is denied exactly when the user is neither faculty nor the requested student; upload is allowed only for faculty |
| `Grades.GradesOf` | grade-service/main.go:81-86 | the reference filter `GetGrades` is proved against: the student's records in grade-book order; stated by `Grades.GradesOfExact` and `Grades.GradesOfAppend` |
| `Grades.GradesOfAppend` | grade-service/main.go:81-86 | filtering a concatenation filters each part and keeps order |
| `Grades.GradesOfExact` | grade-service/main.go:81-86 | a record is returned iff it is in the grade book and its student ID is the requested one |
| `Grades.UploadThenView` | grade-service/main.go:123 | after appending g, g appears last in its own student's list; no other student's list changes |
| `Grades.GradeService.constructor` | grade-service/main.go:26-30 | the grade book starts with the three seeded records |
| `Grades.GradeService.GetGrades` | grade-service/main.go:52-90 | 401 without a bearer token (no auth call) or with an introspection failure; 403 when the policy denies; otherwise 200 with exactly the requested student's records in grade-book order; the grade book is only read |
| `Grades.GradeService.UploadGrade` | grade-service/main.go:92-126 | checks run in the order 401, then 403, then 405, then 400, so a student's non-POST request gets 403; only a faculty POST with a decodable body appends exactly that record at the end and answers 201; every other answer leaves the grade book unchanged |
| `Portal.SessionPresent` | portal/main.go:177 | the dashboard proceeds past its first check only when both the session-token and the username cookies are present |
| `Portal.ValidationPassed` | portal/main.go:191 | the session is valid when the auth node is reached and answers 200; the body is not read |
| `Portal.Dashboard` | portal/main.go:172-221 | a missing session or username cookie redirects to /login with no calls; a failed validation redirects to /logout with only the validation call; otherwise the page always renders: username and role come from the cookies, a course failure sets only `CourseError`, grades are fetched iff the role is "student" (faculty get no grades and no grade error), and a grade failure sets only `GradeError` |
| `Portal.DegradationIsolated` | portal/main.go:196-217 | the course section does not depend on the grade reply, and the grade section does not depend on the course reply |
| `Portal.StudentPartialOutage` | portal/main.go:203-217 | courses up and grades down: the student gets the courses and only a grade error; grades up and courses down: the reverse |
| `Portal.CourseButton` | portal/main.go:97-110 | non-students always see "View Only"; a student sees "Enrolled" iff enrolled, otherwise "Enroll" iff slots > 0, otherwise "Full" |
| `Integration.AuthNodeReply` | auth-service/main.go:96-103 | the validate answer on the wire: its status is `ValidateStatus`, a 401 has no body, and a valid JSON-safe identity decodes back to itself; an identity with a quote, backslash or control character decodes to whatever `misread` says |
| `Integration.AuthNodeStatus` | portal/main.go:189-191 | the validate answer as the portal's session check reads it, status only: validation passes exactly when validate accepted the token |
| `Integration.Introspect` | grade-service/main.go:35-38 | the grade service's call sends `"Bearer "` plus the token to a reachable auth node and receives `AuthNodeReply` of validate's answer; its properties are `Integration.IntrospectionAgreesWithValidate` and the lemmas below |
| `Integration.IntrospectionAgreesWithValidate` | grade-service/main.go:32-50 | introspection through a reachable auth node accepts only tokens its validate accepts; for a JSON-safe identity it accepts exactly those, with the echoed identity, and otherwise the identity is the misread one |
| `Integration.SeededIdentitiesJsonSafe` | auth-service/main.go:36-45 | every username of the seeded store and its role are JSON-safe, so the echo round-trips for them |
| `Integration.LoggedInUserAuthenticated` | grade-service/main.go:52-78 | given a sound library and a JSON-safe username and role, within the hour after login, the grade service authenticates the bearer token under the issued username and role, and that user may view their own grades |
| `Integration.StudentForbiddenOthersGrades` | grade-service/main.go:75-78 | a logged-in student with a JSON-safe username is authenticated but may neither view another student's grades nor upload |
| `Integration.ExpiredSessionRejected` | portal/main.go:186-194 | from an hour after login on, the grade service rejects the token with no identity, and the portal dashboard redirects to /logout |
| `Integration.ButtonPredictsEnroll` | portal/main.go:97-110 | on a listing of the same ledger state, a student's button predicts the enroll answer: "Enrolled" means already enrolled, "Enroll" means enrolled now, "Full" means course full |

## Left out

- HTTP servers, routing, the `main` functions, `os.Getenv` URLs and ports: not logic. The `http.Client` timeouts are covered, because a timeout is just `Unreachable`.
- JSON encoding and decoding: a decode is "value or malformed" (`Option`). The auth service's validate answer is built by string concatenation without escaping (auth-service/main.go:103). It round-trips only for usernames and roles with no `"`, no `\` and no control character (`Integration.JsonSafe`). For other identities the answer may fail to decode, or decode to a different string or even a different identity (Go keeps the last of duplicate keys). The model leaves that outcome to the parameter `misread`, so the integration lemmas about logged-in users require JSON-safe identities. All seeded identities are JSON-safe (`Integration.SeededIdentitiesJsonSafe`). The login answer at line 78 is built the same way. The portal decodes it to set the `session_token` and `role` cookies, which are the input of `Portal.Dashboard` (`Portal.Cookies`). That decode round-trips for the seeded roles, which are JSON-safe, and for a compact JWT, whose characters are base64url letters and dots.
- The JWT library: `Jwt(sign, parse)` plus the hypothesis `Sound`. `Sound`'s refusal under any other key idealises HMAC: by RFC 2104 a key longer than 64 bytes signs exactly like its SHA-256 digest, so two different JWT_SECRET values can accept each other's tokens, and `Auth.OtherKeyRefused` holds only for the idealised library. The property that changing any byte of a token makes it fail is the library's, and is not modelled. NumericDate's truncation to whole seconds disappears because time is whole seconds.
- Auth.Login: does not model the 500 answer when signing fails, because `sign` is total (HMAC signing with a byte key does not fail).
- `sync.Mutex` and concurrent requests: each ledger handler is one atomic step. The race for the last seat is two steps in sequence (`Ledger.LastSeatGoesOnce`).
- Integration.LoggedInUserAuthenticated and Integration.StudentForbiddenOthersGrades: proved only for JSON-safe identities. For other identities the auth node's answer does not round-trip, and what the grade service then sees is the unconstrained `misread`.
- Grades.GradeService: the Go grade book is a global slice with no lock at all (grade-service/main.go:123). Concurrent uploads can lose a record, and a `getGrades` running during an append reads a racing slice. The model assumes each handler call is one atomic step and does not capture these races.
- Ledger.CourseService: the Go course list is a slice of pointers mutated through the loop variable. The model holds a sequence of course values and reassigns the changed element. Nothing else holds those pointers, so no aliasing is lost.
- Portal.Dashboard: the course and grade calls record the raw username cookie (`CoursesCall.username`, `GradesCall.username`). The portal splices it unescaped into the `student_id` query string (portal/main.go:203 and :214). For a username containing `&`, `#`, `+`, `;` or `%XX`, the course and grade nodes read a different student ID, and the model does not say which.
- Portal.Dashboard: in Go, a missing role cookie after a successful validation is a nil dereference. The model requires the cookie to be present in that case only.
- Portal.Dashboard: on a failed fetch the model leaves that section's data empty. Go's decoder may leave partly decoded data there, which the template never shows because the error marker is set. Go's nil and empty slices are both the empty sequence.
- HTML templates and styling other than the button rule. Cookies as a storage mechanism.
- The portal's `loginHandler`: it checks the login status and stores the answer's token and role as the cookies the dashboard takes as input (`Portal.Cookies`). `enrollHandler`, `uploadGradeHandler` and `logoutHandler` only forward requests and ignore the answers.
