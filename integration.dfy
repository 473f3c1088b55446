/** How the services fit together: the auth node's validate answer as the grade
    service and the portal receive it over the wire, and what that means for a
    logged-in user; and the portal's per-course button against the enroll call
    it leads to. */
module Integration {
  import opened Http
  import Auth
  import Grades
  import Ledger
  import Portal

  /** A string the auth node's hand-built JSON answer carries unchanged: no
      quote, no backslash and no control character. Any of those either breaks
      the answer's JSON or makes it decode to a different string. */
  predicate JsonSafe(s: string) {
    forall i :: 0 <= i < |s| ==> s[i] != '"' && s[i] != '\\' && s[i] >= ' '
  }

  /** The auth node's validate answer as seen by a caller that reaches it: 200
      with the echoed identity, or 401 with no body. The identity is spliced
      into the JSON text unescaped, so it decodes back to itself only when it
      is JSON-safe; otherwise the decoded body is `misread(username, role)`,
      whatever Go's decoder makes of that text (a failure, or another
      identity). */
  function AuthNodeReply(v: Auth.ValidateResponse, misread: (string, string) -> Option<Grades.AuthResponse>): (r: Reply<Grades.AuthResponse>)
    ensures r.Response? && r.status == Auth.ValidateStatus(v)
    ensures v.ValidateUnauthorized? ==> r.body.None?
    ensures v.Valid? && JsonSafe(v.username) && JsonSafe(v.role) ==> r.body == Some(Grades.AuthResponse("valid", v.username, v.role))
  {
    match v
    case ValidateUnauthorized => Response(StatusUnauthorized, None)
    case Valid(u, r) =>
      Response(StatusOK, if JsonSafe(u) && JsonSafe(r) then Some(Grades.AuthResponse("valid", u, r)) else misread(u, r))
  }

  /** The same answer as the portal's session check sees it (status only). */
  function AuthNodeStatus(v: Auth.ValidateResponse): (r: Reply<()>)
    ensures Portal.ValidationPassed(r) <==> v.Valid?
  {
    Response(Auth.ValidateStatus(v), None)
  }

  /** The grade service's introspection against a reachable auth node. */
  function Introspect(lib: Auth.Jwt, secret: string, now: int, misread: (string, string) -> Option<Grades.AuthResponse>)
    : string -> Reply<Grades.AuthResponse>
  {
    t => AuthNodeReply(Auth.Validate(lib, secret, Bearer + t, now), misread)
  }

  /** Introspection through a reachable auth node accepts only tokens the auth
      node validates; for a JSON-safe identity it accepts exactly those, with
      the identity echoed. */
  lemma IntrospectionAgreesWithValidate(lib: Auth.Jwt, secret: string, token: string, now: int,
                                        misread: (string, string) -> Option<Grades.AuthResponse>)
    ensures var v := Auth.Validate(lib, secret, Bearer + token, now);
            var user := FetchFromNode(Introspect(lib, secret, now, misread)(token));
            (user.Some? ==> v.Valid?) &&
            (v.Valid? && JsonSafe(v.username) && JsonSafe(v.role) ==>
               user == Some(Grades.AuthResponse("valid", v.username, v.role))) &&
            (v.Valid? && !(JsonSafe(v.username) && JsonSafe(v.role)) ==> user == misread(v.username, v.role))
  {
  }

  /** Every identity of the seeded credential store is JSON-safe. */
  lemma SeededIdentitiesJsonSafe(u: string)
    requires u in Auth.Store.users
    ensures JsonSafe(u) && JsonSafe(Auth.RoleOf(Auth.Store, u))
  {
  }

  /** A user with a JSON-safe username and role who logged in less than an hour
      ago, and presents the token as a bearer header, is authenticated by the
      grade service under the username and role issued, and may view their own
      grades. */
  lemma LoggedInUserAuthenticated(store: Auth.CredentialStore, lib: Auth.Jwt, secret: string,
                                  creds: Auth.Credentials, issuedAt: int, now: int,
                                  misread: (string, string) -> Option<Grades.AuthResponse>)
    requires Auth.Sound(lib)
    requires JsonSafe(creds.username) && JsonSafe(Auth.RoleOf(store, creds.username))
    requires Auth.Login(store, lib, secret, Some(creds), issuedAt).Issued?
    requires now < issuedAt + Auth.TokenLifetime
    ensures var r := Auth.Login(store, lib, secret, Some(creds), issuedAt);
            var id := Grades.Identify(Bearer + r.token, Introspect(lib, secret, now, misread));
            id == Grades.Authenticated(r.token, Grades.AuthResponse("valid", creds.username, r.role)) &&
            Grades.MayViewGrades(id.user, creds.username)
  {
  }

  /** A student (role "student" in the store) who is logged in is still
      forbidden from another student's grades. */
  lemma StudentForbiddenOthersGrades(store: Auth.CredentialStore, lib: Auth.Jwt, secret: string,
                                     creds: Auth.Credentials, issuedAt: int, now: int, other: string,
                                     misread: (string, string) -> Option<Grades.AuthResponse>)
    requires Auth.Sound(lib)
    requires JsonSafe(creds.username)
    requires Auth.Login(store, lib, secret, Some(creds), issuedAt).Issued?
    requires now < issuedAt + Auth.TokenLifetime
    requires Auth.RoleOf(store, creds.username) == "student" && other != creds.username
    ensures var r := Auth.Login(store, lib, secret, Some(creds), issuedAt);
            var id := Grades.Identify(Bearer + r.token, Introspect(lib, secret, now, misread));
            id.Authenticated? && !Grades.MayViewGrades(id.user, other) && !Grades.MayUpload(id.user)
  {
    LoggedInUserAuthenticated(store, lib, secret, creds, issuedAt, now, misread);
  }

  /** An hour after login the same token is rejected by the grade service (401)
      and sends the portal user to /logout. */
  lemma ExpiredSessionRejected(store: Auth.CredentialStore, lib: Auth.Jwt, secret: string,
                               creds: Auth.Credentials, issuedAt: int, now: int,
                               misread: (string, string) -> Option<Grades.AuthResponse>,
                               ck: Portal.Cookies, courseReply: Reply<seq<Ledger.Course>>, gradeReply: Reply<seq<Portal.GradeRow>>)
    requires Auth.Sound(lib)
    requires Auth.Login(store, lib, secret, Some(creds), issuedAt).Issued?
    requires now >= issuedAt + Auth.TokenLifetime
    requires ck.sessionToken == Some(Auth.Login(store, lib, secret, Some(creds), issuedAt).token) && ck.username.Some?
    ensures var r := Auth.Login(store, lib, secret, Some(creds), issuedAt);
            Grades.Identify(Bearer + r.token, Introspect(lib, secret, now, misread)) == Grades.Rejected(r.token)
    ensures var r := Auth.Login(store, lib, secret, Some(creds), issuedAt);
            var v := Auth.Validate(lib, secret, Bearer + r.token, now);
            Portal.Dashboard(ck, AuthNodeStatus(v), courseReply, gradeReply).page == Portal.RedirectLogout
  {
  }

  /** On a listing taken from the ledger, the button a student sees tells what
      enrolling in that course would do against the same ledger state:
      "Enrolled" means already enrolled, "Enroll" means the seat is granted,
      "Full" means the course is full. */
  lemma ButtonPredictsEnroll(l: Ledger.Ledger, studentId: string, j: nat)
    requires Ledger.WellFormedIds(l.courses)
    requires j < |l.courses| && !l.courses[j].isEnrolled
    requires studentId != ""
    ensures var b := Portal.CourseButton(Portal.Student, Ledger.Snapshot(l.courses, l.enrollments, studentId)[j]);
            var outcome := Ledger.EnrollEffect(l, MethodPost, Some(Ledger.EnrollRequest(l.courses[j].id, studentId))).0;
            (b == Portal.EnrolledBadge <==> outcome == Ledger.AlreadyEnrolled) &&
            (b == Portal.EnrollForm <==> outcome == Ledger.Enrolled) &&
            (b == Portal.FullBadge <==> outcome == Ledger.CourseFull)
  {
    Ledger.SnapshotReportsEnrollment(l.courses, l.enrollments, studentId, j);
    assert Ledger.Find(l.courses, l.courses[j].id) == Some(j);
  }
}
