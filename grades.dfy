/** The grade service: an append-only grade book guarded by bearer tokens that
    are checked, on every request, by asking the auth node (introspection),
    followed by a role-based policy. The call to the auth node is a parameter
    `introspect` from the token to the reply that call produced; responses
    record the token the handler sent to the auth node, if any. */
module Grades {
  import opened Http

  datatype GradeRecord = GradeRecord(studentId: string, courseId: string, grade: string)

  /** The auth node's answer as the grade service decodes it. */
  datatype AuthResponse = AuthResponse(status: string, username: string, role: string)

  const Faculty: string := "faculty"

  /** A handler's answer: status, the grades returned (empty unless 200) and the
      token sent to the auth node (`None` when it was not called). */
  datatype GradeResponse = GradeResponse(status: int, grades: seq<GradeRecord>, authCall: Option<string>)

  const SeedGrades: seq<GradeRecord> := [
    GradeRecord("student1", "CCPROG1", "4.0"),
    GradeRecord("student1", "MTH101A", "3.5"),
    GradeRecord("student2", "CCPROG1", "2.0")
  ]

  /** The token of an Authorization header: present only when the header starts
      with "Bearer ", and then it is the rest of the header. */
  function BearerToken(header: string): (t: Option<string>)
    ensures t.Some? <==> HasPrefix(header, Bearer)
    ensures t.Some? ==> Bearer + t.value == header
  {
    if header == "" || !HasPrefix(header, Bearer) then None else Some(TrimPrefix(header, Bearer))
  }

  /** The first two steps of both handlers: take the bearer token, then ask the
      auth node. Introspection (validateTokenAndGetUser) is fail-closed: it
      follows FetchFromNode, so an unreachable node, a non-200 answer and an
      undecodable body all mean "not authenticated". The body's `status`
      field is not looked at. */
  datatype Identity = NoBearer | Rejected(token: string) | Authenticated(token: string, user: AuthResponse)

  function Identify(header: string, introspect: string -> Reply<AuthResponse>): (id: Identity)
    ensures id.NoBearer? <==> BearerToken(header).None?
    ensures !id.NoBearer? ==> Some(id.token) == BearerToken(header)
    ensures id.Authenticated? <==> BearerToken(header).Some? && FetchFromNode(introspect(BearerToken(header).value)).Some?
    ensures id.Authenticated? ==> Some(id.user) == FetchFromNode(introspect(id.token))
  {
    match BearerToken(header)
    case None => NoBearer
    case Some(t) =>
      match FetchFromNode(introspect(t))
      case None => Rejected(t)
      case Some(u) => Authenticated(t, u)
  }

  /** The token sent to the auth node for this identification, if any. */
  function AuthCall(id: Identity): Option<string> {
    if id.NoBearer? then None else Some(id.token)
  }

  /** Viewing grades: faculty see anyone's, anyone else only their own. */
  predicate MayViewGrades(user: AuthResponse, studentId: string) {
    user.role == Faculty || user.username == studentId
  }

  /** Uploading grades: faculty only. */
  predicate MayUpload(user: AuthResponse) {
    user.role == Faculty
  }

  lemma ViewPolicy(user: AuthResponse, studentId: string)
    ensures user.role != Faculty && user.username != studentId ==> !MayViewGrades(user, studentId)
    ensures user.username == studentId ==> MayViewGrades(user, studentId)
    ensures user.role == Faculty ==> MayViewGrades(user, studentId) && MayUpload(user)
    ensures user.role != Faculty ==> !MayUpload(user)
  {
  }

  /** The records of `studentId`, in grade-book order. */
  function GradesOf(book: seq<GradeRecord>, studentId: string): seq<GradeRecord> {
    if book == [] then []
    else GradesOf(book[..|book| - 1], studentId) + (if book[|book| - 1].studentId == studentId then [book[|book| - 1]] else [])
  }

  /** Filtering distributes over concatenation: order is kept. */
  lemma {:induction false} GradesOfAppend(a: seq<GradeRecord>, b: seq<GradeRecord>, studentId: string)
    ensures GradesOf(a + b, studentId) == GradesOf(a, studentId) + GradesOf(b, studentId)
  {
    if b == [] {
      assert a + b == a;
    } else {
      var b' := b[..|b| - 1];
      assert (a + b)[..|a + b| - 1] == a + b';
      assert (a + b)[|a + b| - 1] == b[|b| - 1];
      GradesOfAppend(a, b', studentId);
    }
  }

  /** A record is returned iff it is in the grade book and belongs to the student. */
  lemma {:induction false} GradesOfExact(book: seq<GradeRecord>, studentId: string)
    ensures forall g :: g in GradesOf(book, studentId) <==> g in book && g.studentId == studentId
  {
    if book != [] {
      var prefix := book[..|book| - 1];
      GradesOfExact(prefix, studentId);
      assert book == prefix + [book[|book| - 1]];
    }
  }

  /** An upload is visible at the end of its student's list and invisible to
      everyone else. */
  lemma UploadThenView(book: seq<GradeRecord>, g: GradeRecord, studentId: string)
    ensures GradesOf(book + [g], studentId)
         == GradesOf(book, studentId) + (if g.studentId == studentId then [g] else [])
  {
    GradesOfAppend(book, [g], studentId);
  }

  class GradeService {
    var gradeBook: seq<GradeRecord>

    constructor ()
      ensures gradeBook == SeedGrades
    {
      gradeBook := SeedGrades;
    }

    /** getGrades: bearer token, introspection, policy, then the filtered list. */
    method GetGrades(header: string, introspect: string -> Reply<AuthResponse>, studentId: string) returns (resp: GradeResponse)
      ensures var id := Identify(header, introspect);
              resp.authCall == AuthCall(id) &&
              (!id.Authenticated? ==> resp.status == StatusUnauthorized) &&
              (id.Authenticated? && !MayViewGrades(id.user, studentId) ==> resp.status == StatusForbidden) &&
              (id.Authenticated? && MayViewGrades(id.user, studentId) ==> resp.status == StatusOK && resp.grades == GradesOf(gradeBook, studentId))
      ensures resp.status != StatusOK ==> resp.grades == []
    {
      var id := Identify(header, introspect);
      if id.NoBearer? {
        return GradeResponse(StatusUnauthorized, [], None);
      }
      if id.Rejected? {
        return GradeResponse(StatusUnauthorized, [], Some(id.token));
      }
      if id.user.role != Faculty && id.user.username != studentId {
        return GradeResponse(StatusForbidden, [], Some(id.token));
      }
      var results := [];
      var i := 0;
      while i < |gradeBook|
        invariant 0 <= i <= |gradeBook|
        invariant results == GradesOf(gradeBook[..i], studentId)
      {
        if gradeBook[i].studentId == studentId {
          results := results + [gradeBook[i]];
        }
        assert gradeBook[..i + 1][..i] == gradeBook[..i];
        i := i + 1;
      }
      assert gradeBook[..i] == gradeBook;
      return GradeResponse(StatusOK, results, Some(id.token));
    }

    /** uploadGrade: bearer token, introspection, the faculty check, then the
        method check, then the body; only a fully accepted request appends.
        `body` is `None` when the request body did not decode. */
    method UploadGrade(header: string, introspect: string -> Reply<AuthResponse>, httpMethod: string, body: Option<GradeRecord>)
      returns (resp: GradeResponse)
      modifies this
      ensures var id := Identify(header, introspect);
              resp.authCall == AuthCall(id) && resp.grades == [] &&
              (!id.Authenticated? ==> resp.status == StatusUnauthorized) &&
              (id.Authenticated? && !MayUpload(id.user) ==> resp.status == StatusForbidden) &&
              (id.Authenticated? && MayUpload(id.user) && httpMethod != MethodPost ==> resp.status == StatusMethodNotAllowed) &&
              (id.Authenticated? && MayUpload(id.user) && httpMethod == MethodPost && body.None? ==> resp.status == StatusBadRequest) &&
              (id.Authenticated? && MayUpload(id.user) && httpMethod == MethodPost && body.Some? ==> resp.status == StatusCreated)
      ensures resp.status == StatusCreated ==> gradeBook == old(gradeBook) + [body.value]
      ensures resp.status != StatusCreated ==> gradeBook == old(gradeBook)
    {
      var id := Identify(header, introspect);
      if id.NoBearer? {
        return GradeResponse(StatusUnauthorized, [], None);
      }
      if id.Rejected? {
        return GradeResponse(StatusUnauthorized, [], Some(id.token));
      }
      if id.user.role != Faculty {
        return GradeResponse(StatusForbidden, [], Some(id.token));
      }
      if httpMethod != MethodPost {
        return GradeResponse(StatusMethodNotAllowed, [], Some(id.token));
      }
      if body.None? {
        return GradeResponse(StatusBadRequest, [], Some(id.token));
      }
      gradeBook := gradeBook + [body.value];
      return GradeResponse(StatusCreated, [], Some(id.token));
    }
  }
}
