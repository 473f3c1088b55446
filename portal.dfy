/** The portal's dashboard: it validates the session with the auth node, then
    fetches the course listing (always) and the student's grades (students
    only), and degrades each section on its own when its fetch fails. Every
    outbound call enters as the reply it produced; the page records which
    calls were made. */
module Portal {
  import opened Http
  import Ledger

  /** The grade rows the portal decodes (student ID is not kept). */
  datatype GradeRow = GradeRow(courseId: string, grade: string)

  /** The three cookies the dashboard reads; `None` when absent. */
  datatype Cookies = Cookies(sessionToken: Option<string>, username: Option<string>, role: Option<string>)

  datatype DashboardData = DashboardData(
    username: string,
    role: string,
    courses: seq<Ledger.Course>,
    grades: seq<GradeRow>,
    gradeError: string,
    courseError: string)

  /** The outbound calls of one dashboard request: token validation, the course
      listing and the grade list, each with the bearer token sent. The latter
      two carry the raw username cookie, which the portal splices unescaped
      into the `student_id` query parameter; what the callee reads from it is
      not modelled. */
  datatype Call =
    | ValidateCall(token: string)
    | CoursesCall(username: string, token: string)
    | GradesCall(username: string, token: string)

  datatype Page = RedirectLogin | RedirectLogout | Render(data: DashboardData)

  datatype DashboardResult = DashboardResult(page: Page, calls: seq<Call>)

  const Student: string := "student"
  const ServiceUnreachable: string := "Service Unreachable"

  /** Session validation passes when the auth node is reached and answers 200;
      the body is not read. */
  predicate ValidationPassed(validation: Reply<()>) {
    validation.Response? && validation.status == StatusOK
  }

  predicate SessionPresent(ck: Cookies) {
    ck.sessionToken.Some? && ck.username.Some?
  }

  /** dashboardHandler. The role cookie is read without a nil check once the
      session is validated, so there it must be present. */
  function Dashboard(ck: Cookies, validation: Reply<()>, courseReply: Reply<seq<Ledger.Course>>, gradeReply: Reply<seq<GradeRow>>): (r: DashboardResult)
    requires SessionPresent(ck) && ValidationPassed(validation) ==> ck.role.Some?
    ensures !SessionPresent(ck) ==> r == DashboardResult(RedirectLogin, [])
    ensures SessionPresent(ck) && !ValidationPassed(validation) ==>
              r == DashboardResult(RedirectLogout, [ValidateCall(ck.sessionToken.value)])
    ensures SessionPresent(ck) && ValidationPassed(validation) ==>
              var user, token := ck.username.value, ck.sessionToken.value;
              var courses, grades := FetchFromNode(courseReply), FetchFromNode(gradeReply);
              r.page.Render? &&
              r.page.data.username == user && r.page.data.role == ck.role.value &&
              r.page.data.courses == courses.GetOr([]) &&
              (r.page.data.courseError == "" <==> courses.Some?) &&
              (courses.None? ==> r.page.data.courseError == ServiceUnreachable) &&
              (ck.role.value == Student ==>
                 r.page.data.grades == grades.GetOr([]) &&
                 (r.page.data.gradeError == "" <==> grades.Some?) &&
                 (grades.None? ==> r.page.data.gradeError == ServiceUnreachable)) &&
              (ck.role.value != Student ==> r.page.data.grades == [] && r.page.data.gradeError == "") &&
              r.calls == [ValidateCall(token), CoursesCall(user, token)] + (if ck.role.value == Student then [GradesCall(user, token)] else [])
  {
    if ck.sessionToken.None? || ck.username.None? then DashboardResult(RedirectLogin, [])
    else
      var token, user := ck.sessionToken.value, ck.username.value;
      if !ValidationPassed(validation) then DashboardResult(RedirectLogout, [ValidateCall(token)])
      else
        var data := DashboardData(user, ck.role.value, [], [], "", "");
        var data := match FetchFromNode(courseReply)
          case Some(cs) => data.(courses := cs)
          case None => data.(courseError := ServiceUnreachable);
        if data.role == Student then
          var data := match FetchFromNode(gradeReply)
            case Some(gs) => data.(grades := gs)
            case None => data.(gradeError := ServiceUnreachable);
          DashboardResult(Render(data), [ValidateCall(token), CoursesCall(user, token), GradesCall(user, token)])
        else
          DashboardResult(Render(data), [ValidateCall(token), CoursesCall(user, token)])
  }

  /** Each section depends only on its own fetch: swapping the grade reply
      leaves the course section alone and vice versa. */
  lemma DegradationIsolated(ck: Cookies, validation: Reply<()>,
                            c1: Reply<seq<Ledger.Course>>, c2: Reply<seq<Ledger.Course>>,
                            g1: Reply<seq<GradeRow>>, g2: Reply<seq<GradeRow>>)
    requires SessionPresent(ck) && ValidationPassed(validation) && ck.role.Some?
    ensures var a, b := Dashboard(ck, validation, c1, g1).page.data, Dashboard(ck, validation, c1, g2).page.data;
            a.courses == b.courses && a.courseError == b.courseError
    ensures var a, b := Dashboard(ck, validation, c1, g1).page.data, Dashboard(ck, validation, c2, g1).page.data;
            a.grades == b.grades && a.gradeError == b.gradeError
  {
  }

  /** A student whose course fetch succeeds but whose grade fetch fails still
      gets the courses, with only the grade section marked unavailable; and the
      other way round. */
  lemma StudentPartialOutage(ck: Cookies, validation: Reply<()>, cs: seq<Ledger.Course>, gs: seq<GradeRow>)
    requires SessionPresent(ck) && ValidationPassed(validation) && ck.role == Some(Student)
    ensures var d := Dashboard(ck, validation, Response(StatusOK, Some(cs)), Unreachable).page.data;
            d.courses == cs && d.courseError == "" && d.gradeError == ServiceUnreachable
    ensures var d := Dashboard(ck, validation, Unreachable, Response(StatusOK, Some(gs))).page.data;
            d.grades == gs && d.gradeError == "" && d.courseError == ServiceUnreachable
  {
  }

  /** What the template shows beside one course. */
  datatype Button = EnrolledBadge | EnrollForm | FullBadge | ViewOnly

  function CourseButton(role: string, c: Ledger.Course): (b: Button)
    ensures b == ViewOnly <==> role != Student
    ensures role == Student ==> (b == EnrolledBadge <==> c.isEnrolled)
    ensures role == Student && !c.isEnrolled ==> (b == EnrollForm <==> c.openSlots > 0)
  {
    if role == Student then
      if c.isEnrolled then EnrolledBadge
      else if c.openSlots > 0 then EnrollForm
      else FullBadge
    else ViewOnly
  }
}
