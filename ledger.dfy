/** The course service: an in-memory catalogue of courses with open-seat
    counters and a set of enrollment facts keyed "CourseID:StudentID".
    Every handler runs under one mutex, so each call is one atomic step on
    the ledger; the pure functions below say what one step does and the
    class CourseService runs those steps on its own fields. */
module Ledger {
  import opened Http

  datatype Course = Course(id: string, title: string, credits: int, openSlots: int, isEnrolled: bool)

  datatype EnrollRequest = EnrollRequest(courseId: string, studentId: string)

  /** The ledger's shared state: the course list and the enrollment keys. */
  datatype Ledger = Ledger(courses: seq<Course>, enrollments: set<string>)

  datatype EnrollResult =
    | Enrolled
    | MethodNotAllowed
    | BadRequest
    | AlreadyEnrolled
    | CourseFull
    | CourseNotFound

  /** The status code the enroll handler writes for each answer. */
  function StatusOf(r: EnrollResult): (code: int)
    ensures code == StatusOK <==> r == Enrolled
    ensures code == StatusMethodNotAllowed <==> r == MethodNotAllowed
    ensures code == StatusBadRequest <==> r == BadRequest
    ensures code == StatusConflict <==> r == AlreadyEnrolled || r == CourseFull
    ensures code == StatusNotFound <==> r == CourseNotFound
  {
    match r
    case Enrolled => StatusOK
    case MethodNotAllowed => StatusMethodNotAllowed
    case BadRequest => StatusBadRequest
    case AlreadyEnrolled => StatusConflict
    case CourseFull => StatusConflict
    case CourseNotFound => StatusNotFound
  }

  /** The key of the enrollment fact for a (course, student) pair. */
  function EnrollKey(courseId: string, studentId: string): string {
    courseId + ":" + studentId
  }

  predicate ColonFree(s: string) {
    ':' !in s
  }

  /** Course IDs are unique and contain no ':' (true of the seeded catalogue). */
  predicate WellFormedIds(courses: seq<Course>) {
    (forall i, j :: 0 <= i < j < |courses| ==> courses[i].id != courses[j].id) &&
    (forall i :: 0 <= i < |courses| ==> ColonFree(courses[i].id))
  }

  /** Index of the first course with the given ID: the course the search loop of
      enroll stops at. */
  function Find(courses: seq<Course>, id: string): (r: Option<nat>)
    ensures r.Some? ==> r.value < |courses| && courses[r.value].id == id
    ensures r.Some? ==> forall j :: 0 <= j < r.value ==> courses[j].id != id
    ensures r.None? ==> forall j :: 0 <= j < |courses| ==> courses[j].id != id
  {
    if courses == [] then None
    else if courses[0].id == id then Some(0)
    else match Find(courses[1..], id)
      case None => None
      case Some(k) => Some(k + 1)
  }

  /** One call of the enroll handler: the method check and body decoding come
      first, then (under the lock) the duplicate check, the course lookup, the
      capacity test and finally the decrement together with the insertion.
      `body` is `None` when the request body did not decode. */
  function EnrollEffect(l: Ledger, httpMethod: string, body: Option<EnrollRequest>): (r: (EnrollResult, Ledger))
    ensures r.0 != Enrolled ==> r.1 == l
    ensures r.1.courses == l.courses || (exists i :: 0 <= i < |l.courses| && r.1.courses == l.courses[i := l.courses[i].(openSlots := l.courses[i].openSlots - 1)])
  {
    if httpMethod != MethodPost then (MethodNotAllowed, l)
    else if body.None? then (BadRequest, l)
    else
      var key := EnrollKey(body.value.courseId, body.value.studentId);
      if key in l.enrollments then (AlreadyEnrolled, l)
      else match Find(l.courses, body.value.courseId)
        case None => (CourseNotFound, l)
        case Some(i) =>
          if l.courses[i].openSlots > 0 then
            (Enrolled, Ledger(l.courses[i := l.courses[i].(openSlots := l.courses[i].openSlots - 1)], l.enrollments + {key}))
          else (CourseFull, l)
  }

  /** The listing entry of one course for one student: a copy of the course,
      marked enrolled when a student ID was given and its key is present. */
  function Personalize(c: Course, enrollments: set<string>, studentId: string): Course {
    if studentId != "" && EnrollKey(c.id, studentId) in enrollments then c.(isEnrolled := true) else c
  }

  /** The getCourses response: one personalized entry per course, in list order. */
  function Snapshot(courses: seq<Course>, enrollments: set<string>, studentId: string): (r: seq<Course>)
    ensures |r| == |courses|
  {
    if courses == [] then []
    else Snapshot(courses[..|courses| - 1], enrollments, studentId) + [Personalize(courses[|courses| - 1], enrollments, studentId)]
  }

  /** Number of enrollment keys that belong to the course with the given ID. */
  function Seats(enrollments: set<string>, courseId: string): nat {
    |set k | k in enrollments && HasPrefix(k, courseId + ":")|
  }

  ghost predicate SlotsNonNegative(l: Ledger) {
    forall i :: 0 <= i < |l.courses| ==> l.courses[i].openSlots >= 0
  }

  /** Per course, open slots plus enrollment keys is the same in both states. */
  ghost predicate SeatsConserved(before: Ledger, after: Ledger) {
    |after.courses| == |before.courses| &&
    forall i :: 0 <= i < |before.courses| ==>
      after.courses[i].id == before.courses[i].id &&
      after.courses[i].openSlots + Seats(after.enrollments, after.courses[i].id)
        == before.courses[i].openSlots + Seats(before.enrollments, before.courses[i].id)
  }

  // ---------------------------------------------------------------------------
  // Properties of one enroll step
  // ---------------------------------------------------------------------------

  /** A successful enroll decrements exactly the first course with the requested
      ID, adds exactly its key (which was absent) and touches nothing else. */
  lemma EnrolledEffect(l: Ledger, httpMethod: string, body: Option<EnrollRequest>)
    requires EnrollEffect(l, httpMethod, body).0 == Enrolled
    ensures httpMethod == MethodPost && body.Some?
    ensures var key := EnrollKey(body.value.courseId, body.value.studentId);
            var after := EnrollEffect(l, httpMethod, body).1;
            var i := Find(l.courses, body.value.courseId);
            key !in l.enrollments && i.Some? &&
            l.courses[i.value].openSlots > 0 &&
            after.enrollments == l.enrollments + {key} &&
            |after.courses| == |l.courses| &&
            after.courses[i.value].openSlots == l.courses[i.value].openSlots - 1 &&
            after.courses[i.value] == l.courses[i.value].(openSlots := l.courses[i.value].openSlots - 1) &&
            (forall j :: 0 <= j < |l.courses| && j != i.value ==> after.courses[j] == l.courses[j])
  {
  }

  /** The duplicate check runs before the lookup: an existing key yields
      "already enrolled" even for a full or unknown course. */
  lemma DuplicateWins(l: Ledger, req: EnrollRequest)
    requires EnrollKey(req.courseId, req.studentId) in l.enrollments
    ensures EnrollEffect(l, MethodPost, Some(req)) == (AlreadyEnrolled, l)
  {
  }

  /** A non-POST request or an undecodable body is refused before any state is
      read, whatever the ledger holds. */
  lemma RequestChecksFirst(l: Ledger, httpMethod: string, body: Option<EnrollRequest>)
    ensures httpMethod != MethodPost ==> EnrollEffect(l, httpMethod, body) == (MethodNotAllowed, l)
    ensures httpMethod == MethodPost && body.None? ==> EnrollEffect(l, httpMethod, body) == (BadRequest, l)
  {
  }

  /** An unknown course and a full course are both refused without change;
      "full" is decided by the first course with the requested ID alone. */
  lemma FullOrUnknownRefused(l: Ledger, req: EnrollRequest)
    requires EnrollKey(req.courseId, req.studentId) !in l.enrollments
    ensures Find(l.courses, req.courseId).None? ==> EnrollEffect(l, MethodPost, Some(req)) == (CourseNotFound, l)
    ensures var i := Find(l.courses, req.courseId);
            i.Some? && l.courses[i.value].openSlots <= 0 ==> EnrollEffect(l, MethodPost, Some(req)) == (CourseFull, l)
  {
  }

  /** No call makes a slot count negative. */
  lemma EnrollKeepsSlotsNonNegative(l: Ledger, httpMethod: string, body: Option<EnrollRequest>)
    requires SlotsNonNegative(l)
    ensures SlotsNonNegative(EnrollEffect(l, httpMethod, body).1)
  {
  }

  /** With colon-free course IDs, a key belongs to course `c2` exactly when it
      was made for `c2`. */
  lemma KeyBelongsTo(c: string, s: string, c2: string)
    requires ColonFree(c) && ColonFree(c2)
    ensures HasPrefix(EnrollKey(c, s), c2 + ":") <==> c == c2
  {
    var k := EnrollKey(c, s);
    var p := c2 + ":";
    assert k[..|c|] == c && k[|c|] == ':';
    if c == c2 {
      assert k[..|p|] == p;
    } else if |p| <= |k| {
      // find a position where k and p differ
      var d: nat;
      if |c2| < |c| {
        d := |c2|;
        assert k[d] == c[d] && c[d] != ':';
      } else if |c2| > |c| {
        d := |c|;
        assert p[d] == c2[d] && c2[d] != ':';
      } else {
        assert exists e :: 0 <= e < |c| && c[e] != c2[e];
        d :| 0 <= d < |c| && c[d] != c2[d];
        assert k[d] == c[d] && p[d] == c2[d];
      }
      assert k[..|p|][d] != p[d];
    }
  }

  /** With colon-free course IDs, distinct (course, student) pairs get distinct keys. */
  lemma KeyInjective(c1: string, s1: string, c2: string, s2: string)
    requires ColonFree(c1) && ColonFree(c2)
    requires EnrollKey(c1, s1) == EnrollKey(c2, s2)
    ensures c1 == c2 && s1 == s2
  {
    KeyBelongsTo(c1, s1, c2);
    TrimPrefixOfPrefixed(c1 + ":", s1);
    TrimPrefixOfPrefixed(c2 + ":", s2);
  }

  /** The key is ambiguous: two different pairs share one key. With a course ID
      containing ':' in the catalogue, enrolling one pair blocks the other.
      Colon-free catalogue IDs do not close the gap, because the requested ID
      and the student ID are arbitrary and the duplicate check runs before the
      lookup: on the seeded catalogue, a request for the unknown course
      "CCPROG2:x" gets "already enrolled" instead of "not found". */
  lemma KeyCollision()
    ensures EnrollKey("A:B", "s") == EnrollKey("A", "B:s")
    ensures var l := Ledger([Course("A", "", 3, 5, false), Course("A:B", "", 3, 5, false)], {});
            var first := EnrollEffect(l, MethodPost, Some(EnrollRequest("A", "B:s")));
            first.0 == Enrolled &&
            EnrollEffect(first.1, MethodPost, Some(EnrollRequest("A:B", "s"))) == (AlreadyEnrolled, first.1)
    ensures var l := Ledger(SeedCourses(), {});
            var first := EnrollEffect(l, MethodPost, Some(EnrollRequest("CCPROG2", "x:y")));
            first.0 == Enrolled &&
            Find(first.1.courses, "CCPROG2:x").None? &&
            EnrollEffect(first.1, MethodPost, Some(EnrollRequest("CCPROG2:x", "y"))) == (AlreadyEnrolled, first.1)
  {
    var cs := SeedCourses();
    assert Find(cs, "CCPROG2") == Some(0);
    var l := Ledger([Course("A", "", 3, 5, false), Course("A:B", "", 3, 5, false)], {});
    assert Find(l.courses, "A") == Some(0);
    var after := EnrollEffect(Ledger(cs, {}), MethodPost, Some(EnrollRequest("CCPROG2", "x:y"))).1;
    assert EnrollKey("CCPROG2:x", "y") == EnrollKey("CCPROG2", "x:y");
    assert EnrollKey("CCPROG2", "x:y") in after.enrollments;
    assert |after.courses| == |cs|;
    forall j | 0 <= j < |after.courses|
      ensures after.courses[j].id != "CCPROG2:x"
    {
      assert after.courses[j].id == cs[j].id;
      assert |cs[j].id| == 7;
    }
  }

  lemma SeatsAfterInsert(enrollments: set<string>, key: string, courseId: string)
    requires key !in enrollments
    ensures Seats(enrollments + {key}, courseId)
         == Seats(enrollments, courseId) + (if HasPrefix(key, courseId + ":") then 1 else 0)
  {
    var before := set k | k in enrollments && HasPrefix(k, courseId + ":");
    var after := set k | k in enrollments + {key} && HasPrefix(k, courseId + ":");
    if HasPrefix(key, courseId + ":") {
      assert after == before + {key};
    } else {
      assert after == before;
    }
  }

  /** Enroll moves a seat from the slot counter to the enrollment set: per course,
      slots plus enrollment keys never changes. */
  lemma EnrollConservesSeats(l: Ledger, httpMethod: string, body: Option<EnrollRequest>)
    requires WellFormedIds(l.courses)
    ensures SeatsConserved(l, EnrollEffect(l, httpMethod, body).1)
  {
    var r := EnrollEffect(l, httpMethod, body);
    if r.0 == Enrolled {
      EnrolledEffect(l, httpMethod, body);
      var req := body.value;
      var key := EnrollKey(req.courseId, req.studentId);
      var i := Find(l.courses, req.courseId).value;
      forall j | 0 <= j < |l.courses|
        ensures r.1.courses[j].id == l.courses[j].id
        ensures r.1.courses[j].openSlots + Seats(r.1.enrollments, r.1.courses[j].id)
             == l.courses[j].openSlots + Seats(l.enrollments, l.courses[j].id)
      {
        SeatsAfterInsert(l.enrollments, key, l.courses[j].id);
        KeyBelongsTo(req.courseId, req.studentId, l.courses[j].id);
        assert j != i ==> l.courses[j].id != l.courses[i].id;
      }
    }
  }

  // ---------------------------------------------------------------------------
  // Properties of the listing and of several calls
  // ---------------------------------------------------------------------------

  /** Entry `j` of the listing is course `j` with its fields copied and the
      flag set iff a student ID was given and its key is present. */
  lemma {:induction false} SnapshotAt(courses: seq<Course>, enrollments: set<string>, studentId: string, j: nat)
    requires j < |courses|
    ensures Snapshot(courses, enrollments, studentId)[j] == Personalize(courses[j], enrollments, studentId)
  {
    if j < |courses| - 1 {
      var prefix := courses[..|courses| - 1];
      SnapshotAt(prefix, enrollments, studentId, j);
      assert prefix[j] == courses[j];
    }
  }

  /** For a stored course (whose flag is never set), the listing flag means
      exactly "this student holds a seat in this course"; every other field is
      the stored one. */
  lemma SnapshotReportsEnrollment(courses: seq<Course>, enrollments: set<string>, studentId: string, j: nat)
    requires j < |courses| && !courses[j].isEnrolled
    ensures var e := Snapshot(courses, enrollments, studentId)[j];
            e.id == courses[j].id && e.title == courses[j].title && e.credits == courses[j].credits &&
            e.openSlots == courses[j].openSlots &&
            (e.isEnrolled <==> studentId != "" && EnrollKey(courses[j].id, studentId) in enrollments)
  {
  }

  /** After enroll(c, s) succeeds, the listing for `s` marks course `c` as
      enrolled (both sides build the key the same way), provided `s` is not empty. */
  lemma EnrollThenListed(l: Ledger, req: EnrollRequest)
    requires EnrollEffect(l, MethodPost, Some(req)).0 == Enrolled
    requires req.studentId != ""
    ensures var after := EnrollEffect(l, MethodPost, Some(req)).1;
            forall j :: 0 <= j < |after.courses| && after.courses[j].id == req.courseId ==>
              Snapshot(after.courses, after.enrollments, req.studentId)[j].isEnrolled
  {
    var after := EnrollEffect(l, MethodPost, Some(req)).1;
    EnrolledEffect(l, MethodPost, Some(req));
    forall j | 0 <= j < |after.courses| && after.courses[j].id == req.courseId
      ensures Snapshot(after.courses, after.enrollments, req.studentId)[j].isEnrolled
    {
      SnapshotAt(after.courses, after.enrollments, req.studentId, j);
    }
  }

  /** A repeated enroll for the same pair fails as "already enrolled" and
      changes nothing: seats are not taken twice. */
  lemma RepeatEnrollRefused(l: Ledger, req: EnrollRequest)
    requires EnrollEffect(l, MethodPost, Some(req)).0 == Enrolled
    ensures var after := EnrollEffect(l, MethodPost, Some(req)).1;
            EnrollEffect(after, MethodPost, Some(req)) == (AlreadyEnrolled, after)
  {
  }

  /** An empty student ID is accepted and takes a seat under the key "C:", but
      the listing never flags anything for an empty ID, so that seat shows in
      no listing; repeating the request gets "already enrolled". */
  lemma EmptyStudentSeatHidden(l: Ledger, courseId: string)
    requires EnrollEffect(l, MethodPost, Some(EnrollRequest(courseId, ""))).0 == Enrolled
    ensures var after := EnrollEffect(l, MethodPost, Some(EnrollRequest(courseId, ""))).1;
            EnrollKey(courseId, "") in after.enrollments &&
            Snapshot(after.courses, after.enrollments, "") == after.courses &&
            EnrollEffect(after, MethodPost, Some(EnrollRequest(courseId, ""))) == (AlreadyEnrolled, after)
  {
    var after := EnrollEffect(l, MethodPost, Some(EnrollRequest(courseId, ""))).1;
    forall j | 0 <= j < |after.courses|
      ensures Snapshot(after.courses, after.enrollments, "")[j] == after.courses[j]
    {
      SnapshotAt(after.courses, after.enrollments, "", j);
    }
  }

  /** Two students for the last seat, one after the other: the first is
      enrolled, the second gets "course full", and the course ends at zero. */
  lemma LastSeatGoesOnce(l: Ledger, c: string, s1: string, s2: string)
    requires WellFormedIds(l.courses)
    requires Find(l.courses, c).Some? && l.courses[Find(l.courses, c).value].openSlots == 1
    requires s1 != s2
    requires EnrollKey(c, s1) !in l.enrollments && EnrollKey(c, s2) !in l.enrollments
    ensures var first := EnrollEffect(l, MethodPost, Some(EnrollRequest(c, s1)));
            var second := EnrollEffect(first.1, MethodPost, Some(EnrollRequest(c, s2)));
            first.0 == Enrolled && second.0 == CourseFull &&
            second.1.courses[Find(l.courses, c).value].openSlots == 0
  {
    var first := EnrollEffect(l, MethodPost, Some(EnrollRequest(c, s1)));
    EnrolledEffect(l, MethodPost, Some(EnrollRequest(c, s1)));
    var i := Find(l.courses, c).value;
    if EnrollKey(c, s2) in first.1.enrollments {
      KeyInjective(c, s2, c, s1);
    }
    assert first.1.courses[i].id == c;
    assert Find(first.1.courses, c) == Some(i) by {
      var f := Find(first.1.courses, c);
      assert forall j :: 0 <= j < i ==> first.1.courses[j].id == l.courses[j].id;
    }
  }

  /** The concrete race: STDISCM with one open seat. */
  lemma LastSeatScenario()
    ensures var l0 := Ledger([Course("STDISCM", "Distributed Computing", 4, 1, false)], {});
            var r1 := EnrollEffect(l0, MethodPost, Some(EnrollRequest("STDISCM", "student1")));
            var r2 := EnrollEffect(r1.1, MethodPost, Some(EnrollRequest("STDISCM", "student2")));
            var r3 := EnrollEffect(r2.1, MethodPost, Some(EnrollRequest("STDISCM", "student1")));
            r1.0 == Enrolled && r1.1.courses[0].openSlots == 0 &&
            r2.0 == CourseFull && r3.0 == AlreadyEnrolled && r3.1 == r1.1
  {
    var l0 := Ledger([Course("STDISCM", "Distributed Computing", 4, 1, false)], {});
    assert ':' !in "STDISCM";
    LastSeatGoesOnce(l0, "STDISCM", "student1", "student2");
    RepeatEnrollRefused(l0, EnrollRequest("STDISCM", "student1"));
  }

  // ---------------------------------------------------------------------------
  // The service: shared state updated in place under one lock
  // ---------------------------------------------------------------------------

  function SeedCourses(): (cs: seq<Course>)
    ensures WellFormedIds(cs)
  {
    var cs := [
      Course("CCPROG2", "Programming with Structured Data Types", 3, 20, false),
      Course("STDISCM", "Distributed Computing", 4, 15, false),
      Course("CSMATH1", "Differential Calculus for Computer Science Students", 3, 30, false)
    ];
    assert cs[0].id[0] != cs[1].id[0];
    assert cs[0].id[1] != cs[2].id[1];
    assert cs[1].id[0] != cs[2].id[0];
    cs
  }

  class CourseService {
    var courses: seq<Course>
    var enrollments: set<string>
    /** Open slots of each course when the process started. */
    ghost var initialSlots: seq<int>

    function Current(): Ledger
      reads this
    {
      Ledger(courses, enrollments)
    }

    /** The service invariant: counters never negative, stored flags never set,
        IDs unique and colon-free, and for every course the seats taken plus the
        seats open equal the seats it started with. */
    ghost predicate Valid()
      reads this
    {
      SlotsNonNegative(Current()) &&
      (forall i :: 0 <= i < |courses| ==> !courses[i].isEnrolled) &&
      WellFormedIds(courses) &&
      |initialSlots| == |courses| &&
      (forall i :: 0 <= i < |courses| ==> courses[i].openSlots + Seats(enrollments, courses[i].id) == initialSlots[i])
    }

    constructor ()
      ensures Valid()
      ensures courses == SeedCourses() && enrollments == {}
    {
      courses := SeedCourses();
      enrollments := {};
      initialSlots := [20, 15, 30];
      new;
      forall i | 0 <= i < |courses| ensures Seats(enrollments, courses[i].id) == 0 {
        var id := courses[i].id;
        var s := set k | k in enrollments && HasPrefix(k, id + ":");
        assert s == {};
      }
    }

    /** getCourses: the listing for `studentId`, built by copying each course;
        the shared state is only read. */
    method GetCourses(studentId: string) returns (list: seq<Course>)
      ensures list == Snapshot(courses, enrollments, studentId)
    {
      list := [];
      var i := 0;
      while i < |courses|
        invariant 0 <= i <= |courses|
        invariant list == Snapshot(courses[..i], enrollments, studentId)
      {
        var c := courses[i];
        if studentId != "" {
          if EnrollKey(c.id, studentId) in enrollments {
            c := c.(isEnrolled := true);
          }
        }
        assert courses[..i + 1][..i] == courses[..i];
        list := list + [c];
        i := i + 1;
      }
      assert courses[..i] == courses;
    }

    /** enroll: check-then-mutate as one atomic step. */
    method Enroll(httpMethod: string, body: Option<EnrollRequest>) returns (result: EnrollResult)
      requires Valid()
      modifies this
      ensures Valid()
      ensures (result, Current()) == EnrollEffect(old(Current()), httpMethod, body)
      ensures initialSlots == old(initialSlots)
    {
      ghost var before := Current();
      EnrollConservesSeats(before, httpMethod, body);
      EnrollKeepsSlotsNonNegative(before, httpMethod, body);
      if httpMethod != MethodPost {
        return MethodNotAllowed;
      }
      if body.None? {
        return BadRequest;
      }
      var req := body.value;
      var key := EnrollKey(req.courseId, req.studentId);
      if key in enrollments {
        return AlreadyEnrolled;
      }
      var i := 0;
      while i < |courses|
        invariant 0 <= i <= |courses|
        invariant Current() == before
        invariant forall j :: 0 <= j < i ==> courses[j].id != req.courseId
      {
        if courses[i].id == req.courseId {
          assert Find(courses, req.courseId) == Some(i);
          if courses[i].openSlots > 0 {
            courses := courses[i := courses[i].(openSlots := courses[i].openSlots - 1)];
            enrollments := enrollments + {key};
            return Enrolled;
          }
          return CourseFull;
        }
        i := i + 1;
      }
      return CourseNotFound;
    }
  }
}
