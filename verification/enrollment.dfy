/**
 * The enrollment transition of a course (server.js, the POST handler of
 * /api/management/enrollment/:courseCode): the student is first removed
 * from both the enrolled and the waitlisted list, and then appended to one
 * of them according to the requested action and the seat count.
 */
module Enrollment {

  import opened Wrappers
  import opened Records
  import opened Seqs

  datatype Action = Enroll | Waitlist | Drop

  /** The action named by the request; any other string is rejected with 400. */
  function ParseAction(s: string): (r: Option<Action>)
    ensures r == Some(Enroll) <==> s == "enroll"
    ensures r == Some(Waitlist) <==> s == "waitlist"
    ensures r == Some(Drop) <==> s == "drop"
  {
    if s == "enroll" then Some(Enroll)
    else if s == "waitlist" then Some(Waitlist)
    else if s == "drop" then Some(Drop)
    else None
  }

  /** Which of the handler's four success messages the transition produces. */
  datatype Placement = Enrolled | WaitlistedFull | Waitlisted | Dropped

  datatype Transitioned = Transitioned(course: Course, placement: Placement)

  /** The test the handler's array filter applies. */
  function Other(id: string): string -> bool {
    x => x != id
  }

  /** `s` with every copy of `id` removed. */
  function Without(s: seq<string>, id: string): (r: seq<string>)
    ensures id !in r && |r| <= |s|
    ensures forall x :: x in s && x != id ==> x in r
  {
    Filter(s, Other(id))
  }

  /** Every value other than `id` keeps its number of occurrences. */
  lemma WithoutCount(s: seq<string>, id: string)
    ensures forall x :: x != id ==> multiset(Without(s, id))[x] == multiset(s)[x]
  {
    FilterCount(s, Other(id));
  }

  /** The two course lists after the transition; nothing else of the course changes. */
  function Apply(c: Course, sid: string, act: Action): (r: Transitioned)
    ensures r.course == c.(enrolled := r.course.enrolled, waitlist := r.course.waitlist)
  {
    var e := Without(c.enrolled, sid);
    var w := Without(c.waitlist, sid);
    match act
    case Enroll =>
      if |e| < c.maxSeats then Transitioned(c.(enrolled := e + [sid], waitlist := w), Enrolled)
      else Transitioned(c.(enrolled := e, waitlist := w + [sid]), WaitlistedFull)
    case Waitlist => Transitioned(c.(enrolled := e, waitlist := w + [sid]), Waitlisted)
    case Drop => Transitioned(c.(enrolled := e, waitlist := w), Dropped)
  }

  /** The course invariant: no duplicate within either list, and the lists are disjoint. */
  predicate WellFormed(c: Course) {
    && NoDup(c.enrolled)
    && NoDup(c.waitlist)
    && forall x :: x in c.enrolled ==> x !in c.waitlist
  }

  /** The seat invariant, which the transition keeps but a course update can break. */
  predicate WithinCapacity(c: Course) {
    |c.enrolled| <= c.maxSeats
  }

  /**
   * Where the target ends up: enroll seats it exactly when fewer than maxSeats
   * others are enrolled and waitlists it otherwise, waitlist always waitlists
   * it, and drop leaves it in neither list. It occurs at most once overall,
   * and a placed student is pushed onto the end of its list, so the waitlist
   * is kept in arrival order.
   */
  lemma PlacementRule(c: Course, sid: string, act: Action)
    ensures var r := Apply(c, sid, act);
      && (act == Enroll ==> r.placement in {Enrolled, WaitlistedFull})
      && (act == Enroll ==> (r.placement == Enrolled <==> |Without(c.enrolled, sid)| < c.maxSeats))
      && (act == Waitlist ==> r.placement == Waitlisted)
      && (act == Drop ==> r.placement == Dropped)
      && multiset(r.course.enrolled)[sid] == (if r.placement == Enrolled then 1 else 0)
      && multiset(r.course.waitlist)[sid] == (if r.placement in {WaitlistedFull, Waitlisted} then 1 else 0)
      && (r.placement == Enrolled ==> r.course.enrolled[|r.course.enrolled| - 1] == sid)
      && (r.placement in {WaitlistedFull, Waitlisted} ==> r.course.waitlist[|r.course.waitlist| - 1] == sid)
  {
    WithoutCount(c.enrolled, sid);
    WithoutCount(c.waitlist, sid);
  }

  /**
   * Every other student stays in the list it was in, with the same number of
   * occurrences and in the same relative order: removing the target from the
   * new lists gives exactly the old lists with the target removed.
   */
  lemma TransitionKeepsOthers(c: Course, sid: string, act: Action)
    ensures var r := Apply(c, sid, act).course;
      && Without(r.enrolled, sid) == Without(c.enrolled, sid)
      && Without(r.waitlist, sid) == Without(c.waitlist, sid)
      && Subseq(Without(r.enrolled, sid), c.enrolled)
      && Subseq(Without(r.waitlist, sid), c.waitlist)
  {
    var e := Without(c.enrolled, sid);
    var w := Without(c.waitlist, sid);
    var r := Apply(c, sid, act).course;
    WithoutIdempotent(c.enrolled, sid);
    WithoutIdempotent(c.waitlist, sid);
    FilterIsSubseq(c.enrolled, Other(sid));
    FilterIsSubseq(c.waitlist, Other(sid));
    if r.enrolled != e {
      assert r.enrolled == e + [sid];
      WithoutAppendTarget(e, sid);
    }
    if r.waitlist != w {
      assert r.waitlist == w + [sid];
      WithoutAppendTarget(w, sid);
    }
  }

  lemma WithoutIdempotent(s: seq<string>, id: string)
    ensures Without(Without(s, id), id) == Without(s, id)
  {
    FilterKeepsAll(Without(s, id), Other(id));
  }

  lemma WithoutAppendTarget(s: seq<string>, id: string)
    ensures Without(s + [id], id) == Without(s, id)
  {
    FilterAppend(s, [id], Other(id));
    assert Filter([id], Other(id)) == [];
  }

  /** If the course had at most maxSeats enrolled students, it still does. */
  lemma TransitionKeepsCapacity(c: Course, sid: string, act: Action)
    requires WithinCapacity(c)
    ensures WithinCapacity(Apply(c, sid, act).course)
  {
  }

  /** A well-formed course stays well formed. */
  lemma TransitionKeepsWellFormed(c: Course, sid: string, act: Action)
    requires WellFormed(c)
    ensures WellFormed(Apply(c, sid, act).course)
  {
    var r := Apply(c, sid, act).course;
    PlacementRule(c, sid, act);
    WithoutCount(c.enrolled, sid);
    WithoutCount(c.waitlist, sid);
    forall x | x in r.enrolled ensures multiset(r.enrolled)[x] <= 1 && x !in r.waitlist {
      if x != sid {
        assert multiset(r.enrolled)[x] == multiset(c.enrolled)[x];
        assert multiset(r.waitlist)[x] == multiset(c.waitlist)[x];
      }
    }
    forall x | x in r.waitlist ensures multiset(r.waitlist)[x] <= 1 {
      if x != sid {
        assert multiset(r.waitlist)[x] == multiset(c.waitlist)[x];
      }
    }
  }

  /** Dropping twice is the same as dropping once. */
  lemma DropIsIdempotent(c: Course, sid: string)
    ensures Apply(Apply(c, sid, Drop).course, sid, Drop) == Apply(c, sid, Drop)
  {
    WithoutIdempotent(c.enrolled, sid);
    WithoutIdempotent(c.waitlist, sid);
  }

  /**
   * A drop frees a seat but promotes nobody: the waitlist afterwards is the
   * old waitlist without the dropped student, even when a seat is now free.
   */
  lemma DropDoesNotPromote(c: Course, sid: string)
    ensures var r := Apply(c, sid, Drop).course;
      && sid !in r.enrolled && sid !in r.waitlist
      && |r.enrolled| <= |c.enrolled|
      && forall x :: x != sid ==> multiset(r.waitlist)[x] == multiset(c.waitlist)[x]
  {
    WithoutCount(c.waitlist, sid);
  }

  /**
   * The capacity boundary: with two seats, A and B are enrolled, C is
   * waitlisted, and dropping A leaves B enrolled and C still waitlisted.
   */
  lemma TwoSeatScenario()
    ensures
      var c0 := Course("C1", "Course", "t", 2, [], []);
      var r1 := Apply(c0, "A", Enroll);
      var r2 := Apply(r1.course, "B", Enroll);
      var r3 := Apply(r2.course, "C", Enroll);
      var r4 := Apply(r3.course, "A", Drop);
      && r1.placement == Enrolled && r2.placement == Enrolled && r3.placement == WaitlistedFull
      && r3.course.enrolled == ["A", "B"] && r3.course.waitlist == ["C"]
      && r4.course.enrolled == ["B"] && r4.course.waitlist == ["C"]
  {
    var c0 := Course("C1", "Course", "t", 2, [], []);
    ScenarioStep1(c0);
    ScenarioStep2(c0);
    ScenarioStep3(c0);
    ScenarioStep4(c0);
  }

  lemma ScenarioStep1(c0: Course)
    requires c0.maxSeats == 2 && c0.enrolled == [] && c0.waitlist == []
    ensures Apply(c0, "A", Enroll) == Transitioned(c0.(enrolled := ["A"]), Enrolled)
  {
    ScenarioFilters();
  }

  lemma ScenarioStep2(c0: Course)
    requires c0.maxSeats == 2 && c0.enrolled == [] && c0.waitlist == []
    ensures Apply(c0.(enrolled := ["A"]), "B", Enroll) == Transitioned(c0.(enrolled := ["A", "B"]), Enrolled)
  {
    ScenarioFilters();
  }

  lemma ScenarioStep3(c0: Course)
    requires c0.maxSeats == 2 && c0.enrolled == [] && c0.waitlist == []
    ensures Apply(c0.(enrolled := ["A", "B"]), "C", Enroll)
         == Transitioned(c0.(enrolled := ["A", "B"], waitlist := ["C"]), WaitlistedFull)
  {
    ScenarioFilters();
  }

  lemma ScenarioStep4(c0: Course)
    requires c0.maxSeats == 2 && c0.enrolled == [] && c0.waitlist == []
    ensures Apply(c0.(enrolled := ["A", "B"], waitlist := ["C"]), "A", Drop)
         == Transitioned(c0.(enrolled := ["B"], waitlist := ["C"]), Dropped)
  {
    ScenarioFilters();
  }

  /** The list filters the two-seat scenario performs, worked out one element at a time. */
  lemma ScenarioFilters()
    ensures Without([], "A") == [] && Without([], "B") == [] && Without([], "C") == []
    ensures Without(["A"], "B") == ["A"]
    ensures Without(["A", "B"], "C") == ["A", "B"]
    ensures Without(["A", "B"], "A") == ["B"]
    ensures Without(["C"], "A") == ["C"]
  {
    WithoutCons("A", [], "B");
    WithoutCons("B", [], "C");
    WithoutCons("B", [], "A");
    WithoutCons("C", [], "A");
    assert ["A"] + ["B"] == ["A", "B"];
    WithoutCons("A", ["B"], "C");
    WithoutCons("A", ["B"], "A");
  }

  lemma WithoutCons(x: string, s: seq<string>, id: string)
    ensures Without([x] + s, id) == (if x == id then [] else [x]) + Without(s, id)
  {
    assert ([x] + s)[1..] == s;
  }

  /** Every course is well formed and within its seat count. */
  predicate CoursesValid(courses: seq<Course>) {
    forall c :: c in courses ==> WellFormed(c) && WithinCapacity(c)
  }

  datatype TransitionReply = TransitionReply(reply: Reply, placement: Option<Placement>)

  /**
   * The enrollment handler: 400 when studentId or action is missing, 404
   * when the course or a student with that studentId is missing, 400 for an
   * unknown action; in all these cases nothing is written. Otherwise the
   * first course with the code is replaced by its transitioned version.
   */
  function TransitionRequest(db: Db, roleHeader: Option<string>, courseCode: string,
                             studentId: Option<string>, action: Option<string>): (r: TransitionReply)
    ensures !IsStaff(roleHeader) ==> r.reply == Reply(Forbidden, db)
    ensures IsStaff(roleHeader) && !(Given(studentId) && Given(action)) ==> r.reply == Reply(BadRequest, db)
    ensures IsStaff(roleHeader) && Given(studentId) && Given(action) ==>
      (r.reply.status == NotFound <==>
         (forall c :: c in db.courses ==> c.courseCode != courseCode) || !StudentExists(db.users, studentId.value))
    ensures r.reply.status == Forbidden <==> !IsStaff(roleHeader)
    ensures (&& IsStaff(roleHeader) && Given(studentId) && Given(action)
             && (exists c :: c in db.courses && c.courseCode == courseCode) && StudentExists(db.users, studentId.value)
             && ParseAction(action.value).None?) ==> r.reply == Reply(BadRequest, db)
    ensures r.reply.status == OK <==>
      && IsStaff(roleHeader) && Given(studentId) && Given(action)
      && (exists c :: c in db.courses && c.courseCode == courseCode) && StudentExists(db.users, studentId.value)
      && ParseAction(action.value).Some?
    ensures r.reply.status in {OK, BadRequest, NotFound, Forbidden}
    ensures r.reply.status != OK ==> r.reply.db == db && r.placement.None?
    ensures r.reply.status == OK ==>
      && Given(studentId) && ParseAction(action.value).Some?
      && var i := FindFirst(db.courses, CourseWithCode(courseCode));
      && i.Some?
      && var t := Apply(db.courses[i.value], studentId.value, ParseAction(action.value).value);
      && r.reply.db == db.(courses := db.courses[i.value := t.course])
      && r.placement == Some(t.placement)
  {
    if !IsStaff(roleHeader) then TransitionReply(Reply(Forbidden, db), None)
    else if !Given(studentId) || !Given(action) then TransitionReply(Reply(BadRequest, db), None)
    else
      var i := FindFirst(db.courses, CourseWithCode(courseCode));
      if i.None? || !StudentExists(db.users, studentId.value) then TransitionReply(Reply(NotFound, db), None)
      else match ParseAction(action.value)
        case None => TransitionReply(Reply(BadRequest, db), None)
        case Some(act) =>
          var t := Apply(db.courses[i.value], studentId.value, act);
          TransitionReply(Reply(OK, db.(courses := db.courses[i.value := t.course])), Some(t.placement))
  }

  /** Enrollment requests keep every course well formed and within its seat count. */
  lemma TransitionRequestKeepsCoursesValid(db: Db, roleHeader: Option<string>, courseCode: string,
                                           studentId: Option<string>, action: Option<string>)
    requires CoursesValid(db.courses)
    ensures CoursesValid(TransitionRequest(db, roleHeader, courseCode, studentId, action).reply.db.courses)
  {
    var r := TransitionRequest(db, roleHeader, courseCode, studentId, action);
    if r.reply.status == OK {
      var i := FindFirst(db.courses, CourseWithCode(courseCode)).value;
      var act := ParseAction(action.value).value;
      var c := db.courses[i];
      TransitionKeepsWellFormed(c, studentId.value, act);
      TransitionKeepsCapacity(c, studentId.value, act);
      forall d | d in r.reply.db.courses ensures WellFormed(d) && WithinCapacity(d) {
        var k :| 0 <= k < |r.reply.db.courses| && r.reply.db.courses[k] == d;
        if k != i {
          assert d == db.courses[k];
        }
      }
    }
  }
}
