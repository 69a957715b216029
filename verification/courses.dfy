/**
 * Course management: creation (unique course codes, empty lists) and the
 * update of title, seat count and teacher. The update writes the new seat
 * count as given and never revisits the enrolled list.
 */
module Courses {

  import opened Wrappers
  import opened Records
  import opened Seqs
  import opened Enrollment

  /** No two courses share a code. */
  predicate CodesUnique(courses: seq<Course>) {
    forall i, j :: 0 <= i < j < |courses| ==> courses[i].courseCode != courses[j].courseCode
  }

  /**
   * The create handler: 403 for other roles; 400 when the code, title, seat
   * count or the teacher header is missing (a seat count of 0 counts as
   * missing); 409 for a taken code; otherwise 201 and a course with empty
   * lists appended.
   */
  function CreateCourseRequest(db: Db, roleHeader: Option<string>, teacherHeader: Option<string>,
                               courseCode: Option<string>, title: Option<string>, maxSeats: Option<int>): (r: Reply)
    ensures !IsStaff(roleHeader) ==> r == Reply(Forbidden, db)
    ensures r.status == Forbidden <==> !IsStaff(roleHeader)
    ensures IsStaff(roleHeader) ==>
      (r.status == BadRequest <==> !Given(courseCode) || !Given(title) || !GivenNumber(maxSeats) || !Given(teacherHeader))
    ensures IsStaff(roleHeader) && Given(courseCode) && Given(title) && GivenNumber(maxSeats) && Given(teacherHeader) ==>
      (r.status == Conflict <==> exists c :: c in db.courses && c.courseCode == courseCode.value)
    ensures r.status == Created <==>
      && IsStaff(roleHeader) && Given(courseCode) && Given(title) && GivenNumber(maxSeats) && Given(teacherHeader)
      && forall c :: c in db.courses ==> c.courseCode != courseCode.value
    ensures r.status in {Created, BadRequest, Forbidden, Conflict}
    ensures r.status != Created ==> r.db == db
    ensures r.status == Created ==>
      r.db == db.(courses := db.courses + [Course(courseCode.value, title.value, teacherHeader.value, maxSeats.value, [], [])])
  {
    if !IsStaff(roleHeader) then Reply(Forbidden, db)
    else if !Given(courseCode) || !Given(title) || !GivenNumber(maxSeats) || !Given(teacherHeader) then Reply(BadRequest, db)
    else if FindFirst(db.courses, CourseWithCode(courseCode.value)).Some? then Reply(Conflict, db)
    else Reply(Created, db.(courses := db.courses + [Course(courseCode.value, title.value, teacherHeader.value, maxSeats.value, [], [])]))
  }

  /** Creation keeps course codes unique. */
  lemma CreateKeepsCodesUnique(db: Db, roleHeader: Option<string>, teacherHeader: Option<string>,
                               courseCode: Option<string>, title: Option<string>, maxSeats: Option<int>)
    requires CodesUnique(db.courses)
    ensures CodesUnique(CreateCourseRequest(db, roleHeader, teacherHeader, courseCode, title, maxSeats).db.courses)
  {
    var r := CreateCourseRequest(db, roleHeader, teacherHeader, courseCode, title, maxSeats);
    if r.status == Created {
      var cs := r.db.courses;
      forall i, j | 0 <= i < j < |cs| ensures cs[i].courseCode != cs[j].courseCode {
        if j == |db.courses| {
          assert cs[i] in db.courses;
        }
      }
    }
  }

  /**
   * Creation keeps course codes unique, and keeps every course well formed
   * and within its seat count unless the new seat count is negative.
   */
  lemma CreateKeepsCourses(db: Db, roleHeader: Option<string>, teacherHeader: Option<string>,
                           courseCode: Option<string>, title: Option<string>, maxSeats: Option<int>)
    requires CodesUnique(db.courses) && CoursesValid(db.courses)
    ensures var r := CreateCourseRequest(db, roleHeader, teacherHeader, courseCode, title, maxSeats);
      && CodesUnique(r.db.courses)
      && (CoursesValid(r.db.courses) <==> r.status != Created || maxSeats.value >= 0)
  {
    CreateKeepsCodesUnique(db, roleHeader, teacherHeader, courseCode, title, maxSeats);
    var r := CreateCourseRequest(db, roleHeader, teacherHeader, courseCode, title, maxSeats);
    if r.status == Created {
      var cs := r.db.courses;
      var c := cs[|cs| - 1];
      assert NoDup(c.enrolled) && NoDup(c.waitlist);
      assert c in cs;
    }
  }

  /**
   * The update handler: 403 for other roles, 404 when no course has the
   * code; otherwise the first such course gets the new seat count, and the
   * title and teacher when given (an absent field is left as it was).
   */
  function UpdateCourseRequest(db: Db, roleHeader: Option<string>, courseCode: string,
                               title: Option<string>, maxSeats: int, teacherUsername: Option<string>): (r: Reply)
    ensures !IsStaff(roleHeader) ==> r == Reply(Forbidden, db)
    ensures r.status == Forbidden <==> !IsStaff(roleHeader)
    ensures IsStaff(roleHeader) ==> (r.status == NotFound <==> forall c :: c in db.courses ==> c.courseCode != courseCode)
    ensures r.status == OK <==> IsStaff(roleHeader) && exists c :: c in db.courses && c.courseCode == courseCode
    ensures r.status in {OK, NotFound, Forbidden}
    ensures r.status != OK ==> r.db == db
    ensures r.status == OK ==>
      && var i := FindFirst(db.courses, CourseWithCode(courseCode));
      && i.Some?
      && var c := db.courses[i.value];
      && r.db == db.(courses := db.courses[i.value := c.(title := title.GetOr(c.title), maxSeats := maxSeats,
                                                        teacherUsername := teacherUsername.GetOr(c.teacherUsername))])
  {
    if !IsStaff(roleHeader) then Reply(Forbidden, db)
    else match FindFirst(db.courses, CourseWithCode(courseCode))
      case None => Reply(NotFound, db)
      case Some(i) =>
        var c := db.courses[i];
        Reply(OK, db.(courses := db.courses[i := c.(title := title.GetOr(c.title), maxSeats := maxSeats,
                                                    teacherUsername := teacherUsername.GetOr(c.teacherUsername))]))
  }

  /**
   * An update keeps the lists well formed, and the updated course stays
   * within its seat count exactly when the new count is at least the number
   * of students enrolled: lowering the count below it is accepted as is.
   */
  lemma UpdateCapacity(db: Db, roleHeader: Option<string>, courseCode: string,
                       title: Option<string>, maxSeats: int, teacherUsername: Option<string>)
    requires CoursesValid(db.courses)
    requires UpdateCourseRequest(db, roleHeader, courseCode, title, maxSeats, teacherUsername).status == OK
    ensures var i := FindFirst(db.courses, CourseWithCode(courseCode)).value;
      var r := UpdateCourseRequest(db, roleHeader, courseCode, title, maxSeats, teacherUsername);
      && (forall c :: c in r.db.courses ==> WellFormed(c))
      && (CoursesValid(r.db.courses) <==> maxSeats >= |db.courses[i].enrolled|)
  {
    var i := FindFirst(db.courses, CourseWithCode(courseCode)).value;
    var r := UpdateCourseRequest(db, roleHeader, courseCode, title, maxSeats, teacherUsername);
    var cs := r.db.courses;
    assert forall k :: 0 <= k < |cs| && k != i ==> cs[k] == db.courses[k];
    assert db.courses[i] in db.courses && cs[i] in cs;
    forall c | c in cs ensures WellFormed(c) {
      var k :| 0 <= k < |cs| && cs[k] == c;
      assert db.courses[k] in db.courses;
    }
    if maxSeats >= |db.courses[i].enrolled| {
      forall c | c in cs ensures WithinCapacity(c) {
        var k :| 0 <= k < |cs| && cs[k] == c;
        assert db.courses[k] in db.courses;
      }
    }
  }

  /** Concretely: a full two-seat course updated to one seat keeps both students enrolled. */
  lemma UpdateBelowEnrolledIsAccepted()
    ensures var c := Course("CS101", "Intro", "t", 2, ["A", "B"], []);
      var db := Db([], [c], [], [], [], [], [], []);
      var r := UpdateCourseRequest(db, Some("teacher"), "CS101", None, 1, None);
      && CoursesValid(db.courses)
      && r.status == OK
      && r.db.courses == [c.(maxSeats := 1)]
      && !WithinCapacity(r.db.courses[0])
  {
    var c := Course("CS101", "Intro", "t", 2, ["A", "B"], []);
    assert multiset(c.enrolled)["A"] == 1 && multiset(c.enrolled)["B"] == 1;
    assert NoDup(c.enrolled);
  }
}
