/**
 * The portal's store as mutable state: one sequence field per collection.
 * Each state-changing handler is a method that works on the fields step by
 * step, as the handler does on its documents and collections, and is proved
 * to leave the store and answer exactly as the handler's function says,
 * keeping the store invariants that function is proved to keep.
 */
module Portal {

  import opened Wrappers
  import opened Records
  import opened Seqs
  import Enrollment
  import Cascade
  import Marks
  import AttendanceLog
  import Accounts
  import Courses
  import FeeReport

  class Store {
    var users: seq<User>
    var courses: seq<Course>
    var fees: seq<Fee>
    var appointments: seq<Appointment>
    var tickets: seq<Ticket>
    var timetables: seq<Timetable>
    var attendance: seq<Attendance>
    var marks: seq<Mark>

    /** The store's contents as a value. */
    function Snapshot(): Db
      reads this
    {
      Db(users, courses, fees, appointments, tickets, timetables, attendance, marks)
    }

    constructor (db: Db)
      ensures Snapshot() == db
    {
      users, courses, fees, appointments := db.users, db.courses, db.fees, db.appointments;
      tickets, timetables, attendance, marks := db.tickets, db.timetables, db.attendance, db.marks;
    }

    /**
     * The enrollment handler: the student is first removed from both lists
     * of the course, then pushed onto one of them as the action says, and
     * the course is saved. Every course stays well formed and within its
     * seat count.
     */
    method Transition(roleHeader: Option<string>, courseCode: string, studentId: Option<string>, action: Option<string>)
      returns (status: Status, placement: Option<Enrollment.Placement>)
      modifies this
      ensures Enrollment.TransitionReply(Reply(status, Snapshot()), placement)
        == Enrollment.TransitionRequest(old(Snapshot()), roleHeader, courseCode, studentId, action)
      ensures Enrollment.CoursesValid(old(courses)) ==> Enrollment.CoursesValid(courses)
    {
      if Enrollment.CoursesValid(courses) {
        Enrollment.TransitionRequestKeepsCoursesValid(Snapshot(), roleHeader, courseCode, studentId, action);
      }
      if !IsStaff(roleHeader) {
        return Forbidden, None;
      }
      if !Given(studentId) || !Given(action) {
        return BadRequest, None;
      }
      var sid := studentId.value;
      var found := FindFirst(courses, CourseWithCode(courseCode));
      if found.None? || !StudentExists(users, sid) {
        return NotFound, None;
      }
      var act := Enrollment.ParseAction(action.value);
      if act.None? {
        return BadRequest, None;
      }
      var course := courses[found.value];
      var enrolled := Enrollment.Without(course.enrolled, sid);
      var waitlist := Enrollment.Without(course.waitlist, sid);
      if act == Some(Enrollment.Enroll) {
        if |enrolled| < course.maxSeats {
          enrolled := enrolled + [sid];
          placement := Some(Enrollment.Enrolled);
        } else {
          waitlist := waitlist + [sid];
          placement := Some(Enrollment.WaitlistedFull);
        }
      } else if act == Some(Enrollment.Waitlist) {
        waitlist := waitlist + [sid];
        placement := Some(Enrollment.Waitlisted);
      } else {
        placement := Some(Enrollment.Dropped);
      }
      ghost var t := Enrollment.Apply(course, sid, act.value);
      assert course.(enrolled := enrolled, waitlist := waitlist) == t.course && placement == Some(t.placement);
      courses := courses[found.value := course.(enrolled := enrolled, waitlist := waitlist)];
      status := OK;
    }

    /**
     * The student delete handler: delete the user by identifier, then run
     * the dependent deletes.
     */
    method DeleteStudent(roleHeader: Option<string>, id: string) returns (status: Status)
      modifies this
      ensures Reply(status, Snapshot()) == Cascade.DeleteStudentRequest(old(Snapshot()), roleHeader, id)
    {
      if !IsStaff(roleHeader) {
        return Forbidden;
      }
      var found := FindFirst(users, UserWithId(id));
      if found.None? {
        return NotFound;
      }
      var deleted := users[found.value];
      users := RemoveAt(users, found.value);
      DeleteRecordsOf(deleted);
      status := OK;
    }

    /** The student cascade: one delete-by-filter per dependent collection, in the handler's order. */
    method DeleteRecordsOf(deleted: User)
      modifies this
      ensures Snapshot() == Cascade.CascadeStudent(old(Snapshot()), deleted)
    {
      marks := Filter(marks, Cascade.MarkKept(deleted));
      attendance := Filter(attendance, Cascade.AttendanceKept(deleted));
      fees := Filter(fees, Cascade.FeeKept(deleted));
      appointments := Filter(appointments, Cascade.AppointmentKept(deleted));
      tickets := Filter(tickets, Cascade.TicketKept(deleted));
    }

    /** The course delete handler: delete the course, then run the dependent deletes. */
    method DeleteCourse(roleHeader: Option<string>, code: string) returns (status: Status)
      modifies this
      ensures Reply(status, Snapshot()) == Cascade.DeleteCourseRequest(old(Snapshot()), roleHeader, code)
    {
      if !IsStaff(roleHeader) {
        return Forbidden;
      }
      var found := FindFirst(courses, CourseWithCode(code));
      if found.None? {
        return NotFound;
      }
      courses := RemoveAt(courses, found.value);
      DeleteRecordsOfCourse(code);
      status := OK;
    }

    /** The course cascade: its timetable slots, then its marks, then its attendance. */
    method DeleteRecordsOfCourse(code: string)
      modifies this
      ensures Snapshot() == Cascade.CascadeCourse(old(Snapshot()), code)
    {
      timetables := Filter(timetables, Cascade.TimetableKept(code));
      marks := Filter(marks, Cascade.MarkKeptForCourse(code));
      attendance := Filter(attendance, Cascade.AttendanceKeptForCourse(code));
    }

    /**
     * The mark entry handler: update the score (and the maximum when given)
     * of the mark with the key, or insert one. At most one mark per key.
     */
    method EnterMark(roleHeader: Option<string>, sid: string, course: string, exam: string, score: int, maxScore: Option<int>)
      returns (status: Status)
      modifies this
      ensures Reply(status, Snapshot()) == Marks.MarkEntryRequest(old(Snapshot()), roleHeader, sid, course, exam, score, maxScore)
      ensures Marks.KeysUnique(old(marks)) ==> Marks.KeysUnique(marks)
    {
      if Marks.KeysUnique(marks) {
        Marks.UpsertKeepsKeysUnique(marks, sid, course, exam, score, maxScore);
      }
      if !IsStaff(roleHeader) {
        return Forbidden;
      }
      if sid == ClassAvgId {
        return BadRequest;
      }
      ghost var before := marks;
      match FindFirst(marks, Marks.MarkKey(sid, course, exam)) {
        case Some(i) =>
          marks := marks[i := marks[i].(score := score, maxScore := maxScore.GetOr(marks[i].maxScore))];
        case None =>
          marks := marks + [Mark(sid, course, exam, score, maxScore.GetOr(DefaultMaxScore))];
      }
      assert marks == Marks.UpsertMark(before, sid, course, exam, score, maxScore);
      status := Created;
    }

    /** The attendance log handler: at most one record per student, course and day. */
    method LogAttendance(roleHeader: Option<string>, sid: string, course: string, date: Option<Day>, status: Option<string>)
      returns (answer: Status)
      modifies this
      ensures Reply(answer, Snapshot()) == AttendanceLog.LogAttendanceRequest(old(Snapshot()), roleHeader, sid, course, date, status)
      ensures AttendanceLog.SessionsUnique(old(attendance)) ==> AttendanceLog.SessionsUnique(attendance)
    {
      if AttendanceLog.SessionsUnique(attendance) {
        AttendanceLog.LogKeepsSessionsUnique(Snapshot(), roleHeader, sid, course, date, status);
      }
      if !IsStaff(roleHeader) {
        return Forbidden;
      }
      if !StudentExists(users, sid) {
        return NotFound;
      }
      if date.None? {
        return BadRequest;
      }
      if FindFirst(attendance, AttendanceLog.SameSession(sid, course, date.value)).Some? {
        return Conflict;
      }
      match ParseAttendanceStatus(status) {
        case None =>
          return BadRequest;
        case Some(st) =>
          attendance := attendance + [Attendance(sid, course, date.value, st)];
          answer := Created;
      }
    }

    /** The signup handler: usernames stay unique, and studentIds among students. */
    method Signup(name: Option<string>, studentId: Option<string>, username: Option<string>,
                  password: Option<string>, secretKey: Option<string>,
                  newUserId: string, newFeeId: string, nextYear: Day)
      returns (status: Status)
      modifies this
      ensures Reply(status, Snapshot())
        == Accounts.SignupRequest(old(Snapshot()), name, studentId, username, password, secretKey, newUserId, newFeeId, nextYear)
      ensures Accounts.UsernamesUnique(old(users)) && Accounts.StudentIdsUnique(old(users)) ==>
        Accounts.UsernamesUnique(users) && Accounts.StudentIdsUnique(users)
    {
      if Accounts.UsernamesUnique(users) && Accounts.StudentIdsUnique(users) {
        Accounts.SignupKeepsUnique(Snapshot(), name, studentId, username, password, secretKey, newUserId, newFeeId, nextYear);
      }
      if Accounts.SignupIncomplete(name, studentId, username, password, secretKey) {
        return BadRequest;
      }
      if secretKey != Some(TeacherSecretKey) && Given(secretKey) {
        return Forbidden;
      }
      var role := if secretKey == Some(TeacherSecretKey) then Teacher else Student;
      if FindFirst(users, Accounts.UserNamed(username.value)).Some? {
        return Conflict;
      }
      if role == Student && StudentExists(users, studentId.value) {
        return Conflict;
      }
      users := users + [User(newUserId, username.value, password.value, role,
                             if Given(studentId) then Id(studentId.value) else Null, name.value,
                             if role == Teacher then Some([]) else None)];
      if role == Student {
        fees := fees + [Accounts.EnrollmentFee(newFeeId, studentId.value, nextYear)];
      }
      status := Created;
    }

    /** The staff tool's add-student handler. */
    method AddStudent(roleHeader: Option<string>, name: string, studentId: string, username: string, password: string,
                      newUserId: string, newFeeId: string, nextYear: Day)
      returns (status: Status)
      modifies this
      ensures Reply(status, Snapshot())
        == Accounts.AddStudentRequest(old(Snapshot()), roleHeader, name, studentId, username, password, newUserId, newFeeId, nextYear)
      ensures Accounts.UsernamesUnique(old(users)) && Accounts.StudentIdsUnique(old(users)) ==>
        Accounts.UsernamesUnique(users) && Accounts.StudentIdsUnique(users)
    {
      if Accounts.UsernamesUnique(users) && Accounts.StudentIdsUnique(users) {
        Accounts.AddStudentKeepsUnique(Snapshot(), roleHeader, name, studentId, username, password, newUserId, newFeeId, nextYear);
      }
      if !IsStaff(roleHeader) {
        return Forbidden;
      }
      if FindFirst(users, (u: User) => u.username == username || u.studentId == Id(studentId)).Some? {
        return Conflict;
      }
      users := users + [User(newUserId, username, password, Student, Id(studentId), name, None)];
      fees := fees + [Accounts.EnrollmentFee(newFeeId, studentId, nextYear)];
      status := Created;
    }

    /**
     * The course create handler: course codes stay unique, and the courses
     * stay valid unless the new seat count is negative.
     */
    method CreateCourse(roleHeader: Option<string>, teacherHeader: Option<string>,
                        courseCode: Option<string>, title: Option<string>, maxSeats: Option<int>)
      returns (status: Status)
      modifies this
      ensures Reply(status, Snapshot())
        == Courses.CreateCourseRequest(old(Snapshot()), roleHeader, teacherHeader, courseCode, title, maxSeats)
      ensures Courses.CodesUnique(old(courses)) ==> Courses.CodesUnique(courses)
      ensures Courses.CodesUnique(old(courses)) && Enrollment.CoursesValid(old(courses)) ==>
        (Enrollment.CoursesValid(courses) <==> status != Created || maxSeats.value >= 0)
    {
      if Courses.CodesUnique(courses) {
        Courses.CreateKeepsCodesUnique(Snapshot(), roleHeader, teacherHeader, courseCode, title, maxSeats);
        if Enrollment.CoursesValid(courses) {
          Courses.CreateKeepsCourses(Snapshot(), roleHeader, teacherHeader, courseCode, title, maxSeats);
        }
      }
      if !IsStaff(roleHeader) {
        return Forbidden;
      }
      if !Given(courseCode) || !Given(title) || !GivenNumber(maxSeats) || !Given(teacherHeader) {
        return BadRequest;
      }
      if FindFirst(courses, CourseWithCode(courseCode.value)).Some? {
        return Conflict;
      }
      courses := courses + [Course(courseCode.value, title.value, teacherHeader.value, maxSeats.value, [], [])];
      status := Created;
    }

    /** The course update handler: the lists of every course stay well formed. */
    method UpdateCourse(roleHeader: Option<string>, courseCode: string, title: Option<string>, maxSeats: int,
                        teacherUsername: Option<string>)
      returns (status: Status)
      modifies this
      ensures Reply(status, Snapshot())
        == Courses.UpdateCourseRequest(old(Snapshot()), roleHeader, courseCode, title, maxSeats, teacherUsername)
      ensures Enrollment.CoursesValid(old(courses)) ==> forall c :: c in courses ==> Enrollment.WellFormed(c)
    {
      if !IsStaff(roleHeader) {
        return Forbidden;
      }
      var found := FindFirst(courses, CourseWithCode(courseCode));
      if found.None? {
        return NotFound;
      }
      if Enrollment.CoursesValid(courses) {
        Courses.UpdateCapacity(Snapshot(), roleHeader, courseCode, title, maxSeats, teacherUsername);
      }
      var course := courses[found.value];
      courses := courses[found.value := course.(title := title.GetOr(course.title), maxSeats := maxSeats,
                                                teacherUsername := teacherUsername.GetOr(course.teacherUsername))];
      status := OK;
    }

    /** The fee status update handler. */
    method UpdateFeeStatus(roleHeader: Option<string>, id: string, paymentStatus: Option<string>) returns (status: Status)
      modifies this
      ensures Reply(status, Snapshot()) == FeeReport.UpdateFeeStatusRequest(old(Snapshot()), roleHeader, id, paymentStatus)
      ensures FeeReport.StatusesValid(old(fees)) ==> FeeReport.StatusesValid(fees)
    {
      if !IsStaff(roleHeader) {
        return Forbidden;
      }
      if paymentStatus.None? || !IsPaymentStatus(paymentStatus.value) {
        return BadRequest;
      }
      match FindFirst(fees, FeeReport.FeeWithId(id)) {
        case None =>
          return NotFound;
        case Some(i) =>
          fees := fees[i := fees[i].(paymentStatus := paymentStatus.value)];
          status := OK;
      }
    }
  }

  /**
   * The staff guard covers every state-changing staff-only handler: a
   * caller whose role header is neither 'teacher' nor 'admin' gets 403 and
   * the store is left as it was, whatever the other arguments.
   */
  lemma StaffGuardRefuses(db: Db, roleHeader: Option<string>)
    requires !IsStaff(roleHeader)
    ensures forall code, sid, action :: Enrollment.TransitionRequest(db, roleHeader, code, sid, action).reply == Reply(Forbidden, db)
    ensures forall id :: Cascade.DeleteStudentRequest(db, roleHeader, id) == Reply(Forbidden, db)
    ensures forall code :: Cascade.DeleteCourseRequest(db, roleHeader, code) == Reply(Forbidden, db)
    ensures forall sid, course, exam, score, maxScore ::
      Marks.MarkEntryRequest(db, roleHeader, sid, course, exam, score, maxScore) == Reply(Forbidden, db)
    ensures forall sid, course, date, status ::
      AttendanceLog.LogAttendanceRequest(db, roleHeader, sid, course, date, status) == Reply(Forbidden, db)
    ensures forall name, sid, username, password, newUserId, newFeeId, nextYear ::
      Accounts.AddStudentRequest(db, roleHeader, name, sid, username, password, newUserId, newFeeId, nextYear) == Reply(Forbidden, db)
    ensures forall teacherHeader, code, title, maxSeats ::
      Courses.CreateCourseRequest(db, roleHeader, teacherHeader, code, title, maxSeats) == Reply(Forbidden, db)
    ensures forall code, title, maxSeats, teacher ::
      Courses.UpdateCourseRequest(db, roleHeader, code, title, maxSeats, teacher) == Reply(Forbidden, db)
    ensures forall id, status :: FeeReport.UpdateFeeStatusRequest(db, roleHeader, id, status) == Reply(Forbidden, db)
  {
  }

  /** A caller whose role header is 'teacher' or 'admin' passes the guard: no staff-only handler answers 403. */
  lemma StaffGuardAdmits(db: Db, roleHeader: Option<string>)
    requires IsStaff(roleHeader)
    ensures forall code, sid, action :: Enrollment.TransitionRequest(db, roleHeader, code, sid, action).reply.status != Forbidden
    ensures forall id :: Cascade.DeleteStudentRequest(db, roleHeader, id).status != Forbidden
    ensures forall code :: Cascade.DeleteCourseRequest(db, roleHeader, code).status != Forbidden
    ensures forall sid, course, exam, score, maxScore ::
      Marks.MarkEntryRequest(db, roleHeader, sid, course, exam, score, maxScore).status != Forbidden
    ensures forall sid, course, date, status ::
      AttendanceLog.LogAttendanceRequest(db, roleHeader, sid, course, date, status).status != Forbidden
    ensures forall name, sid, username, password, newUserId, newFeeId, nextYear ::
      Accounts.AddStudentRequest(db, roleHeader, name, sid, username, password, newUserId, newFeeId, nextYear).status != Forbidden
    ensures forall teacherHeader, code, title, maxSeats ::
      Courses.CreateCourseRequest(db, roleHeader, teacherHeader, code, title, maxSeats).status != Forbidden
    ensures forall code, title, maxSeats, teacher ::
      Courses.UpdateCourseRequest(db, roleHeader, code, title, maxSeats, teacher).status != Forbidden
    ensures forall id, status :: FeeReport.UpdateFeeStatusRequest(db, roleHeader, id, status).status != Forbidden
  {
  }
}
