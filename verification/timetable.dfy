/**
 * The timetable a user sees, chosen by the role in the request path: staff
 * see the slots they teach; a student sees the slots of every course they
 * are enrolled or waitlisted in; any other role is refused. Sorting by day
 * and start time is not modelled: slots come in store order.
 */
module Schedule {

  import opened Wrappers
  import opened Records
  import opened Seqs
  import Accounts

  datatype ScheduleReply = ScheduleReply(status: Status, slots: seq<Timetable>)

  predicate IsStaffRole(userRole: string) {
    userRole == "teacher" || userRole == "admin"
  }

  function TaughtBy(username: string): Timetable -> bool {
    (t: Timetable) => t.teacherUsername == username
  }

  function InCourses(codes: seq<string>): Timetable -> bool {
    (t: Timetable) => t.course in codes
  }

  /** The student is on the course's enrolled list or on its waitlist. */
  predicate Related(c: Course, sid: string) {
    sid in c.enrolled || sid in c.waitlist
  }

  /** The user's stored studentId is a string that is not empty. */
  predicate HasStudentId(u: User) {
    u.studentId.Id? && u.studentId.value != ""
  }

  /**
   * The studentId of the first user with the username, whatever their
   * role, when that user has one that is not empty.
   */
  function StudentIdOf(users: seq<User>, username: string): (r: Option<string>)
    ensures r.Some? ==> exists u :: u in users && u.username == username && u.studentId == Id(r.value) && r.value != ""
    ensures (forall u :: u in users ==> u.username != username) ==> r.None?
    ensures Accounts.UsernamesUnique(users) ==>
      (r.None? <==> forall u :: u in users && u.username == username ==> !HasStudentId(u))
  {
    match FindFirst(users, Accounts.UserNamed(username))
    case None => None
    case Some(i) => if HasStudentId(users[i]) then Some(users[i].studentId.value) else None
  }

  /** The codes of the courses the student is enrolled or waitlisted in, in store order. */
  function CodesOf(courses: seq<Course>, sid: string): (r: seq<string>)
    ensures forall code :: code in r <==> exists c :: c in courses && c.courseCode == code && Related(c, sid)
    ensures r == [] <==> forall c :: c in courses ==> !Related(c, sid)
  {
    if courses == [] then []
    else
      var rest := CodesOf(courses[1..], sid);
      assert forall c :: c in courses <==> c == courses[0] || c in courses[1..];
      (if Related(courses[0], sid) then [courses[0].courseCode] else []) + rest
  }

  /**
   * The handler: 403 for a role other than teacher, admin or student; for
   * staff the slots taught by the username; for a student without a
   * registered studentId, or in no course, nothing; otherwise the slots of
   * the student's courses.
   */
  function ScheduleFor(db: Db, userRole: string, username: string): (r: ScheduleReply)
    ensures r.status in {OK, Forbidden}
    ensures r.status == Forbidden <==> !IsStaffRole(userRole) && userRole != "student"
    ensures r.status == Forbidden ==> r.slots == []
    ensures forall t :: t in r.slots ==> t in db.timetables
    ensures IsStaffRole(userRole) ==>
      forall t :: t in r.slots <==> t in db.timetables && t.teacherUsername == username
    ensures userRole == "student" && StudentIdOf(db.users, username).None? ==> r.slots == []
    ensures userRole == "student" && StudentIdOf(db.users, username).Some? ==>
      var sid := StudentIdOf(db.users, username).value;
      forall t :: t in r.slots <==>
        t in db.timetables && exists c :: c in db.courses && c.courseCode == t.course && Related(c, sid)
  {
    if IsStaffRole(userRole) then ScheduleReply(OK, Filter(db.timetables, TaughtBy(username)))
    else if userRole == "student" then
      match StudentIdOf(db.users, username)
      case None => ScheduleReply(OK, [])
      case Some(sid) =>
        var codes := CodesOf(db.courses, sid);
        if codes == [] then ScheduleReply(OK, [])
        else ScheduleReply(OK, Filter(db.timetables, InCourses(codes)))
    else ScheduleReply(Forbidden, [])
  }

  /** Which stored slots the user may see, stated without the handler's intermediate course query. */
  function Visible(db: Db, userRole: string, username: string): Timetable -> bool {
    (t: Timetable) =>
      if IsStaffRole(userRole) then t.teacherUsername == username
      else if userRole == "student" then
        match StudentIdOf(db.users, username)
        case None => false
        case Some(sid) => exists c :: c in db.courses && c.courseCode == t.course && Related(c, sid)
      else false
  }

  /**
   * The schedule is exactly the stored slots that are visible, each as
   * often and in the order stored: the early return for a student in no
   * course changes nothing.
   */
  lemma {:induction false} ScheduleIsVisibleSlots(db: Db, userRole: string, username: string)
    ensures ScheduleFor(db, userRole, username).slots == Filter(db.timetables, Visible(db, userRole, username))
    ensures KeepsWhole(ScheduleFor(db, userRole, username).slots, db.timetables, Visible(db, userRole, username))
  {
    var vis := Visible(db, userRole, username);
    if IsStaffRole(userRole) {
      FilterEquiv(db.timetables, TaughtBy(username), vis);
    } else if userRole == "student" && StudentIdOf(db.users, username).Some? {
      var sid := StudentIdOf(db.users, username).value;
      var codes := CodesOf(db.courses, sid);
      if codes == [] {
        FilterRejectsAll(db.timetables, vis);
      } else {
        FilterEquiv(db.timetables, InCourses(codes), vis);
      }
    } else {
      FilterRejectsAll(db.timetables, vis);
    }
    FilterFrame(db.timetables, vis);
  }
}
