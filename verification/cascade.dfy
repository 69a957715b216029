/**
 * The delete cascades of the student and course delete handlers. The store
 * enforces no reference between collections, so each handler deletes the
 * primary document and then issues one delete-by-filter per dependent
 * collection; each such delete is a filter of that collection.
 */
module Cascade {

  import opened Wrappers
  import opened Records
  import opened Seqs

  /**
   * The dependent deletes' filter on the deleted user's studentId matches the
   * record. A stored string matches the records with that studentId. A stored
   * null matches only records without one, and every dependent record has
   * one. A user document without the field gives an undefined filter value,
   * which the store drops from the query, so every record matches.
   */
  predicate RefersTo(recordStudentId: string, u: User) {
    match u.studentId
    case NoField => true
    case Null => false
    case Id(sid) => sid == recordStudentId
  }

  /** The ticket filter: submitted under `u`'s username with the role 'student'. */
  predicate SubmittedBy(t: Ticket, u: User) {
    t.submittedBy == u.username && t.submittedRole == "student"
  }

  function MarkKept(u: User): Mark -> bool { (m: Mark) => !RefersTo(m.studentId, u) }
  function AttendanceKept(u: User): Attendance -> bool { (a: Attendance) => !RefersTo(a.studentId, u) }
  function FeeKept(u: User): Fee -> bool { (f: Fee) => !RefersTo(f.studentId, u) }
  function AppointmentKept(u: User): Appointment -> bool { (a: Appointment) => !RefersTo(a.studentId, u) }
  function TicketKept(u: User): Ticket -> bool { (t: Ticket) => !SubmittedBy(t, u) }

  /** No mark, attendance, fee, appointment or ticket is left that refers to `u`. */
  predicate NoDependentsOf(db: Db, u: User) {
    && (forall m :: m in db.marks ==> !RefersTo(m.studentId, u))
    && (forall a :: a in db.attendance ==> !RefersTo(a.studentId, u))
    && (forall f :: f in db.fees ==> !RefersTo(f.studentId, u))
    && (forall a :: a in db.appointments ==> !RefersTo(a.studentId, u))
    && (forall t :: t in db.tickets ==> !SubmittedBy(t, u))
  }

  /** The five dependent deletes of the student delete handler, in the handler's order. */
  function CascadeStudent(db: Db, u: User): (r: Db)
    ensures NoDependentsOf(r, u)
    ensures r.users == db.users && r.courses == db.courses && r.timetables == db.timetables
    ensures forall m :: m in db.marks && !RefersTo(m.studentId, u) ==> m in r.marks
    ensures forall a :: a in db.attendance && !RefersTo(a.studentId, u) ==> a in r.attendance
    ensures forall f :: f in db.fees && !RefersTo(f.studentId, u) ==> f in r.fees
    ensures forall a :: a in db.appointments && !RefersTo(a.studentId, u) ==> a in r.appointments
    ensures forall t :: t in db.tickets && !SubmittedBy(t, u) ==> t in r.tickets
  {
    db.(marks := Filter(db.marks, MarkKept(u)),
        attendance := Filter(db.attendance, AttendanceKept(u)),
        fees := Filter(db.fees, FeeKept(u)),
        appointments := Filter(db.appointments, AppointmentKept(u)),
        tickets := Filter(db.tickets, TicketKept(u)))
  }

  /**
   * Every dependent record that does not refer to the deleted user survives
   * with its multiplicity, and the survivors keep their relative order.
   */
  lemma CascadeStudentKeepsOthers(db: Db, u: User)
    ensures KeepsWhole(CascadeStudent(db, u).marks, db.marks, MarkKept(u))
    ensures KeepsWhole(CascadeStudent(db, u).attendance, db.attendance, AttendanceKept(u))
    ensures KeepsWhole(CascadeStudent(db, u).fees, db.fees, FeeKept(u))
    ensures KeepsWhole(CascadeStudent(db, u).appointments, db.appointments, AppointmentKept(u))
    ensures KeepsWhole(CascadeStudent(db, u).tickets, db.tickets, TicketKept(u))
  {
    FilterFrame(db.marks, MarkKept(u));
    FilterFrame(db.attendance, AttendanceKept(u));
    FilterFrame(db.fees, FeeKept(u));
    FilterFrame(db.appointments, AppointmentKept(u));
    FilterFrame(db.tickets, TicketKept(u));
  }

  /** Running the cascade again removes nothing more, so a retried cascade is harmless. */
  lemma CascadeStudentIdempotent(db: Db, u: User)
    ensures CascadeStudent(CascadeStudent(db, u), u) == CascadeStudent(db, u)
  {
    var r := CascadeStudent(db, u);
    FilterKeepsAll(r.marks, MarkKept(u));
    FilterKeepsAll(r.attendance, AttendanceKept(u));
    FilterKeepsAll(r.fees, FeeKept(u));
    FilterKeepsAll(r.appointments, AppointmentKept(u));
    FilterKeepsAll(r.tickets, TicketKept(u));
  }

  /**
   * Deleting a user document that has no studentId field (a seeded teacher or
   * admin) empties the marks, attendance, fees and appointments of everyone.
   */
  lemma {:induction false} CascadeWithoutStudentIdField(db: Db, u: User)
    requires u.studentId == NoField
    ensures var r := CascadeStudent(db, u);
      r.marks == [] && r.attendance == [] && r.fees == [] && r.appointments == []
  {
    FilterRejectsAll(db.marks, MarkKept(u));
    FilterRejectsAll(db.attendance, AttendanceKept(u));
    FilterRejectsAll(db.fees, FeeKept(u));
    FilterRejectsAll(db.appointments, AppointmentKept(u));
  }

  /** Deleting a user whose stored studentId is null removes only that user's student tickets. */
  lemma {:induction false} CascadeNullStudentId(db: Db, u: User)
    requires u.studentId == Null
    ensures CascadeStudent(db, u) == db.(tickets := Filter(db.tickets, TicketKept(u)))
  {
    FilterKeepsAll(db.marks, MarkKept(u));
    FilterKeepsAll(db.attendance, AttendanceKept(u));
    FilterKeepsAll(db.fees, FeeKept(u));
    FilterKeepsAll(db.appointments, AppointmentKept(u));
  }

  /**
   * The student delete handler: the primary delete by document identifier
   * (404 when no user has it, and then nothing is deleted), followed by the
   * cascade keyed on the deleted user's studentId and username.
   */
  function DeleteStudentRequest(db: Db, roleHeader: Option<string>, id: string): (r: Reply)
    ensures !IsStaff(roleHeader) ==> r == Reply(Forbidden, db)
    ensures r.status == Forbidden <==> !IsStaff(roleHeader)
    ensures IsStaff(roleHeader) ==> (r.status == NotFound <==> forall u :: u in db.users ==> u.id != id)
    ensures r.status == OK <==> IsStaff(roleHeader) && exists u :: u in db.users && u.id == id
    ensures r.status in {OK, NotFound, Forbidden}
    ensures r.status != OK ==> r.db == db
    ensures r.status == OK ==>
      var i := FindFirst(db.users, UserWithId(id));
      && i.Some? && db.users[i.value].id == id
      && r.db.users == RemoveAt(db.users, i.value)
      && NoDependentsOf(r.db, db.users[i.value])
      && r.db == CascadeStudent(db, db.users[i.value]).(users := r.db.users)
  {
    if !IsStaff(roleHeader) then Reply(Forbidden, db)
    else match FindFirst(db.users, UserWithId(id))
      case None => Reply(NotFound, db)
      case Some(i) => Reply(OK, CascadeStudent(db.(users := RemoveAt(db.users, i)), db.users[i]))
  }

  function TimetableKept(code: string): Timetable -> bool { (t: Timetable) => t.course != code }
  function MarkKeptForCourse(code: string): Mark -> bool { (m: Mark) => m.course != code }
  function AttendanceKeptForCourse(code: string): Attendance -> bool { (a: Attendance) => a.course != code }

  /** No timetable slot, mark or attendance record is left for the course code. */
  predicate NoRecordsOfCourse(db: Db, code: string) {
    && (forall t :: t in db.timetables ==> t.course != code)
    && (forall m :: m in db.marks ==> m.course != code)
    && (forall a :: a in db.attendance ==> a.course != code)
  }

  /** The three dependent deletes of the course delete handler. */
  function CascadeCourse(db: Db, code: string): (r: Db)
    ensures NoRecordsOfCourse(r, code)
    ensures r.users == db.users && r.courses == db.courses && r.fees == db.fees
    ensures r.appointments == db.appointments && r.tickets == db.tickets
    ensures forall t :: t in db.timetables && t.course != code ==> t in r.timetables
    ensures forall m :: m in db.marks && m.course != code ==> m in r.marks
    ensures forall a :: a in db.attendance && a.course != code ==> a in r.attendance
  {
    db.(timetables := Filter(db.timetables, TimetableKept(code)),
        marks := Filter(db.marks, MarkKeptForCourse(code)),
        attendance := Filter(db.attendance, AttendanceKeptForCourse(code)))
  }

  /** Other courses' records survive with their multiplicity and in their relative order. */
  lemma CascadeCourseKeepsOthers(db: Db, code: string)
    ensures KeepsWhole(CascadeCourse(db, code).timetables, db.timetables, TimetableKept(code))
    ensures KeepsWhole(CascadeCourse(db, code).marks, db.marks, MarkKeptForCourse(code))
    ensures KeepsWhole(CascadeCourse(db, code).attendance, db.attendance, AttendanceKeptForCourse(code))
  {
    FilterFrame(db.timetables, TimetableKept(code));
    FilterFrame(db.marks, MarkKeptForCourse(code));
    FilterFrame(db.attendance, AttendanceKeptForCourse(code));
  }

  /**
   * The course delete handler: the primary delete of the first course with
   * the code (404 when there is none, and then nothing is deleted), followed
   * by the cascade on the code.
   */
  function DeleteCourseRequest(db: Db, roleHeader: Option<string>, code: string): (r: Reply)
    ensures !IsStaff(roleHeader) ==> r == Reply(Forbidden, db)
    ensures r.status == Forbidden <==> !IsStaff(roleHeader)
    ensures IsStaff(roleHeader) ==> (r.status == NotFound <==> forall c :: c in db.courses ==> c.courseCode != code)
    ensures r.status == OK <==> IsStaff(roleHeader) && exists c :: c in db.courses && c.courseCode == code
    ensures r.status in {OK, NotFound, Forbidden}
    ensures r.status != OK ==> r.db == db
    ensures r.status == OK ==>
      var i := FindFirst(db.courses, CourseWithCode(code));
      && i.Some? && db.courses[i.value].courseCode == code
      && r.db.courses == RemoveAt(db.courses, i.value)
      && NoRecordsOfCourse(r.db, code)
      && r.db == CascadeCourse(db, code).(courses := r.db.courses)
  {
    if !IsStaff(roleHeader) then Reply(Forbidden, db)
    else match FindFirst(db.courses, CourseWithCode(code))
      case None => Reply(NotFound, db)
      case Some(i) => Reply(OK, CascadeCourse(db.(courses := RemoveAt(db.courses, i)), code))
  }
}
