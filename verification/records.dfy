/**
 * The record types of the university portal's store, the reply statuses of
 * its handlers, and the constants the handlers use. Every identifier is a
 * plain string; nothing here enforces that one record's identifier names
 * another record.
 */
module Records {

  import opened Wrappers

  /** The status classes the handlers answer with (the 500 path is not modelled). */
  datatype Status = OK | Created | BadRequest | Forbidden | NotFound | Conflict

  /** Days are abstract day numbers; hours inside a day are not modelled. */
  type Day = int

  datatype Role = Student | Teacher | Admin

  /**
   * A user's stored studentId: the document may have no such field at all
   * (the seeded staff), hold null (a teacher who signed up), or hold a string.
   */
  datatype StoredId = NoField | Null | Id(value: string)

  datatype User = User(
    id: string,                         // the document identifier, as a string
    username: string,
    password: string,
    role: Role,
    studentId: StoredId,
    name: string,
    coursesTaught: Option<seq<string>>)

  datatype Course = Course(
    courseCode: string,
    title: string,
    teacherUsername: string,
    maxSeats: int,
    enrolled: seq<string>,
    waitlist: seq<string>)

  datatype Fee = Fee(
    id: string,
    studentId: string,
    amountDue: int,
    paymentStatus: string,
    dueDate: Day,
    semester: Option<string>)           // the only optional field of a fee

  datatype Appointment = Appointment(studentId: string, teacherUsername: string, topic: string)

  datatype Ticket = Ticket(submittedBy: string, submittedRole: string, title: string)

  datatype Timetable = Timetable(course: string, day: string, startTime: string, teacherUsername: string)

  datatype AttendanceStatus = Present | Absent | Late

  datatype Attendance = Attendance(studentId: string, course: string, date: Day, status: AttendanceStatus)

  datatype Mark = Mark(studentId: string, course: string, examType: string, score: int, maxScore: int)

  /** The whole store: one sequence per collection, in natural (insertion) order. */
  datatype Db = Db(
    users: seq<User>,
    courses: seq<Course>,
    fees: seq<Fee>,
    appointments: seq<Appointment>,
    tickets: seq<Ticket>,
    timetables: seq<Timetable>,
    attendance: seq<Attendance>,
    marks: seq<Mark>)

  /** What a handler answers and the store it leaves behind. */
  datatype Reply = Reply(status: Status, db: Db)

  /** The reserved student identifier under which class averages are stored as marks. */
  const ClassAvgId: string := "CLASS_AVG"
  const TeacherSecretKey: string := "admin123"
  const DefaultFeeAmount: int := 5000
  const DefaultMaxScore: int := 100
  const NewEnrollmentSemester: string := "New Enrollment"
  const NoRecordStatus: string := "No Record"
  const NoSemester: string := "N/A"

  /**
   * The staff guard in front of every staff-only handler: the caller's role
   * header must be 'teacher' or 'admin', otherwise the answer is 403.
   */
  predicate IsStaff(roleHeader: Option<string>) {
    roleHeader == Some("teacher") || roleHeader == Some("admin")
  }

  /** The filter of a lookup by document identifier. */
  function UserWithId(id: string): User -> bool {
    (u: User) => u.id == id
  }

  /** The filter of a lookup of a course by its code. */
  function CourseWithCode(code: string): Course -> bool {
    (c: Course) => c.courseCode == code
  }

  /** Some user has this studentId and the role 'student' (the student lookup of several handlers). */
  predicate StudentExists(users: seq<User>, sid: string) {
    exists u :: u in users && u.role == Student && u.studentId == Id(sid)
  }

  /** The payment statuses the fee schema admits. */
  predicate IsPaymentStatus(s: string) {
    s == "Unpaid" || s == "Partially Paid" || s == "Fully Paid"
  }

  /** A request string field counts as given when it is present and not empty (JavaScript truthiness). */
  predicate Given(v: Option<string>) {
    v.Some? && v.value != ""
  }

  /** A request number field counts as given when it is present and not zero. */
  predicate GivenNumber(v: Option<int>) {
    v.Some? && v.value != 0
  }

  /** The attendance status of a request: absent means the schema default 'Present'. */
  function ParseAttendanceStatus(v: Option<string>): (r: Option<AttendanceStatus>)
    ensures v.None? ==> r == Some(Present)
    ensures v == Some("Present") ==> r == Some(Present)
    ensures v == Some("Absent") ==> r == Some(Absent)
    ensures v == Some("Late") ==> r == Some(Late)
    ensures r.None? <==> v.Some? && v.value != "Present" && v.value != "Absent" && v.value != "Late"
  {
    match v
    case None => Some(Present)
    case Some(s) =>
      if s == "Present" then Some(Present)
      else if s == "Absent" then Some(Absent)
      else if s == "Late" then Some(Late)
      else None
  }
}
