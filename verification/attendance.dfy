/**
 * Attendance: the log handler (one record per student, course and day) and
 * the per-course summary of one student's records.
 */
module AttendanceLog {

  import opened Wrappers
  import opened Records
  import opened Seqs

  /** The duplicate query: a record of this student for this course on this day. */
  function SameSession(sid: string, course: string, day: Day): Attendance -> bool {
    (a: Attendance) => a.studentId == sid && a.course == course && a.date == day
  }

  /**
   * The log handler: 403 for other roles; 404 when no student has the
   * studentId; 400 when the date does not parse; 409 when the student already
   * has a record for the course on that day; 400 when the status is not one
   * of the schema's three; otherwise 201 and exactly one record appended.
   */
  function LogAttendanceRequest(db: Db, roleHeader: Option<string>, sid: string, course: string,
                                date: Option<Day>, status: Option<string>): (r: Reply)
    ensures !IsStaff(roleHeader) ==> r == Reply(Forbidden, db)
    ensures r.status == Forbidden <==> !IsStaff(roleHeader)
    ensures IsStaff(roleHeader) && !StudentExists(db.users, sid) ==> r == Reply(NotFound, db)
    ensures IsStaff(roleHeader) && StudentExists(db.users, sid) && date.None? ==> r == Reply(BadRequest, db)
    ensures (&& IsStaff(roleHeader) && StudentExists(db.users, sid) && date.Some?
             && (forall a :: a in db.attendance ==> !SameSession(sid, course, date.value)(a))
             && ParseAttendanceStatus(status).None?) ==> r == Reply(BadRequest, db)
    ensures IsStaff(roleHeader) && StudentExists(db.users, sid) && date.Some? ==>
      (r.status == Conflict <==> exists a :: a in db.attendance && SameSession(sid, course, date.value)(a))
    ensures r.status in {Created, BadRequest, NotFound, Forbidden, Conflict}
    ensures r.status != Created ==> r.db == db
    ensures r.status == Created <==>
      && IsStaff(roleHeader) && StudentExists(db.users, sid) && date.Some?
      && (forall a :: a in db.attendance ==> !SameSession(sid, course, date.value)(a))
      && ParseAttendanceStatus(status).Some?
    ensures r.status == Created ==>
      r.db == db.(attendance := db.attendance + [Attendance(sid, course, date.value, ParseAttendanceStatus(status).value)])
  {
    if !IsStaff(roleHeader) then Reply(Forbidden, db)
    else if !StudentExists(db.users, sid) then Reply(NotFound, db)
    else if date.None? then Reply(BadRequest, db)
    else if FindFirst(db.attendance, SameSession(sid, course, date.value)).Some? then Reply(Conflict, db)
    else match ParseAttendanceStatus(status)
      case None => Reply(BadRequest, db)
      case Some(st) => Reply(Created, db.(attendance := db.attendance + [Attendance(sid, course, date.value, st)]))
  }

  /** No two records share student, course and day. */
  predicate SessionsUnique(att: seq<Attendance>) {
    forall i, j :: 0 <= i < j < |att| ==> !SameSession(att[i].studentId, att[i].course, att[i].date)(att[j])
  }

  /** The log handler never creates a second record for a student, course and day. */
  lemma LogKeepsSessionsUnique(db: Db, roleHeader: Option<string>, sid: string, course: string,
                               date: Option<Day>, status: Option<string>)
    requires SessionsUnique(db.attendance)
    ensures SessionsUnique(LogAttendanceRequest(db, roleHeader, sid, course, date, status).db.attendance)
  {
    var r := LogAttendanceRequest(db, roleHeader, sid, course, date, status);
    if r.status == Created {
      var att := r.db.attendance;
      forall i, j | 0 <= i < j < |att|
        ensures !SameSession(att[i].studentId, att[i].course, att[i].date)(att[j])
      {
        if j == |db.attendance| {
          assert att[i] in db.attendance;
        }
      }
    }
  }

  /** Logging the same record twice: the second request is refused with 409 and changes nothing. */
  lemma LogTwiceConflicts(db: Db, roleHeader: Option<string>, sid: string, course: string,
                          date: Option<Day>, status: Option<string>)
    requires LogAttendanceRequest(db, roleHeader, sid, course, date, status).status == Created
    ensures var once := LogAttendanceRequest(db, roleHeader, sid, course, date, status).db;
      LogAttendanceRequest(once, roleHeader, sid, course, date, status) == Reply(Conflict, once)
  {
    var once := LogAttendanceRequest(db, roleHeader, sid, course, date, status).db;
    assert once.users == db.users;
    var added := once.attendance[|once.attendance| - 1];
    assert added in once.attendance && SameSession(sid, course, date.value)(added);
  }

  // ------------------------------------------------------------------ summary

  function OfIn(sid: string, course: string): Attendance -> bool {
    (a: Attendance) => a.studentId == sid && a.course == course
  }

  function PresentIn(sid: string, course: string): Attendance -> bool {
    (a: Attendance) => a.studentId == sid && a.course == course && a.status == Present
  }

  /** The courses in which the student has attendance records. */
  function CoursesAttended(att: seq<Attendance>, sid: string): set<string> {
    set a | a in att && a.studentId == sid :: a.course
  }

  datatype SummaryRow = SummaryRow(totalClasses: nat, presentCount: nat)

  /**
   * The summary aggregation: the student's records grouped by course, each
   * group counting its records and those with status 'Present'.
   */
  function Summary(att: seq<Attendance>, sid: string): (r: map<string, SummaryRow>)
    ensures r.Keys == CoursesAttended(att, sid)
  {
    map c | c in CoursesAttended(att, sid) :: SummaryRow(|Filter(att, OfIn(sid, c))|, |Filter(att, PresentIn(sid, c))|)
  }

  /** Every group has at least one record, and no more present records than records. */
  lemma SummaryBounds(att: seq<Attendance>, sid: string)
    ensures forall c :: c in Summary(att, sid) ==>
      1 <= Summary(att, sid)[c].totalClasses && Summary(att, sid)[c].presentCount <= Summary(att, sid)[c].totalClasses
  {
    forall c | c in Summary(att, sid)
      ensures 1 <= Summary(att, sid)[c].totalClasses
      ensures Summary(att, sid)[c].presentCount <= Summary(att, sid)[c].totalClasses
    {
      var a :| a in att && a.studentId == sid && a.course == c;
      assert a in Filter(att, OfIn(sid, c));
      FilterNarrowLength(att, OfIn(sid, c), PresentIn(sid, c));
    }
  }

  /** The percentage of a summary row, as an exact quotient. */
  function Percentage(row: SummaryRow): (p: real)
    requires row.totalClasses > 0
    ensures row.presentCount <= row.totalClasses ==> 0.0 <= p <= 100.0
    ensures p == 100.0 <==> row.presentCount == row.totalClasses
  {
    var n := row.presentCount as real;
    var d := row.totalClasses as real;
    QuotientBounds(n, d);
    n / d * 100.0
  }

  /** The quotient of a count by a larger positive count lies in [0, 1], and is 1 only for equal counts. */
  lemma QuotientBounds(n: real, d: real)
    requires 0.0 <= n && 0.0 < d
    ensures 0.0 <= n / d
    ensures n <= d ==> n / d <= 1.0
    ensures n / d == 1.0 <==> n == d
  {
    var q := n / d;
    assert q * d == n;
    if n == d {
      assert !(q < 1.0);
      assert !(q > 1.0);
    }
  }

  lemma CountsAppend(att: seq<Attendance>, rec: Attendance, sid: string, c: string)
    ensures |Filter(att + [rec], OfIn(sid, c))| == |Filter(att, OfIn(sid, c))| + (if OfIn(sid, c)(rec) then 1 else 0)
    ensures |Filter(att + [rec], PresentIn(sid, c))| == |Filter(att, PresentIn(sid, c))| + (if PresentIn(sid, c)(rec) then 1 else 0)
  {
    FilterAppend(att, [rec], OfIn(sid, c));
    FilterAppend(att, [rec], PresentIn(sid, c));
    assert Filter([rec], OfIn(sid, c)) == (if OfIn(sid, c)(rec) then [rec] else []) + Filter([], OfIn(sid, c));
    assert Filter([rec], PresentIn(sid, c)) == (if PresentIn(sid, c)(rec) then [rec] else []) + Filter([], PresentIn(sid, c));
  }

  lemma CoursesAttendedAppend(att: seq<Attendance>, rec: Attendance, sid: string)
    ensures CoursesAttended(att + [rec], sid) == CoursesAttended(att, sid) + (if rec.studentId == sid then {rec.course} else {})
  {
    assert forall x: Attendance :: x in att + [rec] <==> x in att || x == rec;
  }

  /** Appending one record of the student changes only its course's group, by one. */
  lemma SummaryAppend(att: seq<Attendance>, rec: Attendance, sid: string)
    requires rec.studentId == sid
    ensures var before := Summary(att, sid);
      var after := Summary(att + [rec], sid);
      var prev := if rec.course in before then before[rec.course] else SummaryRow(0, 0);
      && after.Keys == before.Keys + {rec.course}
      && after[rec.course].totalClasses == prev.totalClasses + 1
      && after[rec.course].presentCount == prev.presentCount + (if rec.status == Present then 1 else 0)
      && forall c :: c in before && c != rec.course ==> after[c] == before[c]
  {
    CoursesAttendedAppend(att, rec, sid);
    CountsAppend(att, rec, sid, rec.course);
    forall c | c in Summary(att, sid) && c != rec.course
      ensures Summary(att + [rec], sid)[c] == Summary(att, sid)[c]
    {
      CountsAppend(att, rec, sid, c);
    }
    if rec.course !in CoursesAttended(att, sid) {
      FilterRejectsAll(att, OfIn(sid, rec.course));
      FilterNarrowLength(att, OfIn(sid, rec.course), PresentIn(sid, rec.course));
    }
  }

  /**
   * A logged record adds one to its course's total, and one to its present
   * count exactly when its status is 'Present' (given or defaulted); every
   * other group is unchanged.
   */
  lemma LogThenSummary(db: Db, roleHeader: Option<string>, sid: string, course: string,
                       date: Option<Day>, status: Option<string>)
    requires LogAttendanceRequest(db, roleHeader, sid, course, date, status).status == Created
    ensures var before := Summary(db.attendance, sid);
      var after := Summary(LogAttendanceRequest(db, roleHeader, sid, course, date, status).db.attendance, sid);
      var prev := if course in before then before[course] else SummaryRow(0, 0);
      && after.Keys == before.Keys + {course}
      && after[course].totalClasses == prev.totalClasses + 1
      && after[course].presentCount == prev.presentCount + (if status.None? || status == Some("Present") then 1 else 0)
      && forall c :: c in before && c != course ==> after[c] == before[c]
  {
    var rec := Attendance(sid, course, date.value, ParseAttendanceStatus(status).value);
    SummaryAppend(db.attendance, rec, sid);
  }
}
