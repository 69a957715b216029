/**
 * Accounts: self-registration (a student by studentId, a teacher by the
 * secret key) and the staff tool that adds a student. Both create the new
 * student's first fee record. Fresh document identifiers and the due date
 * one year ahead are parameters.
 */
module Accounts {

  import opened Wrappers
  import opened Records
  import opened Seqs
  import FeeReport

  function UserNamed(username: string): User -> bool {
    (u: User) => u.username == username
  }

  /** No two users share a username. */
  predicate UsernamesUnique(users: seq<User>) {
    forall i, j :: 0 <= i < j < |users| ==> users[i].username != users[j].username
  }

  /** No two students share a studentId. */
  predicate StudentIdsUnique(users: seq<User>) {
    forall i, j ::
      (0 <= i < j < |users| && users[i].role == Student && users[j].role == Student && users[i].studentId.Id?) ==>
        users[i].studentId != users[j].studentId
  }

  /** The fee record created with every new student. */
  function EnrollmentFee(id: string, sid: string, nextYear: Day): Fee {
    Fee(id, sid, DefaultFeeAmount, "Unpaid", nextYear, Some(NewEnrollmentSemester))
  }

  /** The signup form is incomplete: a field is missing, or neither a studentId nor the right secret key is given. */
  predicate SignupIncomplete(name: Option<string>, studentId: Option<string>, username: Option<string>,
                             password: Option<string>, secretKey: Option<string>) {
    !Given(name) || !Given(username) || !Given(password) || (!Given(studentId) && secretKey != Some(TeacherSecretKey))
  }

  /**
   * The signup handler: 400 for an incomplete form, 403 for a wrong secret
   * key, 409 for a taken username or (for a student) a registered
   * studentId; otherwise 201, the new user appended and, for a student, the
   * enrollment fee appended.
   */
  function SignupRequest(db: Db, name: Option<string>, studentId: Option<string>, username: Option<string>,
                         password: Option<string>, secretKey: Option<string>,
                         newUserId: string, newFeeId: string, nextYear: Day): (r: Reply)
    ensures r.status == BadRequest <==> SignupIncomplete(name, studentId, username, password, secretKey)
    ensures r.status == Forbidden <==>
      !SignupIncomplete(name, studentId, username, password, secretKey) &&
      Given(secretKey) && secretKey != Some(TeacherSecretKey)
    ensures r.status in {Created, BadRequest, Forbidden, Conflict}
    ensures r.status != Created ==> r.db == db
    ensures r.status == Conflict ==>
      (exists u :: u in db.users && u.username == username.value) ||
      (secretKey != Some(TeacherSecretKey) && StudentExists(db.users, studentId.value))
    ensures r.status == Created ==>
      && (forall u :: u in db.users ==> u.username != username.value)
      && var role := if secretKey == Some(TeacherSecretKey) then Teacher else Student;
      && (role == Student ==> !StudentExists(db.users, studentId.value))
      && r.db.users == db.users + [User(newUserId, username.value, password.value, role,
                                        if Given(studentId) then Id(studentId.value) else Null, name.value,
                                        if role == Teacher then Some([]) else None)]
      && r.db.fees == db.fees + (if role == Student then [EnrollmentFee(newFeeId, studentId.value, nextYear)] else [])
      && r.db == db.(users := r.db.users, fees := r.db.fees)
  {
    if SignupIncomplete(name, studentId, username, password, secretKey) then Reply(BadRequest, db)
    else if secretKey != Some(TeacherSecretKey) && Given(secretKey) then Reply(Forbidden, db)
    else
      var role := if secretKey == Some(TeacherSecretKey) then Teacher else Student;
      if FindFirst(db.users, UserNamed(username.value)).Some? then Reply(Conflict, db)
      else if role == Student && StudentExists(db.users, studentId.value) then Reply(Conflict, db)
      else
        var u := User(newUserId, username.value, password.value, role,
                      if Given(studentId) then Id(studentId.value) else Null, name.value,
                      if role == Teacher then Some([]) else None);
        var fees := db.fees + (if role == Student then [EnrollmentFee(newFeeId, studentId.value, nextYear)] else []);
        Reply(Created, db.(users := db.users + [u], fees := fees))
  }

  /** Signup keeps usernames unique, and studentIds unique among students. */
  lemma SignupKeepsUnique(db: Db, name: Option<string>, studentId: Option<string>, username: Option<string>,
                          password: Option<string>, secretKey: Option<string>,
                          newUserId: string, newFeeId: string, nextYear: Day)
    requires UsernamesUnique(db.users) && StudentIdsUnique(db.users)
    ensures var r := SignupRequest(db, name, studentId, username, password, secretKey, newUserId, newFeeId, nextYear);
      UsernamesUnique(r.db.users) && StudentIdsUnique(r.db.users)
  {
    var r := SignupRequest(db, name, studentId, username, password, secretKey, newUserId, newFeeId, nextYear);
    if r.status == Created {
      var users := r.db.users;
      var n := |db.users|;
      forall i, j | 0 <= i < j < |users|
        ensures users[i].username != users[j].username
        ensures users[i].role == Student && users[j].role == Student && users[i].studentId.Id? ==>
          users[i].studentId != users[j].studentId
      {
        if j == n {
          assert users[i] == db.users[i] && users[i] in db.users;
        }
      }
    }
  }

  /** A registered student always has a fee record, so the fee report shows no default row for them. */
  lemma SignupStudentHasFee(db: Db, name: Option<string>, studentId: Option<string>, username: Option<string>,
                            password: Option<string>, secretKey: Option<string>,
                            newUserId: string, newFeeId: string, nextYear: Day)
    requires secretKey != Some(TeacherSecretKey)
    requires SignupRequest(db, name, studentId, username, password, secretKey, newUserId, newFeeId, nextYear).status == Created
    ensures var r := SignupRequest(db, name, studentId, username, password, secretKey, newUserId, newFeeId, nextYear);
      && FeeReport.Reportable(r.db.users[|r.db.users| - 1])
      && EnrollmentFee(newFeeId, studentId.value, nextYear) in FeeReport.FeesOf(r.db.fees, studentId.value)
  {
    var r := SignupRequest(db, name, studentId, username, password, secretKey, newUserId, newFeeId, nextYear);
    assert r.db.fees[|r.db.fees| - 1] == EnrollmentFee(newFeeId, studentId.value, nextYear);
  }

  /**
   * The staff tool's add-student handler: 403 for other roles, 409 when any
   * user has the username or the studentId; otherwise 201, the student and
   * the enrollment fee appended.
   */
  function AddStudentRequest(db: Db, roleHeader: Option<string>, name: string, studentId: string,
                             username: string, password: string,
                             newUserId: string, newFeeId: string, nextYear: Day): (r: Reply)
    ensures !IsStaff(roleHeader) ==> r == Reply(Forbidden, db)
    ensures IsStaff(roleHeader) ==>
      (r.status == Conflict <==> exists u :: u in db.users && (u.username == username || u.studentId == Id(studentId)))
    ensures r.status == Forbidden <==> !IsStaff(roleHeader)
    ensures r.status == Created <==>
      IsStaff(roleHeader) && forall u :: u in db.users ==> u.username != username && u.studentId != Id(studentId)
    ensures r.status in {Created, Forbidden, Conflict}
    ensures r.status != Created ==> r.db == db
    ensures r.status == Created ==>
      r.db == db.(users := db.users + [User(newUserId, username, password, Student, Id(studentId), name, None)],
                  fees := db.fees + [EnrollmentFee(newFeeId, studentId, nextYear)])
  {
    if !IsStaff(roleHeader) then Reply(Forbidden, db)
    else match FindFirst(db.users, (u: User) => u.username == username || u.studentId == Id(studentId))
      case Some(_) => Reply(Conflict, db)
      case None =>
        Reply(Created, db.(users := db.users + [User(newUserId, username, password, Student, Id(studentId), name, None)],
                           fees := db.fees + [EnrollmentFee(newFeeId, studentId, nextYear)]))
  }

  /** Adding a student keeps usernames unique, and studentIds unique among students. */
  lemma AddStudentKeepsUnique(db: Db, roleHeader: Option<string>, name: string, studentId: string,
                              username: string, password: string,
                              newUserId: string, newFeeId: string, nextYear: Day)
    requires UsernamesUnique(db.users) && StudentIdsUnique(db.users)
    ensures var r := AddStudentRequest(db, roleHeader, name, studentId, username, password, newUserId, newFeeId, nextYear);
      UsernamesUnique(r.db.users) && StudentIdsUnique(r.db.users)
  {
    var r := AddStudentRequest(db, roleHeader, name, studentId, username, password, newUserId, newFeeId, nextYear);
    if r.status == Created {
      var users := r.db.users;
      var n := |db.users|;
      forall i, j | 0 <= i < j < |users|
        ensures users[i].username != users[j].username
        ensures users[i].role == Student && users[j].role == Student && users[i].studentId.Id? ==>
          users[i].studentId != users[j].studentId
      {
        if j == n {
          assert users[i] == db.users[i] && users[i] in db.users;
        }
      }
    }
  }
}
