/**
 * The fee report (a left join of the students with their fee records, an
 * unwind that keeps students without fees, and a projection that fills in
 * defaults) and the fee status update, which only real fee records accept.
 */
module FeeReport {

  import opened Wrappers
  import opened Records
  import opened Seqs

  datatype FeeRow = FeeRow(
    id: string,
    studentId: string,
    studentName: string,
    amountDue: int,
    paymentStatus: string,
    dueDate: Day,
    semester: string)

  /** The match stage: role 'student' and a studentId that is not null. */
  predicate Reportable(u: User) {
    u.role == Student && u.studentId.Id?
  }

  function FeeOf(sid: string): Fee -> bool {
    (f: Fee) => f.studentId == sid
  }

  /** The fees the lookup stage joins to a student, in store order. */
  function FeesOf(fees: seq<Fee>, sid: string): (r: seq<Fee>)
    ensures forall f :: f in r <==> f in fees && f.studentId == sid
    ensures forall f :: multiset(r)[f] == if f.studentId == sid then multiset(fees)[f] else 0
    ensures Subseq(r, fees)
  {
    FilterCount(fees, FeeOf(sid));
    FilterIsSubseq(fees, FeeOf(sid));
    Filter(fees, FeeOf(sid))
  }

  /** The row of a student without fees: every field takes its default, the id is the user's. */
  function DefaultRow(u: User, nextYear: Day): FeeRow
    requires Reportable(u)
  {
    FeeRow(u.id, u.studentId.value, u.name, DefaultFeeAmount, NoRecordStatus, nextYear, NoSemester)
  }

  /** The row of one joined fee: the fee's fields, a missing semester defaulted. */
  function JoinedRow(u: User, f: Fee): FeeRow
    requires Reportable(u)
  {
    FeeRow(f.id, u.studentId.value, u.name, f.amountDue, f.paymentStatus, f.dueDate, f.semester.GetOr(NoSemester))
  }

  /** Where a row can come from: a joined fee of a reportable user, or the default row of one without fees. */
  predicate FromStore(row: FeeRow, users: seq<User>, fees: seq<Fee>, nextYear: Day) {
    exists u :: u in users && Reportable(u) &&
      (|| (FeesOf(fees, u.studentId.value) == [] && row == DefaultRow(u, nextYear))
       || (exists f :: f in fees && f.studentId == u.studentId.value && row == JoinedRow(u, f)))
  }

  /**
   * The rows of one student: one per joined fee, in store order and not
   * deduplicated, or exactly the default row when there is none.
   */
  function RowsOf(u: User, fees: seq<Fee>, nextYear: Day): (r: seq<FeeRow>)
    requires Reportable(u)
    ensures var fs := FeesOf(fees, u.studentId.value);
      && |r| == (if fs == [] then 1 else |fs|)
      && (fs == [] ==> r == [DefaultRow(u, nextYear)])
      && (forall k :: 0 <= k < |fs| ==> r[k] == JoinedRow(u, fs[k]))
    ensures forall row :: row in r ==> row.studentId == u.studentId.value && row.studentName == u.name
  {
    var fs := FeesOf(fees, u.studentId.value);
    if fs == [] then [DefaultRow(u, nextYear)]
    else seq(|fs|, k requires 0 <= k < |fs| => JoinedRow(u, fs[k]))
  }

  /** The whole report, students in store order. */
  function ProjectFees(users: seq<User>, fees: seq<Fee>, nextYear: Day): (r: seq<FeeRow>)
    ensures forall row :: row in r ==> FromStore(row, users, fees, nextYear)
  {
    if users == [] then []
    else
      var here := if Reportable(users[0]) then RowsOf(users[0], fees, nextYear) else [];
      var rest := ProjectFees(users[1..], fees, nextYear);
      assert forall row :: row in rest ==> FromStore(row, users, fees, nextYear) by {
        forall row | row in rest ensures FromStore(row, users, fees, nextYear) {
          var u :| u in users[1..] && Reportable(u) &&
            (|| (FeesOf(fees, u.studentId.value) == [] && row == DefaultRow(u, nextYear))
             || (exists f :: f in fees && f.studentId == u.studentId.value && row == JoinedRow(u, f)));
          assert u in users;
        }
      }
      assert forall row :: row in here ==> FromStore(row, users, fees, nextYear) by {
        forall row | row in here ensures FromStore(row, users, fees, nextYear) {
          var u := users[0];
          var fs := FeesOf(fees, u.studentId.value);
          if fs != [] {
            var k :| 0 <= k < |here| && here[k] == row;
            assert row == JoinedRow(u, fs[k]) && fs[k] in fees;
          }
        }
      }
      here + rest
  }

  /** Rows per student: at least one, one per fee when there are fees. */
  function RowCount(users: seq<User>, fees: seq<Fee>): nat {
    if users == [] then 0
    else
      (if Reportable(users[0]) then (var n := |FeesOf(fees, users[0].studentId.value)|; if n == 0 then 1 else n) else 0)
      + RowCount(users[1..], fees)
  }

  /** The report has the sum over reportable students of max(1, number of their fees) rows. */
  lemma {:induction false} ProjectionRowCount(users: seq<User>, fees: seq<Fee>, nextYear: Day)
    ensures |ProjectFees(users, fees, nextYear)| == RowCount(users, fees)
  {
    if users != [] {
      ProjectionRowCount(users[1..], fees, nextYear);
    }
  }

  /** No reportable student is omitted from the report. */
  lemma {:induction false} ProjectionIsTotal(users: seq<User>, fees: seq<Fee>, nextYear: Day, u: User)
    requires u in users && Reportable(u)
    ensures exists row :: row in ProjectFees(users, fees, nextYear) && row.studentId == u.studentId.value && row.studentName == u.name
  {
    var r := ProjectFees(users, fees, nextYear);
    if users[0] == u {
      var rows := RowsOf(u, fees, nextYear);
      assert rows[0] in rows;
      assert r[0] == rows[0];
    } else {
      ProjectionIsTotal(users[1..], fees, nextYear, u);
      var rest := ProjectFees(users[1..], fees, nextYear);
      var row :| row in rest && row.studentId == u.studentId.value && row.studentName == u.name;
      assert r == (if Reportable(users[0]) then RowsOf(users[0], fees, nextYear) else []) + rest;
      assert row in r;
    }
  }

  function RowFor(sid: string): FeeRow -> bool {
    (row: FeeRow) => row.studentId == sid
  }

  function ReportableWith(sid: string): User -> bool {
    (u: User) => Reportable(u) && u.studentId == Id(sid)
  }

  /** The rows of one student carry that student's studentId and no other. */
  lemma RowsOfFor(u: User, fees: seq<Fee>, nextYear: Day, sid: string)
    requires Reportable(u)
    ensures Filter(RowsOf(u, fees, nextYear), RowFor(sid))
         == if ReportableWith(sid)(u) then RowsOf(u, fees, nextYear) else []
  {
    if ReportableWith(sid)(u) {
      FilterKeepsAll(RowsOf(u, fees, nextYear), RowFor(sid));
    } else {
      FilterRejectsAll(RowsOf(u, fees, nextYear), RowFor(sid));
    }
  }

  /**
   * The rows of one studentId are exactly the report over the students with
   * that studentId: no row of another student is attributed to it.
   */
  lemma {:induction false} RowsOfStudent(users: seq<User>, fees: seq<Fee>, nextYear: Day, sid: string)
    ensures Filter(ProjectFees(users, fees, nextYear), RowFor(sid))
         == ProjectFees(Filter(users, ReportableWith(sid)), fees, nextYear)
  {
    if users != [] {
      var u := users[0];
      var here := if Reportable(u) then RowsOf(u, fees, nextYear) else [];
      var rest := ProjectFees(users[1..], fees, nextYear);
      assert ProjectFees(users, fees, nextYear) == here + rest;
      FilterAppend(here, rest, RowFor(sid));
      RowsOfStudent(users[1..], fees, nextYear, sid);
      var us := Filter(users[1..], ReportableWith(sid));
      if ReportableWith(sid)(u) {
        RowsOfFor(u, fees, nextYear, sid);
        assert Filter(users, ReportableWith(sid)) == [u] + us;
        assert ([u] + us)[1..] == us;
      } else {
        assert Filter(users, ReportableWith(sid)) == us;
        if Reportable(u) {
          RowsOfFor(u, fees, nextYear, sid);
        }
      }
    }
  }

  /**
   * For a student whose studentId no other reportable user shares: a student
   * without fees gets exactly the default row ('No Record', 5000, 'N/A', the
   * user's id), and a student with fees gets one row per fee.
   */
  lemma StudentRows(users: seq<User>, fees: seq<Fee>, nextYear: Day, u: User)
    requires Reportable(u)
    requires Filter(users, ReportableWith(u.studentId.value)) == [u]
    ensures Filter(ProjectFees(users, fees, nextYear), RowFor(u.studentId.value)) == RowsOf(u, fees, nextYear)
    ensures FeesOf(fees, u.studentId.value) == [] ==>
      Filter(ProjectFees(users, fees, nextYear), RowFor(u.studentId.value)) == [DefaultRow(u, nextYear)]
    ensures |Filter(ProjectFees(users, fees, nextYear), RowFor(u.studentId.value))|
         == if FeesOf(fees, u.studentId.value) == [] then 1 else |FeesOf(fees, u.studentId.value)|
  {
    RowsOfStudent(users, fees, nextYear, u.studentId.value);
    assert ProjectFees([u], fees, nextYear) == RowsOf(u, fees, nextYear) + ProjectFees([], fees, nextYear);
  }

  /** No user document shares its identifier with a fee document. */
  predicate DisjointIds(users: seq<User>, fees: seq<Fee>) {
    forall u, f :: u in users && f in fees ==> u.id != f.id
  }

  predicate StatusesValid(fees: seq<Fee>) {
    forall f :: f in fees ==> IsPaymentStatus(f.paymentStatus)
  }

  function FeeWithId(id: string): Fee -> bool {
    (f: Fee) => f.id == id
  }

  /**
   * When user and fee identifiers do not collide, a row is a default one
   * exactly when its identifier names no stored fee.
   */
  lemma DefaultRowsNameNoFee(users: seq<User>, fees: seq<Fee>, nextYear: Day)
    requires DisjointIds(users, fees) && StatusesValid(fees)
    ensures forall row :: row in ProjectFees(users, fees, nextYear) ==>
      (row.paymentStatus == NoRecordStatus <==> FindFirst(fees, FeeWithId(row.id)).None?)
  {
    forall row | row in ProjectFees(users, fees, nextYear)
      ensures row.paymentStatus == NoRecordStatus <==> FindFirst(fees, FeeWithId(row.id)).None?
    {
      DefaultRowNamesNoFee(users, fees, nextYear, row);
    }
  }

  lemma DefaultRowNamesNoFee(users: seq<User>, fees: seq<Fee>, nextYear: Day, row: FeeRow)
    requires DisjointIds(users, fees) && StatusesValid(fees)
    requires FromStore(row, users, fees, nextYear)
    ensures row.paymentStatus == NoRecordStatus <==> FindFirst(fees, FeeWithId(row.id)).None?
  {
    var u :| u in users && Reportable(u) &&
      (|| (FeesOf(fees, u.studentId.value) == [] && row == DefaultRow(u, nextYear))
       || (exists f :: f in fees && f.studentId == u.studentId.value && row == JoinedRow(u, f)));
    if !(FeesOf(fees, u.studentId.value) == [] && row == DefaultRow(u, nextYear)) {
      var f :| f in fees && f.studentId == u.studentId.value && row == JoinedRow(u, f);
      var k :| 0 <= k < |fees| && fees[k] == f;
      assert FeeWithId(row.id)(fees[k]);
    }
  }

  /**
   * The fee status update: 400 for a status outside the schema's three, then
   * 404 when no fee has the identifier; otherwise only that fee's status
   * changes.
   */
  function UpdateFeeStatusRequest(db: Db, roleHeader: Option<string>, id: string, status: Option<string>): (r: Reply)
    ensures !IsStaff(roleHeader) ==> r == Reply(Forbidden, db)
    ensures IsStaff(roleHeader) && !(status.Some? && IsPaymentStatus(status.value)) ==> r == Reply(BadRequest, db)
    ensures IsStaff(roleHeader) && status.Some? && IsPaymentStatus(status.value) ==>
      (r.status == NotFound <==> forall f :: f in db.fees ==> f.id != id)
    ensures r.status == Forbidden <==> !IsStaff(roleHeader)
    ensures r.status == OK <==>
      IsStaff(roleHeader) && status.Some? && IsPaymentStatus(status.value) && exists f :: f in db.fees && f.id == id
    ensures r.status in {OK, BadRequest, NotFound, Forbidden}
    ensures r.status != OK ==> r.db == db
    ensures r.status == OK ==>
      && status.Some?
      && var i := FindFirst(db.fees, FeeWithId(id));
      && i.Some? && db.fees[i.value].id == id
      && r.db == db.(fees := db.fees[i.value := db.fees[i.value].(paymentStatus := status.value)])
  {
    if !IsStaff(roleHeader) then Reply(Forbidden, db)
    else if status.None? || !IsPaymentStatus(status.value) then Reply(BadRequest, db)
    else match FindFirst(db.fees, FeeWithId(id))
      case None => Reply(NotFound, db)
      case Some(i) => Reply(OK, db.(fees := db.fees[i := db.fees[i].(paymentStatus := status.value)]))
  }

  /** The update of a default row (one for a student without fees) is refused with 404. */
  lemma DefaultRowCannotBeUpdated(db: Db, roleHeader: Option<string>, nextYear: Day, row: FeeRow, status: string)
    requires DisjointIds(db.users, db.fees) && StatusesValid(db.fees)
    requires row in ProjectFees(db.users, db.fees, nextYear) && row.paymentStatus == NoRecordStatus
    requires IsStaff(roleHeader) && IsPaymentStatus(status)
    ensures UpdateFeeStatusRequest(db, roleHeader, row.id, Some(status)) == Reply(NotFound, db)
  {
    DefaultRowsNameNoFee(db.users, db.fees, nextYear);
  }
}
