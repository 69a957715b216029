/**
 * Marks: the entry of one mark (an upsert on the key student, course and
 * exam type, refused for the class-average identifier) and the analytics
 * that group a student's marks by course next to the class averages.
 */
module Marks {

  import opened Wrappers
  import opened Records
  import opened Seqs

  /** The upsert filter: the mark of this student for this course and exam type. */
  function MarkKey(sid: string, course: string, exam: string): Mark -> bool {
    (m: Mark) => m.studentId == sid && m.course == course && m.examType == exam
  }

  /** No two marks share a key. */
  predicate KeysUnique(marks: seq<Mark>) {
    forall i, j :: 0 <= i < j < |marks| ==>
      !MarkKey(marks[i].studentId, marks[i].course, marks[i].examType)(marks[j])
  }

  /**
   * The upsert of a mark: the first mark with the key gets the new score (and
   * the new maximum when one is given); without such a mark a new one is
   * appended, its maximum defaulting to 100. Every other mark, including a
   * later one with the same key, is left as it was.
   */
  function UpsertMark(marks: seq<Mark>, sid: string, course: string, exam: string, score: int, maxScore: Option<int>): (r: seq<Mark>)
    ensures var old_ := FindFirst(marks, MarkKey(sid, course, exam));
      |r| == |marks| + (if old_.None? then 1 else 0)
    ensures var i := FindFirst(r, MarkKey(sid, course, exam));
      && i.Some?
      && r[i.value].score == score
      && r[i.value].maxScore == match maxScore
           case Some(v) => v
           case None => match FindFirst(marks, MarkKey(sid, course, exam))
             case Some(j) => marks[j].maxScore
             case None => DefaultMaxScore
    ensures forall k :: 0 <= k < |marks| && !MarkKey(sid, course, exam)(marks[k]) ==> r[k] == marks[k]
    ensures forall k :: 0 <= k < |marks| && FindFirst(marks, MarkKey(sid, course, exam)) != Some(k) ==> r[k] == marks[k]
    ensures forall k :: 0 <= k < |marks| && MarkKey(sid, course, exam)(marks[k]) ==> MarkKey(sid, course, exam)(r[k])
    ensures forall k :: |marks| <= k < |r| ==> MarkKey(sid, course, exam)(r[k])
  {
    var key := MarkKey(sid, course, exam);
    match FindFirst(marks, key)
    case Some(i) =>
      var r := marks[i := marks[i].(score := score, maxScore := maxScore.GetOr(marks[i].maxScore))];
      FindFirstAt(r, key, i);
      r
    case None =>
      var r := marks + [Mark(sid, course, exam, score, maxScore.GetOr(DefaultMaxScore))];
      FindFirstAt(r, key, |marks|);
      r
  }

  /** An upsert never introduces a second mark for a key. */
  lemma UpsertKeepsKeysUnique(marks: seq<Mark>, sid: string, course: string, exam: string, score: int, maxScore: Option<int>)
    requires KeysUnique(marks)
    ensures KeysUnique(UpsertMark(marks, sid, course, exam, score, maxScore))
  {
    var r := UpsertMark(marks, sid, course, exam, score, maxScore);
    var key := MarkKey(sid, course, exam);
    forall i, j | 0 <= i < j < |r|
      ensures !MarkKey(r[i].studentId, r[i].course, r[i].examType)(r[j])
    {
      match FindFirst(marks, key)
      case Some(f) =>
        assert r == marks[f := r[f]] && key(r[f]);
        if i != f && j != f {
          assert r[i] == marks[i] && r[j] == marks[j];
        } else if i == f {
          assert !MarkKey(marks[f].studentId, marks[f].course, marks[f].examType)(marks[j]);
        } else {
          assert !MarkKey(marks[i].studentId, marks[i].course, marks[i].examType)(marks[f]);
        }
      case None =>
        if j == |marks| {
          assert !key(marks[i]);
        } else {
          assert r[i] == marks[i] && r[j] == marks[j];
        }
    }
  }

  /** Entering the same mark twice leaves the store as entering it once. */
  lemma UpsertIdempotent(marks: seq<Mark>, sid: string, course: string, exam: string, score: int, maxScore: Option<int>)
    ensures var once := UpsertMark(marks, sid, course, exam, score, maxScore);
      UpsertMark(once, sid, course, exam, score, maxScore) == once
  {
    var key := MarkKey(sid, course, exam);
    var once := UpsertMark(marks, sid, course, exam, score, maxScore);
    match FindFirst(marks, key)
    case Some(f) =>
      FindFirstAt(once, key, f);
    case None =>
      FindFirstAt(once, key, |marks|);
  }

  /** The mark entry request: 403 for other roles, 400 for the class-average identifier, else 201 and the upsert. */
  function MarkEntryRequest(db: Db, roleHeader: Option<string>, sid: string, course: string, exam: string, score: int, maxScore: Option<int>): (r: Reply)
    ensures !IsStaff(roleHeader) ==> r == Reply(Forbidden, db)
    ensures IsStaff(roleHeader) && sid == ClassAvgId ==> r == Reply(BadRequest, db)
    ensures r.status == Forbidden <==> !IsStaff(roleHeader)
    ensures r.status == Created <==> IsStaff(roleHeader) && sid != ClassAvgId
    ensures r.status in {Created, BadRequest, Forbidden}
    ensures r.status != Created ==> r.db == db
    ensures r.status == Created ==> r.db == db.(marks := UpsertMark(db.marks, sid, course, exam, score, maxScore))
  {
    if !IsStaff(roleHeader) then Reply(Forbidden, db)
    else if sid == ClassAvgId then Reply(BadRequest, db)
    else Reply(Created, db.(marks := UpsertMark(db.marks, sid, course, exam, score, maxScore)))
  }

  function IsClassAvg(m: Mark): bool {
    m.studentId == ClassAvgId
  }

  /** No mark entry request changes, adds or removes a class-average mark. */
  lemma MarkEntryKeepsClassAverages(db: Db, roleHeader: Option<string>, sid: string, course: string, exam: string, score: int, maxScore: Option<int>)
    ensures var r := MarkEntryRequest(db, roleHeader, sid, course, exam, score, maxScore);
      Filter(r.db.marks, IsClassAvg) == Filter(db.marks, IsClassAvg)
  {
    var r := MarkEntryRequest(db, roleHeader, sid, course, exam, score, maxScore);
    if r.status == Created {
      ClassAveragesUntouched(db.marks, r.db.marks, MarkKey(sid, course, exam));
    }
  }

  /**
   * When `r` agrees with `s` outside the positions of key marks, and every
   * appended mark is a key mark, and no key mark is a class average, the
   * class averages of the two are the same.
   */
  lemma {:induction false} ClassAveragesUntouched(s: seq<Mark>, r: seq<Mark>, key: Mark -> bool)
    requires |s| <= |r|
    requires forall m :: key(m) ==> !IsClassAvg(m)
    requires forall k :: 0 <= k < |s| ==> r[k] == s[k] || (key(s[k]) && key(r[k]))
    requires forall k :: |s| <= k < |r| ==> key(r[k])
    ensures Filter(r, IsClassAvg) == Filter(s, IsClassAvg)
    decreases |r|
  {
    if s == [] {
      FilterRejectsAll(r, IsClassAvg);
    } else {
      assert r[0] == s[0] || (!IsClassAvg(r[0]) && !IsClassAvg(s[0]));
      ClassAveragesUntouched(s[1..], r[1..], key);
      assert Filter(r, IsClassAvg) == (if IsClassAvg(r[0]) then [r[0]] else []) + Filter(r[1..], IsClassAvg);
    }
  }

  // ---------------------------------------------------------------- analytics

  /** The query of the analytics: the student's own marks and the class averages. */
  function Wanted(sid: string): Mark -> bool {
    (m: Mark) => m.studentId == sid || m.studentId == ClassAvgId
  }

  /** The marks of one student in one course, in store order. */
  function MarkOfIn(sid: string, course: string): Mark -> bool {
    (m: Mark) => m.studentId == sid && m.course == course
  }

  function ScoresOf(marks: seq<Mark>, sid: string, course: string): seq<Mark> {
    Filter(marks, MarkOfIn(sid, course))
  }

  /** The courses in which this identifier has marks. */
  function CoursesOf(marks: seq<Mark>, sid: string): set<string> {
    set m | m in marks && m.studentId == sid :: m.course
  }

  /** The exam types of the class averages of a course. */
  function ExamsOf(marks: seq<Mark>, course: string): set<string> {
    set m | m in marks && m.studentId == ClassAvgId && m.course == course :: m.examType
  }

  function AvgFor(course: string, exam: string): Mark -> bool {
    (m: Mark) => m.studentId == ClassAvgId && m.course == course && m.examType == exam
  }

  /** The score of the last class-average mark for a course and exam type. */
  function LastAvg(s: seq<Mark>, course: string, exam: string): (r: Option<int>)
    ensures r.None? <==> forall k :: 0 <= k < |s| ==> !AvgFor(course, exam)(s[k])
  {
    if s == [] then None
    else
      var rest := LastAvg(s[1..], course, exam);
      if rest.Some? then rest
      else if AvgFor(course, exam)(s[0]) then Some(s[0].score)
      else None
  }

  /** LastAvg is the score of a class-average mark that no later one for the same key follows. */
  lemma {:induction false} LastAvgIsLast(s: seq<Mark>, course: string, exam: string)
    requires LastAvg(s, course, exam).Some?
    ensures exists k :: && 0 <= k < |s| && AvgFor(course, exam)(s[k])
                        && s[k].score == LastAvg(s, course, exam).value
                        && (forall j :: k < j < |s| ==> !AvgFor(course, exam)(s[j]))
  {
    var rest := LastAvg(s[1..], course, exam);
    if rest.Some? {
      LastAvgIsLast(s[1..], course, exam);
      var k :| && 0 <= k < |s[1..]| && AvgFor(course, exam)(s[1..][k])
               && s[1..][k].score == rest.value
               && (forall j :: k < j < |s[1..]| ==> !AvgFor(course, exam)(s[1..][j]));
      assert forall j :: k + 1 < j < |s| ==> s[j] == s[1..][j - 1];
      assert AvgFor(course, exam)(s[k + 1]) && s[k + 1].score == LastAvg(s, course, exam).value;
    } else {
      assert forall j :: 0 < j < |s| ==> s[j] == s[1..][j - 1];
      assert AvgFor(course, exam)(s[0]);
    }
  }

  lemma {:induction false} LastAvgAppend(s: seq<Mark>, m: Mark, course: string, exam: string)
    ensures LastAvg(s + [m], course, exam) == if AvgFor(course, exam)(m) then Some(m.score) else LastAvg(s, course, exam)
  {
    if s == [] {
      assert [m][1..] == [];
    } else {
      assert (s + [m])[1..] == s[1..] + [m];
      LastAvgAppend(s[1..], m, course, exam);
    }
  }

  lemma {:induction false} LastAvgFilter(s: seq<Mark>, keep: Mark -> bool, course: string, exam: string)
    requires forall m :: AvgFor(course, exam)(m) ==> keep(m)
    ensures LastAvg(Filter(s, keep), course, exam) == LastAvg(s, course, exam)
  {
    if s != [] {
      LastAvgFilter(s[1..], keep, course, exam);
      var rest := Filter(s[1..], keep);
      if keep(s[0]) {
        assert Filter(s, keep) == [s[0]] + rest;
        assert ([s[0]] + rest)[1..] == rest;
      } else {
        assert Filter(s, keep) == rest;
        assert !AvgFor(course, exam)(s[0]);
      }
    }
  }

  /** The student's part of what the analytics loop has built from the marks seen. */
  predicate ScoresBuilt(seen: seq<Mark>, sid: string, studentScores: map<string, seq<Mark>>) {
    && studentScores.Keys == CoursesOf(seen, sid)
    && forall c :: c in studentScores ==> studentScores[c] == ScoresOf(seen, sid, c)
  }

  /** The class-average part of what the analytics loop has built from the marks seen. */
  predicate AveragesBuilt(seen: seq<Mark>, classAverages: map<string, map<string, int>>) {
    && classAverages.Keys == CoursesOf(seen, ClassAvgId)
    && forall c :: c in classAverages ==>
         && classAverages[c].Keys == ExamsOf(seen, c)
         && forall e :: e in classAverages[c] ==> LastAvg(seen, c, e) == Some(classAverages[c][e])
  }


  /** One step of the student's part of the analytics loop: push the mark onto its course's list. */
  function PushScore(g: map<string, seq<Mark>>, m: Mark, sid: string): map<string, seq<Mark>> {
    if m.studentId == sid then g[m.course := (if m.course in g then g[m.course] else []) + [m]]
    else g
  }

  /** One step of the class-average part: record the mark's score under its course and exam type. */
  function RecordAverage(a: map<string, map<string, int>>, m: Mark, sid: string): map<string, map<string, int>> {
    if m.studentId != sid && m.studentId == ClassAvgId then
      a[m.course := (if m.course in a then a[m.course] else map[])[m.examType := m.score]]
    else a
  }

  /** The student's scores grouped by course after the first `n` marks of `data`. */
  function GroupScores(data: seq<Mark>, n: nat, sid: string): map<string, seq<Mark>>
    requires n <= |data|
  {
    if n == 0 then map[] else PushScore(GroupScores(data, n - 1, sid), data[n - 1], sid)
  }

  /** The class averages recorded after the first `n` marks of `data`. */
  function GroupAverages(data: seq<Mark>, n: nat, sid: string): map<string, map<string, int>>
    requires n <= |data|
  {
    if n == 0 then map[] else RecordAverage(GroupAverages(data, n - 1, sid), data[n - 1], sid)
  }

  /** The grouping holds each course's marks of the student, in order, and only those courses. */
  lemma {:induction false} GroupScoresBuilt(data: seq<Mark>, n: nat, sid: string)
    requires n <= |data|
    ensures ScoresBuilt(data[..n], sid, GroupScores(data, n, sid))
  {
    if n > 0 {
      assert data[..n] == data[..n - 1] + [data[n - 1]];
      GroupScoresBuilt(data, n - 1, sid);
      ScoresStep(data[..n - 1], data[n - 1], sid, GroupScores(data, n - 1, sid), GroupScores(data, n, sid));
    }
  }

  /**
   * The recorded averages hold, for each course and exam type with a class
   * average, the last one's score; none at all when the student is the
   * class-average identifier.
   */
  lemma {:induction false} GroupAveragesBuilt(data: seq<Mark>, n: nat, sid: string)
    requires n <= |data|
    ensures sid == ClassAvgId ==> GroupAverages(data, n, sid) == map[]
    ensures sid != ClassAvgId ==> AveragesBuilt(data[..n], GroupAverages(data, n, sid))
  {
    if n > 0 {
      assert data[..n] == data[..n - 1] + [data[n - 1]];
      GroupAveragesBuilt(data, n - 1, sid);
      if sid != ClassAvgId {
        AveragesStep(data[..n - 1], data[n - 1], GroupAverages(data, n - 1, sid), GroupAverages(data, n, sid));
      }
    }
  }

  /** What the grouping of the analytics query means in terms of the whole store. */
  lemma AnalyticsMeaning(marks: seq<Mark>, sid: string)
    ensures var data := Filter(marks, Wanted(sid));
      ScoresBuilt(marks, sid, GroupScores(data, |data|, sid))
    ensures var data := Filter(marks, Wanted(sid));
      sid == ClassAvgId ==> GroupAverages(data, |data|, sid) == map[]
    ensures var data := Filter(marks, Wanted(sid));
      sid != ClassAvgId ==> AveragesBuilt(marks, GroupAverages(data, |data|, sid))
  {
    var data := Filter(marks, Wanted(sid));
    GroupScoresBuilt(data, |data|, sid);
    GroupAveragesBuilt(data, |data|, sid);
    assert data[..|data|] == data;
    ScoresOfQuery(marks, sid, GroupScores(data, |data|, sid));
    if sid != ClassAvgId {
      AveragesOfQuery(marks, sid, GroupAverages(data, |data|, sid));
    }
  }

  /**
   * The marks analytics of one student: per course the student's marks in
   * store order, and per course and exam type the score of the last class
   * average; when the student is the class-average identifier itself, its
   * marks land under the student's scores and the averages stay empty.
   */
  method Analyze(marks: seq<Mark>, sid: string) returns (studentScores: map<string, seq<Mark>>, classAverages: map<string, map<string, int>>)
    ensures ScoresBuilt(marks, sid, studentScores)
    ensures sid == ClassAvgId ==> classAverages == map[]
    ensures sid != ClassAvgId ==> AveragesBuilt(marks, classAverages)
  {
    var data := Filter(marks, Wanted(sid));
    studentScores := map[];
    classAverages := map[];
    var i := 0;
    while i < |data|
      invariant 0 <= i <= |data|
      invariant studentScores == GroupScores(data, i, sid)
      invariant classAverages == GroupAverages(data, i, sid)
    {
      var m := data[i];
      if m.studentId == sid {
        if m.course !in studentScores {
          studentScores := studentScores[m.course := []];
        }
        studentScores := studentScores[m.course := studentScores[m.course] + [m]];
      } else if m.studentId == ClassAvgId {
        if m.course !in classAverages {
          classAverages := classAverages[m.course := map[]];
        }
        classAverages := classAverages[m.course := classAverages[m.course][m.examType := m.score]];
      }
      i := i + 1;
    }
    assert studentScores == GroupScores(data, |data|, sid);
    assert classAverages == GroupAverages(data, |data|, sid);
    AnalyticsMeaning(marks, sid);
  }


  lemma CoursesOfAppend(seen: seq<Mark>, m: Mark, sid: string)
    ensures CoursesOf(seen + [m], sid) == CoursesOf(seen, sid) + (if m.studentId == sid then {m.course} else {})
  {
    forall x: Mark ensures x in seen + [m] <==> x in seen || x == m {
    }
  }

  lemma ExamsOfAppend(seen: seq<Mark>, m: Mark, c: string)
    ensures ExamsOf(seen + [m], c) == ExamsOf(seen, c) + (if m.studentId == ClassAvgId && m.course == c then {m.examType} else {})
  {
    forall x: Mark ensures x in seen + [m] <==> x in seen || x == m {
    }
  }

  lemma ScoresOfAppend(seen: seq<Mark>, m: Mark, sid: string, c: string)
    ensures ScoresOf(seen + [m], sid, c) == ScoresOf(seen, sid, c) + (if MarkOfIn(sid, c)(m) then [m] else [])
  {
    FilterAppend(seen, [m], MarkOfIn(sid, c));
    assert Filter([m], MarkOfIn(sid, c)) == (if MarkOfIn(sid, c)(m) then [m] else []) + Filter([], MarkOfIn(sid, c));
  }

  lemma ScoresOfNone(seen: seq<Mark>, sid: string, c: string)
    requires c !in CoursesOf(seen, sid)
    ensures ScoresOf(seen, sid, c) == []
  {
    assert forall x :: x in seen ==> !MarkOfIn(sid, c)(x);
    FilterRejectsAll(seen, MarkOfIn(sid, c));
  }

  /** Pushing a mark of the student onto its course's list keeps the scores in step. */
  lemma ScoresStep(seen: seq<Mark>, m: Mark, sid: string, studentScores: map<string, seq<Mark>>, after: map<string, seq<Mark>>)
    requires ScoresBuilt(seen, sid, studentScores)
    requires after == if m.studentId == sid
      then studentScores[m.course := (if m.course in studentScores then studentScores[m.course] else []) + [m]]
      else studentScores
    ensures ScoresBuilt(seen + [m], sid, after)
  {
    CoursesOfAppend(seen, m, sid);
    if m.studentId == sid && m.course !in studentScores {
      ScoresOfNone(seen, sid, m.course);
    }
    ScoresValuesStep(seen, m, sid, studentScores, after);
  }

  lemma ScoresValuesStep(seen: seq<Mark>, m: Mark, sid: string, studentScores: map<string, seq<Mark>>, after: map<string, seq<Mark>>)
    requires forall c :: c in studentScores ==> studentScores[c] == ScoresOf(seen, sid, c)
    requires m.studentId == sid && m.course !in studentScores ==> ScoresOf(seen, sid, m.course) == []
    requires after == if m.studentId == sid
      then studentScores[m.course := (if m.course in studentScores then studentScores[m.course] else []) + [m]]
      else studentScores
    ensures forall c :: c in after ==> after[c] == ScoresOf(seen + [m], sid, c)
  {
    forall c | c in after ensures after[c] == ScoresOf(seen + [m], sid, c) {
      ScoresOfAppend(seen, m, sid, c);
    }
  }

  /** Setting a class average's score under its course and exam type keeps the averages in step. */
  lemma AveragesStep(seen: seq<Mark>, m: Mark, classAverages: map<string, map<string, int>>, after: map<string, map<string, int>>)
    requires AveragesBuilt(seen, classAverages)
    requires after == if m.studentId == ClassAvgId
      then classAverages[m.course := (if m.course in classAverages then classAverages[m.course] else map[])[m.examType := m.score]]
      else classAverages
    ensures AveragesBuilt(seen + [m], after)
  {
    CoursesOfAppend(seen, m, ClassAvgId);
    if m.studentId == ClassAvgId && m.course !in classAverages {
      assert ExamsOf(seen, m.course) == {};
    }
    AveragesExamsStep(seen, m, classAverages, after);
    AveragesLastStep(seen, m, classAverages, after);
  }

  lemma AveragesExamsStep(seen: seq<Mark>, m: Mark, classAverages: map<string, map<string, int>>, after: map<string, map<string, int>>)
    requires forall c :: c in classAverages ==> classAverages[c].Keys == ExamsOf(seen, c)
    requires m.studentId == ClassAvgId && m.course !in classAverages ==> ExamsOf(seen, m.course) == {}
    requires after == if m.studentId == ClassAvgId
      then classAverages[m.course := (if m.course in classAverages then classAverages[m.course] else map[])[m.examType := m.score]]
      else classAverages
    ensures forall c :: c in after ==> after[c].Keys == ExamsOf(seen + [m], c)
  {
    forall c | c in after ensures after[c].Keys == ExamsOf(seen + [m], c) {
      ExamsOfAppend(seen, m, c);
    }
  }

  lemma AveragesLastStep(seen: seq<Mark>, m: Mark, classAverages: map<string, map<string, int>>, after: map<string, map<string, int>>)
    requires forall c :: c in classAverages ==>
      forall e :: e in classAverages[c] ==> LastAvg(seen, c, e) == Some(classAverages[c][e])
    requires after == if m.studentId == ClassAvgId
      then classAverages[m.course := (if m.course in classAverages then classAverages[m.course] else map[])[m.examType := m.score]]
      else classAverages
    ensures forall c :: c in after ==>
      forall e :: e in after[c] ==> LastAvg(seen + [m], c, e) == Some(after[c][e])
  {
    forall c, e | c in after && e in after[c] ensures LastAvg(seen + [m], c, e) == Some(after[c][e]) {
      LastAvgAppend(seen, m, c, e);
    }
  }

  /** The student's scores built over the query are those over the whole store. */
  lemma ScoresOfQuery(marks: seq<Mark>, sid: string, studentScores: map<string, seq<Mark>>)
    requires ScoresBuilt(Filter(marks, Wanted(sid)), sid, studentScores)
    ensures ScoresBuilt(marks, sid, studentScores)
  {
    var data := Filter(marks, Wanted(sid));
    assert CoursesOf(data, sid) == CoursesOf(marks, sid);
    forall c ensures ScoresOf(data, sid, c) == ScoresOf(marks, sid, c) {
      FilterNarrow(marks, Wanted(sid), MarkOfIn(sid, c));
    }
  }

  /** The class averages built over the query are those over the whole store. */
  lemma AveragesOfQuery(marks: seq<Mark>, sid: string, classAverages: map<string, map<string, int>>)
    requires AveragesBuilt(Filter(marks, Wanted(sid)), classAverages)
    ensures AveragesBuilt(marks, classAverages)
  {
    var data := Filter(marks, Wanted(sid));
    assert CoursesOf(data, ClassAvgId) == CoursesOf(marks, ClassAvgId);
    forall c ensures ExamsOf(data, c) == ExamsOf(marks, c) {
    }
    forall c, e ensures LastAvg(data, c, e) == LastAvg(marks, c, e) {
      LastAvgFilter(marks, Wanted(sid), c, e);
    }
  }

}
