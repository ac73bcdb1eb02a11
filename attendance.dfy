/** The attendance controller: marking members and visitors, closing a
    (date, type) slot, and the read projections over one date. */
module Attendance {
  import opened Wrappers
  import opened Counting
  import opened Entities
  import opened Store

  const ALREADY_MARKED := "Attendance already marked for this student"
  const CLOSED_FOR_DATE := "Attendance is closed for this date"
  const CLOSED_OK := "Attendance closed successfully"

  // ------------------------------------------------------------ where clauses

  /** The rows of the slot `{ date, type }`. */
  predicate InSlot(row: AttendanceRow, date: string, kind: AttendanceType) {
    row.date == date && row.kind == kind
  }

  /** `{ date, type: MEMBER, studentId }`. A request without `studentId`
      leaves the criterion undefined, which the query drops. */
  predicate IsMarkOf(row: AttendanceRow, date: string, studentId: Option<Id>) {
    InSlot(row, date, Member) && (studentId.None? || row.studentId == studentId)
  }

  /** Some member row already matches the duplicate-mark probe. */
  predicate HasMark(rows: seq<AttendanceRow>, date: string, studentId: Option<Id>) {
    exists i :: 0 <= i < |rows| && IsMarkOf(rows[i], date, studentId)
  }

  /** The closed-check: the row `findOne({ date, type })` returns is CLOSED. */
  predicate SlotClosed(rows: seq<AttendanceRow>, date: string, kind: AttendanceType) {
    match FirstIndex(rows, (r: AttendanceRow) => InSlot(r, date, kind))
    case Some(i) => rows[i].status == Closed
    case None => false
  }

  /** All rows of one (date, type) slot share a status. */
  ghost predicate SlotUniform(rows: seq<AttendanceRow>) {
    forall i, j :: 0 <= i < |rows| && 0 <= j < |rows| && InSlot(rows[j], rows[i].date, rows[i].kind)
      ==> rows[i].status == rows[j].status
  }

  /** No student has two member rows for one date. */
  ghost predicate UniqueMarks(rows: seq<AttendanceRow>) {
    forall i, j ::
      (0 <= i < j < |rows| && rows[i].studentId.Some? && InSlot(rows[i], rows[j].date, Member) && rows[j].kind == Member)
      ==> rows[i].studentId != rows[j].studentId
  }

  // ---------------------------------------------------------------- marking

  /** `markMemberAttendance`: the duplicate check, then the closed check,
      then one inserted row. */
  function MarkMemberStep(s: State, date: string, studentId: Option<Id>, isPresent: Option<bool>,
                          markedBy: Option<string>): (st: Step<AttendanceRow>)
    ensures st.reply.Err? ==> st.reply.status == 400 && st.after == s
    ensures st.reply == Err(400, ALREADY_MARKED) <==> HasMark(s.attendance, date, studentId)
    ensures st.reply == Err(400, CLOSED_FOR_DATE)
      <==> !HasMark(s.attendance, date, studentId) && SlotClosed(s.attendance, date, Member)
    ensures st.reply.Ok? ==>
      st.reply.status == 201 && st.after == s.(attendance := s.attendance + [st.reply.value], nextId := s.nextId + 1)
    ensures st.reply.Ok? ==> (var row := st.reply.value;
      row.id == s.nextId && InSlot(row, date, Member) && row.status == Open
      && row.studentId == studentId && row.isPresent == (isPresent != Some(false))
      && row.markedBy == markedBy && row.visitorName.None?)
  {
    if FirstIndex(s.attendance, (r: AttendanceRow) => IsMarkOf(r, date, studentId)).Some? then
      Step(Err(400, ALREADY_MARKED), s)
    else if SlotClosed(s.attendance, date, Member) then
      Step(Err(400, CLOSED_FOR_DATE), s)
    else
      var row := NewRow(s.nextId, date, Member, studentId, NO_VISITOR, isPresent, markedBy);
      Step(Ok(201, row), s.(attendance := s.attendance + [row], nextId := s.nextId + 1))
  }

  /** `markVisitorAttendance`: only the closed check; a request without
      `visitorData` fails when the handler reads its fields. */
  function MarkVisitorStep(s: State, date: string, visitor: Option<VisitorData>, isPresent: Option<bool>,
                           markedBy: Option<string>): (st: Step<AttendanceRow>)
    ensures st.reply.Err? ==> st.after == s
    ensures st.reply == Err(400, CLOSED_FOR_DATE) <==> SlotClosed(s.attendance, date, Visitor)
    ensures st.reply.Ok? <==> !SlotClosed(s.attendance, date, Visitor) && visitor.Some?
    ensures st.reply.Ok? ==>
      st.reply.status == 201 && st.after == s.(attendance := s.attendance + [st.reply.value], nextId := s.nextId + 1)
    ensures st.reply.Ok? ==> (var row := st.reply.value; var v := visitor.value;
      row.id == s.nextId && InSlot(row, date, Visitor) && row.status == Open && row.studentId.None?
      && row.visitorName == v.fullName && row.visitorHall == v.hall && row.visitorLevel == v.level
      && row.visitorPurpose == v.purpose && row.visitorPhone == v.phone && row.visitorEmail == v.email
      && row.isPresent == (isPresent != Some(false)) && row.markedBy == markedBy)
  {
    if SlotClosed(s.attendance, date, Visitor) then
      Step(Err(400, CLOSED_FOR_DATE), s)
    else if visitor.None? then
      Step(Err(500, INTERNAL_ERROR), s)
    else
      var row := NewRow(s.nextId, date, Visitor, None, visitor.value, isPresent, markedBy);
      Step(Ok(201, row), s.(attendance := s.attendance + [row], nextId := s.nextId + 1))
  }

  /** The rows `update({ date, type }, …)` touches; without a `type` in the
      body the criterion is dropped and every row of the date matches. */
  predicate CloseTarget(row: AttendanceRow, date: string, kind: Option<AttendanceType>) {
    row.date == date && (kind.None? || row.kind == kind.value)
  }

  /** The bulk status update of `closeAttendance`. */
  function CloseRows(rows: seq<AttendanceRow>, date: string, kind: Option<AttendanceType>): (r: seq<AttendanceRow>)
    ensures |r| == |rows|
    ensures forall i :: 0 <= i < |rows| ==> r[i] == rows[i].(status := r[i].status)
    ensures forall i :: 0 <= i < |rows| ==>
      r[i].status == if CloseTarget(rows[i], date, kind) then Closed else rows[i].status
  {
    seq(|rows|, i requires 0 <= i < |rows| =>
      if CloseTarget(rows[i], date, kind) then rows[i].(status := Closed) else rows[i])
  }

  /** `closeAttendance` always answers 200, whether or not any row matched. */
  function CloseStep(s: State, date: string, kind: Option<AttendanceType>): (st: Step<string>)
    ensures st.reply == Ok(200, CLOSED_OK)
    ensures st.after == s.(attendance := CloseRows(s.attendance, date, kind))
  {
    Step(Ok(200, CLOSED_OK), s.(attendance := CloseRows(s.attendance, date, kind)))
  }

  // ------------------------------------------------------ handlers on the store

  method MarkMember(db: Db, date: string, studentId: Option<Id>, isPresent: Option<bool>,
                    markedBy: Option<string>) returns (r: Result<AttendanceRow>)
    requires db.Valid()
    modifies db
    ensures db.Valid()
    ensures Step(r, db.Abs()) == MarkMemberStep(old(db.Abs()), date, studentId, isPresent, markedBy)
  {
    var existing := FirstIndex(db.attendance, (a: AttendanceRow) => IsMarkOf(a, date, studentId));
    if existing.Some? {
      return Err(400, ALREADY_MARKED);
    }
    if SlotClosed(db.attendance, date, Member) {
      return Err(400, CLOSED_FOR_DATE);
    }
    var row := NewRow(db.nextId, date, Member, studentId, NO_VISITOR, isPresent, markedBy);
    db.attendance := db.attendance + [row];
    db.nextId := db.nextId + 1;
    r := Ok(201, row);
  }

  method MarkVisitor(db: Db, date: string, visitor: Option<VisitorData>, isPresent: Option<bool>,
                     markedBy: Option<string>) returns (r: Result<AttendanceRow>)
    requires db.Valid()
    modifies db
    ensures db.Valid()
    ensures Step(r, db.Abs()) == MarkVisitorStep(old(db.Abs()), date, visitor, isPresent, markedBy)
  {
    if SlotClosed(db.attendance, date, Visitor) {
      return Err(400, CLOSED_FOR_DATE);
    }
    if visitor.None? {
      return Err(500, INTERNAL_ERROR);
    }
    var row := NewRow(db.nextId, date, Visitor, None, visitor.value, isPresent, markedBy);
    db.attendance := db.attendance + [row];
    db.nextId := db.nextId + 1;
    r := Ok(201, row);
  }

  method Close(db: Db, date: string, kind: Option<AttendanceType>) returns (r: Result<string>)
    requires db.Valid()
    modifies db
    ensures db.Valid()
    ensures Step(r, db.Abs()) == CloseStep(old(db.Abs()), date, kind)
  {
    db.attendance := CloseRows(db.attendance, date, kind);
    r := Ok(200, CLOSED_OK);
  }

  // ------------------------------------------------------ slot state machine

  /** Under uniformity the one row the closed-check inspects speaks for its
      whole slot: the slot counts as closed iff it has a closed row, and then
      every row of it is closed. */
  lemma ProbeDecidesSlot(rows: seq<AttendanceRow>, date: string, kind: AttendanceType)
    requires SlotUniform(rows)
    ensures SlotClosed(rows, date, kind)
      <==> exists i :: 0 <= i < |rows| && InSlot(rows[i], date, kind) && rows[i].status == Closed
    ensures SlotClosed(rows, date, kind)
      ==> forall i :: 0 <= i < |rows| && InSlot(rows[i], date, kind) ==> rows[i].status == Closed
    ensures !SlotClosed(rows, date, kind)
      ==> forall i :: 0 <= i < |rows| && InSlot(rows[i], date, kind) ==> rows[i].status == Open
  {
    var p := (r: AttendanceRow) => InSlot(r, date, kind);
    match FirstIndex(rows, p)
    case None =>
    case Some(k) =>
      assert forall i :: 0 <= i < |rows| && InSlot(rows[i], date, kind) ==> InSlot(rows[i], rows[k].date, rows[k].kind);
  }

  /** Appending an OPEN row to a slot the closed-check let through keeps
      every slot uniform. */
  lemma AppendOpenKeepsUniform(rows: seq<AttendanceRow>, row: AttendanceRow)
    requires SlotUniform(rows) && row.status == Open && !SlotClosed(rows, row.date, row.kind)
    ensures SlotUniform(rows + [row])
  {
    ProbeDecidesSlot(rows, row.date, row.kind);
    var t := rows + [row];
    forall i, j | 0 <= i < |t| && 0 <= j < |t| && InSlot(t[j], t[i].date, t[i].kind)
      ensures t[i].status == t[j].status
    {
      if i < |rows| && j == |rows| {
        assert InSlot(rows[i], row.date, row.kind);
      } else if i == |rows| && j < |rows| {
        assert InSlot(rows[j], row.date, row.kind);
      }
    }
  }

  /** Marking a member keeps every slot uniform. */
  lemma MarkMemberKeepsUniform(s: State, date: string, studentId: Option<Id>, isPresent: Option<bool>,
                               markedBy: Option<string>)
    requires SlotUniform(s.attendance)
    ensures SlotUniform(MarkMemberStep(s, date, studentId, isPresent, markedBy).after.attendance)
  {
    var st := MarkMemberStep(s, date, studentId, isPresent, markedBy);
    if st.reply.Ok? {
      AppendOpenKeepsUniform(s.attendance, st.reply.value);
    }
  }

  /** Marking a visitor keeps every slot uniform. */
  lemma MarkVisitorKeepsUniform(s: State, date: string, visitor: Option<VisitorData>, isPresent: Option<bool>,
                                markedBy: Option<string>)
    requires SlotUniform(s.attendance)
    ensures SlotUniform(MarkVisitorStep(s, date, visitor, isPresent, markedBy).after.attendance)
  {
    var st := MarkVisitorStep(s, date, visitor, isPresent, markedBy);
    if st.reply.Ok? {
      AppendOpenKeepsUniform(s.attendance, st.reply.value);
    }
  }

  /** Closing keeps every slot uniform: it closes whole slots. */
  lemma CloseKeepsUniform(s: State, date: string, kind: Option<AttendanceType>)
    requires SlotUniform(s.attendance)
    ensures SlotUniform(CloseStep(s, date, kind).after.attendance)
  {
    var rows := s.attendance;
    var t := CloseRows(rows, date, kind);
    forall i, j | 0 <= i < |t| && 0 <= j < |t| && InSlot(t[j], t[i].date, t[i].kind)
      ensures t[i].status == t[j].status
    {
      assert InSlot(rows[j], rows[i].date, rows[i].kind);
    }
  }

  /** Marking keeps "one member row per student and date". */
  lemma MarkMemberKeepsUniqueMarks(s: State, date: string, studentId: Option<Id>, isPresent: Option<bool>,
                                   markedBy: Option<string>)
    requires UniqueMarks(s.attendance)
    ensures UniqueMarks(MarkMemberStep(s, date, studentId, isPresent, markedBy).after.attendance)
  {
    var st := MarkMemberStep(s, date, studentId, isPresent, markedBy);
    if st.reply.Ok? {
      var t := st.after.attendance;
      var n := |s.attendance|;
      forall i, j | 0 <= i < j < |t| && t[i].studentId.Some? && InSlot(t[i], t[j].date, Member) && t[j].kind == Member
        ensures t[i].studentId != t[j].studentId
      {
        if j == n {
          assert !IsMarkOf(s.attendance[i], date, studentId);
        }
      }
    }
  }

  /** A second mark of the same student on the same date is refused,
      whatever either request says about presence. */
  lemma MarkTwiceRejected(s: State, date: string, studentId: Id, p1: Option<bool>, p2: Option<bool>,
                          by1: Option<string>, by2: Option<string>)
    requires MarkMemberStep(s, date, Some(studentId), p1, by1).reply.Ok?
    ensures var s1 := MarkMemberStep(s, date, Some(studentId), p1, by1).after;
      MarkMemberStep(s1, date, Some(studentId), p2, by2) == Step(Err(400, ALREADY_MARKED), s1)
  {
    var s1 := MarkMemberStep(s, date, Some(studentId), p1, by1).after;
    assert IsMarkOf(s1.attendance[|s.attendance|], date, Some(studentId));
  }

  /** Once a slot that has rows is closed, no member can be marked in it. */
  lemma CloseThenMarkRejected(s: State, date: string, k: nat, studentId: Option<Id>, isPresent: Option<bool>,
                              markedBy: Option<string>)
    requires k < |s.attendance| && InSlot(s.attendance[k], date, Member)
    ensures MarkMemberStep(CloseStep(s, date, Some(Member)).after, date, studentId, isPresent, markedBy).reply.Err?
  {
    var t := CloseRows(s.attendance, date, Some(Member));
    assert InSlot(t[k], date, Member);
    var p := (r: AttendanceRow) => InSlot(r, date, Member);
    match FirstIndex(t, p)
    case Some(i) =>
      assert CloseTarget(s.attendance[i], date, Some(Member));
  }

  /** Closing a slot without rows changes nothing, so marks there go on
      succeeding. */
  lemma CloseEmptySlotNoEffect(s: State, date: string, kind: AttendanceType)
    requires forall i :: 0 <= i < |s.attendance| ==> !InSlot(s.attendance[i], date, kind)
    ensures CloseStep(s, date, Some(kind)).after == s
  {
    var t := CloseRows(s.attendance, date, Some(kind));
    assert t == s.attendance;
  }

  // ------------------------------------------------------------ status read

  datatype StatusReply = StatusReply(date: string, isClosed: bool, status: AttendanceStatus)

  /** `getAttendanceStatus`: the first row of the date, of either type, decides. */
  function GetAttendanceStatus(rows: seq<AttendanceRow>, date: string): (r: StatusReply)
    ensures r.date == date && (r.isClosed <==> r.status == Closed)
    ensures (forall i :: 0 <= i < |rows| ==> rows[i].date != date) ==> r == StatusReply(date, false, Open)
    ensures r.isClosed ==> exists i :: 0 <= i < |rows| && rows[i].date == date && rows[i].status == Closed
    ensures !r.isClosed ==> (exists i :: 0 <= i < |rows| && rows[i].date == date && rows[i].status == Open)
                            || forall i :: 0 <= i < |rows| ==> rows[i].date != date
  {
    match FirstIndex(rows, (a: AttendanceRow) => a.date == date)
    case None => StatusReply(date, false, Open)
    case Some(i) => StatusReply(date, rows[i].status == Closed, rows[i].status)
  }

  /** With a closed member slot and an open visitor slot on the same date, the
      reported status depends on which row the store happens to return first. */
  lemma StatusDependsOnRowOrder(m: AttendanceRow, v: AttendanceRow)
    requires InSlot(m, v.date, Member) && m.status == Closed
    requires InSlot(v, m.date, Visitor) && v.status == Open
    ensures SlotUniform([m, v]) && SlotUniform([v, m])
    ensures GetAttendanceStatus([m, v], m.date).isClosed
    ensures !GetAttendanceStatus([v, m], m.date).isClosed
  {
    assert [m, v][0] == m && [v, m][0] == v;
  }

  // ------------------------------------------------------ per-date projections

  /** Rows `find({ date, type, isPresent: true })` returns, in store order. */
  function PresentRows(rows: seq<AttendanceRow>, date: string, kind: AttendanceType): seq<AttendanceRow> {
    Filter(rows, (r: AttendanceRow) => InSlot(r, date, kind) && r.isPresent)
  }

  /** The non-null student ids of the present member rows of a date. */
  function PresentIds(rows: seq<AttendanceRow>, date: string): (r: seq<Id>)
    ensures forall id :: id in r <==> (exists i :: 0 <= i < |rows| && InSlot(rows[i], date, Member)
                                                 && rows[i].isPresent && rows[i].studentId == Some(id))
  {
    if rows == [] then []
    else
      var rest := PresentIds(rows[1..], date);
      var head := rows[0];
      assert forall i :: 1 <= i < |rows| ==> rows[i] == rows[1..][i - 1];
      if InSlot(head, date, Member) && head.isPresent && head.studentId.Some? then
        [head.studentId.value] + rest
      else rest
  }

  /** A truthy query-string filter must equal the field; a missing or empty one
      is ignored. */
  predicate PassesFilter(filter: Option<string>, field: string) {
    filter.None? || filter.value == "" || field == filter.value
  }

  /** `getUnmarkedMembers` */
  function UnmarkedMembers(s: State, date: string, hall: Option<string>, level: Option<string>,
                           gender: Option<string>): (r: seq<Student>)
    ensures forall x :: x in r <==> (x in s.students && PassesFilter(hall, x.hall) && PassesFilter(level, x.level)
                                     && PassesFilter(gender, x.gender) && x.id !in PresentIds(s.attendance, date))
  {
    var ids := PresentIds(s.attendance, date);
    var r := Filter(s.students, (x: Student) => PassesFilter(hall, x.hall) && PassesFilter(level, x.level)
                                              && PassesFilter(gender, x.gender) && x.id !in ids);
    assert forall x :: x in r ==> exists i :: 0 <= i < |r| && r[i] == x;
    assert forall x :: x in s.students ==> exists i :: 0 <= i < |s.students| && s.students[i] == x;
    r
  }

  /** `getMembersAbsent`: the stored students, in table order, that no present
      member row of the date names. */
  function MembersAbsent(s: State, date: string): (r: seq<Student>)
    ensures |r| <= |s.students|
    ensures forall x :: x in r <==> x in s.students && x.id !in PresentIds(s.attendance, date)
  {
    var ids := PresentIds(s.attendance, date);
    var r := Filter(s.students, (x: Student) => x.id !in ids);
    assert forall x :: x in r ==> exists i :: 0 <= i < |r| && r[i] == x;
    assert forall x :: x in s.students ==> exists i :: 0 <= i < |s.students| && s.students[i] == x;
    r
  }

  /** Without filters the unmarked list is the absent list. */
  lemma UnmarkedWithoutFiltersIsAbsent(s: State, date: string)
    ensures UnmarkedMembers(s, date, None, None, None) == MembersAbsent(s, date)
  {
    var ids := PresentIds(s.attendance, date);
    FilterExt(s.students,
      (x: Student) => PassesFilter(None, x.hall) && PassesFilter(None, x.level) && PassesFilter(None, x.gender) && x.id !in ids,
      (x: Student) => x.id !in ids);
  }

  /** A student whose only mark for the date says absent is still listed as
      unmarked. */
  lemma MarkedAbsentStillUnmarked(s: State, date: string, k: nat, m: nat)
    requires UniqueMarks(s.attendance)
    requires k < |s.students| && m < |s.attendance|
    requires InSlot(s.attendance[m], date, Member) && s.attendance[m].studentId == Some(s.students[k].id)
    requires !s.attendance[m].isPresent
    ensures s.students[k] in UnmarkedMembers(s, date, None, None, None)
  {
    assert s.students[k].id !in PresentIds(s.attendance, date);
  }

  /** A row whose `student` relation loads: it names a stored student. */
  function Resolves(students: seq<Student>): AttendanceRow -> bool {
    (row: AttendanceRow) => row.studentId.Some? && FindStudent(students, row.studentId.value).Some?
  }

  /** `getMembersPresent`: the joined student of each present member row,
      rows whose student is missing being dropped. */
  function MembersPresent(s: State, date: string): (r: seq<Student>)
    ensures forall x :: x in r ==> x in s.students && x.id in PresentIds(s.attendance, date)
    ensures var loaded := Filter(PresentRows(s.attendance, date, Member), Resolves(s.students));
      && |r| == |loaded|
      && forall i :: 0 <= i < |r| ==> r[i] in s.students && loaded[i].studentId == Some(r[i].id)
  {
    JoinStudents(s.students, PresentRows(s.attendance, date, Member), date)
  }

  function JoinStudents(students: seq<Student>, rows: seq<AttendanceRow>, date: string): (r: seq<Student>)
    requires forall i :: 0 <= i < |rows| ==> InSlot(rows[i], date, Member) && rows[i].isPresent
    ensures forall x :: x in r ==> x in students && x.id in PresentIds(rows, date)
    ensures |r| == |Filter(rows, Resolves(students))|
    ensures forall i :: 0 <= i < |r| ==> r[i] in students && Filter(rows, Resolves(students))[i].studentId == Some(r[i].id)
  {
    var loaded := Filter(rows, Resolves(students));
    var r := seq(|loaded|, i requires 0 <= i < |loaded| => students[FindStudent(students, loaded[i].studentId.value).value]);
    forall x | x in r ensures x in students && x.id in PresentIds(rows, date) {
      var i :| 0 <= i < |r| && r[i] == x;
      var m :| 0 <= m < |rows| && rows[m] == loaded[i];
    }
    r
  }

  /** A present id comes from a present member row of the date. */
  lemma PresentMarkRow(rows: seq<AttendanceRow>, date: string, id: Id) returns (row: AttendanceRow)
    requires id in PresentIds(rows, date)
    ensures row in PresentRows(rows, date, Member) && row.studentId == Some(id)
  {
    var i :| 0 <= i < |rows| && InSlot(rows[i], date, Member) && rows[i].isPresent && rows[i].studentId == Some(id);
    row := rows[i];
    FilterKeepsMember(rows, (r: AttendanceRow) => InSlot(r, date, Member) && r.isPresent, row);
  }

  /** A present mark naming a stored student is one of the loaded rows. */
  lemma PresentMarkLoaded(s: State, date: string, id: Id) returns (j: nat)
    requires HasStudent(s.students, id) && id in PresentIds(s.attendance, date)
    ensures var loaded := Filter(PresentRows(s.attendance, date, Member), Resolves(s.students));
      j < |loaded| && loaded[j].studentId == Some(id)
  {
    var loaded := Filter(PresentRows(s.attendance, date, Member), Resolves(s.students));
    var row := PresentMarkRow(s.attendance, date, id);
    assert row in loaded by {
      assert FindStudent(s.students, id).Some?;
      FilterKeepsMember(PresentRows(s.attendance, date, Member), Resolves(s.students), row);
    }
    j :| 0 <= j < |loaded| && loaded[j] == row;
  }

  /** Every stored student with a present mark for the date is listed. */
  lemma PresentStudentListed(s: State, date: string, k: nat)
    requires Keyed(s) && k < |s.students|
    requires s.students[k].id in PresentIds(s.attendance, date)
    ensures s.students[k] in MembersPresent(s, date)
  {
    var r := MembersPresent(s, date);
    var j := PresentMarkLoaded(s, date, s.students[k].id);
    var n :| 0 <= n < |s.students| && s.students[n] == r[j];
    assert n == k;
  }

  /** When every present mark names a stored student, the list is as long as
      the summary's present count. */
  lemma MembersPresentMatchesSummary(s: State, date: string)
    requires MarksResolve(s, date)
    ensures |MembersPresent(s, date)| == GetSummary(s, date).membersPresent
  {
    var rows := PresentRows(s.attendance, date, Member);
    forall i | 0 <= i < |rows| ensures Resolves(s.students)(rows[i]) {
      var j :| 0 <= j < |s.attendance| && s.attendance[j] == rows[i];
    }
    FilterKeepsAll(rows, Resolves(s.students));
  }

  /** `getVisitors`: present visitor rows in the order they were created. */
  function Visitors(s: State, date: string): (r: seq<AttendanceRow>)
    ensures |r| <= |s.attendance|
    ensures forall x :: x in r <==> x in s.attendance && InSlot(x, date, Visitor) && x.isPresent
  {
    var r := PresentRows(s.attendance, date, Visitor);
    assert forall x :: x in r ==> exists i :: 0 <= i < |r| && r[i] == x;
    assert forall x :: x in s.attendance ==> exists i :: 0 <= i < |s.attendance| && s.attendance[i] == x;
    r
  }

  /** A present visitor marked now is listed last. */
  lemma MarkVisitorAppendsToVisitors(s: State, date: string, visitor: Option<VisitorData>,
                                     isPresent: Option<bool>, markedBy: Option<string>)
    requires MarkVisitorStep(s, date, visitor, isPresent, markedBy).reply.Ok?
    requires isPresent != Some(false)
    ensures var st := MarkVisitorStep(s, date, visitor, isPresent, markedBy);
      Visitors(st.after, date) == Visitors(s, date) + [st.reply.value]
  {
    var st := MarkVisitorStep(s, date, visitor, isPresent, markedBy);
    FilterAppend(s.attendance, [st.reply.value], (r: AttendanceRow) => InSlot(r, date, Visitor) && r.isPresent);
  }

  // ---------------------------------------------------------------- summary

  datatype Summary = Summary(
    date: string, membersPresent: nat, membersAbsent: int, visitorsPresent: nat,
    totalPresent: nat, totalAbsent: int, totalMembers: nat, totalVisitors: nat)

  /** `getAttendanceSummary`. The absent count is a difference of counts and
      is not clamped. */
  function GetSummary(s: State, date: string): (r: Summary)
    ensures r.date == date
    ensures r.totalMembers == |s.students|
    ensures r.membersPresent == |PresentRows(s.attendance, date, Member)|
    ensures r.totalPresent == r.membersPresent + r.visitorsPresent
    ensures r.membersAbsent == r.totalAbsent == r.totalMembers - r.membersPresent
    ensures r.totalVisitors == r.visitorsPresent == |Visitors(s, date)|
  {
    var members := |PresentRows(s.attendance, date, Member)|;
    var visitors := |PresentRows(s.attendance, date, Visitor)|;
    var total := |s.students|;
    Summary(date, members, total - members, visitors, members + visitors, total - members, total, visitors)
  }

  /** Present member rows of the date all name an existing student. */
  ghost predicate MarksResolve(s: State, date: string) {
    forall i :: 0 <= i < |s.attendance| && InSlot(s.attendance[i], date, Member) && s.attendance[i].isPresent
      ==> s.attendance[i].studentId.Some? && HasStudent(s.students, s.attendance[i].studentId.value)
  }

  /** When every present mark names a distinct existing student, the summary's
      absent count is the length of the absent list. */
  lemma SummaryAbsentMatchesList(s: State, date: string)
    requires Keyed(s) && UniqueMarks(s.attendance) && MarksResolve(s, date)
    ensures GetSummary(s, date).membersAbsent == |MembersAbsent(s, date)|
  {
    var ids := PresentIds(s.attendance, date);
    var q := set x | x in ids;
    assert |q| == |PresentRows(s.attendance, date, Member)| by {
      PresentIdsCount(s.attendance, date);
      PresentIdsDistinct(s.attendance, date);
      DistinctCard(ids);
    }
    assert Count(s.students, (x: Student) => x.id in q) == |q| by {
      forall x | x in q ensures exists i :: 0 <= i < |s.students| && s.students[i].id == x {
        var i :| 0 <= i < |s.attendance| && InSlot(s.attendance[i], date, Member) && s.attendance[i].isPresent
          && s.attendance[i].studentId == Some(x);
      }
      CountIdsIn(s.students, q);
      assert q * IdSet(s.students) == q;
    }
    CountSplit(s.students, (x: Student) => x.id in q, (x: Student) => x.id !in ids);
  }

  /** Ids of a list of students. */
  function IdSet(students: seq<Student>): (r: set<Id>)
    ensures forall x :: x in r <==> exists i :: 0 <= i < |students| && students[i].id == x
  {
    if students == [] then {}
    else
      assert forall i :: 1 <= i < |students| ==> students[i] == students[1..][i - 1];
      {students[0].id} + IdSet(students[1..])
  }

  lemma {:induction false} CountIdsIn(students: seq<Student>, q: set<Id>)
    requires forall i, j :: 0 <= i < j < |students| ==> students[i].id != students[j].id
    ensures Count(students, (x: Student) => x.id in q) == |q * IdSet(students)|
  {
    if students != [] {
      var tail := students[1..];
      CountIdsIn(tail, q);
      var h := students[0].id;
      var p := (x: Student) => x.id in q;
      assert Count(students, p) == (if h in q then 1 else 0) + Count(tail, p);
      assert h !in IdSet(tail) by {
        forall i | 0 <= i < |tail| ensures tail[i].id != h {
          assert tail[i] == students[i + 1];
        }
      }
      var a := q * {h};
      var b := q * IdSet(tail);
      assert q * IdSet(students) == a + b;
      assert a !! b;
      assert |a + b| == |a| + |b|;
      assert |a| == if h in q then 1 else 0 by {
        if h in q { assert a == {h}; } else { assert a == {}; }
      }
    }
  }

  lemma {:induction false} PresentIdsCount(rows: seq<AttendanceRow>, date: string)
    requires forall i :: 0 <= i < |rows| && InSlot(rows[i], date, Member) && rows[i].isPresent ==> rows[i].studentId.Some?
    ensures |PresentRows(rows, date, Member)| == |PresentIds(rows, date)|
  {
    if rows != [] {
      PresentIdsCount(rows[1..], date);
    }
  }

  lemma {:induction false} PresentIdsDistinct(rows: seq<AttendanceRow>, date: string)
    requires UniqueMarks(rows)
    ensures Distinct(PresentIds(rows, date))
  {
    if rows != [] {
      var tail := rows[1..];
      assert UniqueMarks(tail) by {
        forall i, j | 0 <= i < j < |tail| && tail[i].studentId.Some? && InSlot(tail[i], tail[j].date, Member) && tail[j].kind == Member
          ensures tail[i].studentId != tail[j].studentId
        {
          assert tail[i] == rows[i + 1] && tail[j] == rows[j + 1];
        }
      }
      PresentIdsDistinct(tail, date);
      var h := rows[0];
      if InSlot(h, date, Member) && h.isPresent && h.studentId.Some? {
        assert h.studentId.value !in PresentIds(tail, date);
      }
    }
  }

  // ------------------------------------------------------------ weekly stats

  datatype DayStat = DayStat(date: string, present: nat, absent: nat, visitors: nat, total: nat, rate: nat)

  /** One entry of `dailyStats`: every row of the day counts toward present or
      absent, visitor rows once more toward visitors. */
  function DayStatFor(rows: seq<AttendanceRow>, day: string, totalStudents: nat): DayStat {
    var dayRows := Filter(rows, (a: AttendanceRow) => a.date == day);
    var present := Count(dayRows, (a: AttendanceRow) => a.isPresent);
    var absent := Count(dayRows, (a: AttendanceRow) => !a.isPresent);
    var visitors := Count(dayRows, (a: AttendanceRow) => a.kind == Visitor);
    DayStat(day, present, absent, visitors, present + absent + visitors, Rate(present, totalStudents))
  }

  /** A day's total is its number of rows plus its visitor rows a second time. */
  lemma DayTotalCountsVisitorsTwice(rows: seq<AttendanceRow>, day: string, totalStudents: nat)
    ensures var d := DayStatFor(rows, day, totalStudents);
      d.present + d.absent == |Filter(rows, (a: AttendanceRow) => a.date == day)|
      && d.total == |Filter(rows, (a: AttendanceRow) => a.date == day)| + d.visitors
  {
    var dayRows := Filter(rows, (a: AttendanceRow) => a.date == day);
    CountSplit(dayRows, (a: AttendanceRow) => a.isPresent, (a: AttendanceRow) => !a.isPresent);
  }

  /** The `for (i < 7)` loop of `getWeeklyAttendanceStats`, over the dates of
      the week it computed. */
  method DailyStats(rows: seq<AttendanceRow>, days: seq<string>, totalStudents: nat) returns (stats: seq<DayStat>)
    ensures |stats| == |days|
    ensures forall k :: 0 <= k < |days| ==> stats[k] == DayStatFor(rows, days[k], totalStudents)
  {
    stats := [];
    var i := 0;
    while i < |days|
      invariant 0 <= i <= |days| && |stats| == i
      invariant forall k :: 0 <= k < i ==> stats[k] == DayStatFor(rows, days[k], totalStudents)
    {
      var dayRows := Filter(rows, (a: AttendanceRow) => a.date == days[i]);
      var present := Count(dayRows, (a: AttendanceRow) => a.isPresent);
      var absent := Count(dayRows, (a: AttendanceRow) => !a.isPresent);
      var visitors := Count(dayRows, (a: AttendanceRow) => a.kind == Visitor);
      var rate := if totalStudents > 0 then RoundPercent(present, totalStudents) else 0;
      stats := stats + [DayStat(days[i], present, absent, visitors, present + absent + visitors, rate)];
      i := i + 1;
    }
  }

  function SumRates(stats: seq<DayStat>): nat {
    if stats == [] then 0 else stats[0].rate + SumRates(stats[1..])
  }

  /** `Math.round(sum / 7)` for a non-negative integer sum. */
  function AverageRate(stats: seq<DayStat>): nat {
    (2 * SumRates(stats) + 7) / 14
  }

  lemma {:induction false} SumRatesBounded(stats: seq<DayStat>)
    requires forall k :: 0 <= k < |stats| ==> stats[k].rate <= 100
    ensures SumRates(stats) <= 100 * |stats|
  {
    if stats != [] {
      SumRatesBounded(stats[1..]);
    }
  }

  /** Under the store's invariants, the present member marks of a date name
      distinct stored students, so they never outnumber the students and the
      summary's absent count is never negative. */
  lemma PresentMembersBounded(s: State, date: string)
    requires Keyed(s) && UniqueMarks(s.attendance) && MarksResolve(s, date)
    ensures GetSummary(s, date).membersPresent <= GetSummary(s, date).totalMembers
    ensures GetSummary(s, date).membersAbsent >= 0
  {
    var ids := PresentIds(s.attendance, date);
    var q := set x | x in ids;
    assert |q| == |PresentRows(s.attendance, date, Member)| by {
      PresentIdsCount(s.attendance, date);
      PresentIdsDistinct(s.attendance, date);
      DistinctCard(ids);
    }
    assert Count(s.students, (x: Student) => x.id in q) == |q| by {
      forall x | x in q ensures exists i :: 0 <= i < |s.students| && s.students[i].id == x {
        var i :| 0 <= i < |s.attendance| && InSlot(s.attendance[i], date, Member) && s.attendance[i].isPresent
          && s.attendance[i].studentId == Some(x);
      }
      CountIdsIn(s.students, q);
      assert q * IdSet(s.students) == q;
    }
  }

  /** A day without visitor rows: its present rows are its present member marks. */
  lemma {:induction false} DayPresentAreMemberMarks(rows: seq<AttendanceRow>, day: string)
    requires forall i :: 0 <= i < |rows| && rows[i].date == day ==> rows[i].kind == Member
    ensures Count(Filter(rows, (a: AttendanceRow) => a.date == day), (a: AttendanceRow) => a.isPresent)
      == |PresentRows(rows, day, Member)|
  {
    var onDay := (a: AttendanceRow) => a.date == day;
    var present := (a: AttendanceRow) => a.isPresent;
    var both := (a: AttendanceRow) => a.date == day && a.isPresent;
    FilterFilter(rows, onDay, present, both);
    FilterExt(rows, both, (r: AttendanceRow) => InSlot(r, day, Member) && r.isPresent);
  }

  /** A day whose rows are member marks of distinct stored students has a rate
      of at most 100. */
  lemma DayRateBounded(s: State, day: string)
    requires Keyed(s) && UniqueMarks(s.attendance) && MarksResolve(s, day)
    requires forall i :: 0 <= i < |s.attendance| && s.attendance[i].date == day ==> s.attendance[i].kind == Member
    ensures DayStatFor(s.attendance, day, |s.students|).rate <= 100
  {
    DayPresentAreMemberMarks(s.attendance, day);
    PresentMembersBounded(s, day);
    RateBounded(|PresentRows(s.attendance, day, Member)|, |s.students|);
  }

  /** A present visitor counts toward the day's present rows, so one member
      and one visitor present against a single stored student give 200. */
  lemma VisitorsLiftDayRate(m: AttendanceRow, v: AttendanceRow)
    requires m.kind == Member && v.kind == Visitor && m.date == v.date
    requires m.isPresent && v.isPresent
    ensures DayStatFor([m, v], m.date, 1).rate == 200
  {
    var rows := [m, v];
    assert rows[1..] == [v];
    assert Filter(rows, (a: AttendanceRow) => a.date == m.date) == rows;
    assert rows[1..][1..] == [];
    assert Count(rows, (a: AttendanceRow) => a.isPresent) == 2;
    DivBetween(200 * 2 + 1, 2, 200);
  }

  /** A week of `dailyStats` entries whose days satisfy `DayRateBounded`
      averages at most 100. */
  lemma WeekAverageBounded(s: State, days: seq<string>, stats: seq<DayStat>)
    requires Keyed(s) && UniqueMarks(s.attendance)
    requires |days| == 7 && |stats| == |days|
    requires forall k :: 0 <= k < |days| ==> stats[k] == DayStatFor(s.attendance, days[k], |s.students|)
    requires forall k :: 0 <= k < |days| ==> MarksResolve(s, days[k])
    requires forall k, i :: 0 <= k < |days| && 0 <= i < |s.attendance| && s.attendance[i].date == days[k]
                            ==> s.attendance[i].kind == Member
    ensures AverageRate(stats) <= 100
  {
    forall k | 0 <= k < |stats| ensures stats[k].rate <= 100 {
      DayRateBounded(s, days[k]);
    }
    AverageRateBounded(stats);
  }

  /** Over a seven-day week of rates at most 100 the average is at most 100. */
  lemma AverageRateBounded(stats: seq<DayStat>)
    requires |stats| == 7
    requires forall k :: 0 <= k < |stats| ==> stats[k].rate <= 100
    ensures AverageRate(stats) <= 100
  {
    SumRatesBounded(stats);
    DivBelow(2 * SumRates(stats) + 7, 14, 101);
  }
}
