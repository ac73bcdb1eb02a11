/** The three record kinds of the store: students, attendance rows and
    action-log entries, with the defaults the entity declarations give them. */
module Entities {
  import opened Wrappers
  import opened Text

  /** Generated identifiers (uuids for students and log entries, serial
      numbers for attendance rows) are drawn from one counter. */
  type Id = nat

  // ---------------------------------------------------------------- Student

  const MEMBER_ROLE := "Member"
  const VISITOR_ROLE := "Visitor"

  /** The `StudentRole` union. It is a type annotation only: the stored
      column is free text and no handler checks it. */
  predicate IsStudentRole(role: string) {
    role == MEMBER_ROLE || role == VISITOR_ROLE
  }

  /** A student record. `level` is free text (canonically L100..L600 or
      ALUMNI) and `programDurationYears` an unconstrained integer; `code` may
      be null but is unique among the codes that are present. */
  datatype Student = Student(
    id: Id,
    code: Option<string>,
    fullName: string,
    gender: string,
    level: string,
    programOfStudy: Option<string>,
    programDurationYears: int,
    expectedCompletionYear: Option<int>,
    hall: string,
    role: string,
    dateOfAdmission: string,
    dateOfBirth: Option<string>,
    residence: Option<string>,
    guardianName: Option<string>,
    guardianContact: Option<string>,
    localChurchName: Option<string>,
    localChurchLocation: Option<string>,
    district: Option<string>,
    phone: Option<string>,
    email: Option<string>,
    profileImageUrl: Option<string>)

  const ALUMNI := "ALUMNI"
  const CANONICAL_LEVELS := ["L100", "L200", "L300", "L400", "L500", "L600"]

  /** `parseInt(level.replace('L', ''))`: the number a level string denotes,
      `None` for NaN (so ALUMNI, read as "AUMNI", has no number). */
  function LevelNumber(level: string): Option<int> {
    ParseInt(RemoveFirst(level, 'L'))
  }

  /** `L${n}` */
  function LevelName(n: int): (r: string)
    ensures r != ALUMNI
  {
    var r := "L" + IntToString(n);
    assert r[0] != ALUMNI[0];
    r
  }

  lemma LevelNumberOfLevelName(n: int)
    ensures LevelNumber(LevelName(n)) == Some(n)
  {
    assert RemoveFirst(LevelName(n), 'L') == IntToString(n);
    ParseIntOfIntToString(n);
  }

  lemma AlumniHasNoLevelNumber()
    ensures LevelNumber(ALUMNI) == None
  {
    assert RemoveFirst(ALUMNI, 'L') == "AUMNI";
    assert TrimStart("AUMNI") == "AUMNI";
    assert DigitPrefix("AUMNI") == [];
  }

  /** Accessors, for grouping, filtering and key tests. */
  function StudentId(st: Student): Id {
    st.id
  }

  function LevelOf(st: Student): string {
    st.level
  }

  function GenderOf(st: Student): string {
    st.gender
  }

  function HallOf(st: Student): string {
    st.hall
  }

  // ------------------------------------------------------------- Attendance

  datatype AttendanceType = Member | Visitor
  datatype AttendanceStatus = Open | Closed

  /** An attendance row. Member rows carry `studentId`; visitor rows carry
      the visitor's details inline. */
  datatype AttendanceRow = AttendanceRow(
    id: Id,
    date: string,
    kind: AttendanceType,
    status: AttendanceStatus,
    studentId: Option<Id>,
    visitorName: Option<string>,
    visitorHall: Option<string>,
    visitorLevel: Option<string>,
    visitorPurpose: Option<string>,
    visitorPhone: Option<string>,
    visitorEmail: Option<string>,
    isPresent: bool,
    markedBy: Option<string>)

  /** The column default of `isPresent` applies when the request leaves it out. */
  function PresentOrDefault(isPresent: Option<bool>): bool {
    isPresent.GetOr(true)
  }

  /** A row as `repo.create` builds it: status takes its default OPEN. */
  function NewRow(id: Id, date: string, kind: AttendanceType, studentId: Option<Id>,
                  visitor: VisitorData, isPresent: Option<bool>, markedBy: Option<string>): (r: AttendanceRow)
    ensures r.status == Open && r.kind == kind && r.date == date && r.id == id
    ensures r.isPresent == (isPresent != Some(false))
    ensures r.studentId == studentId && r.markedBy == markedBy
    ensures && r.visitorName == visitor.fullName && r.visitorHall == visitor.hall
            && r.visitorLevel == visitor.level && r.visitorPurpose == visitor.purpose
            && r.visitorPhone == visitor.phone && r.visitorEmail == visitor.email
  {
    AttendanceRow(id, date, kind, Open, studentId,
                  visitor.fullName, visitor.hall, visitor.level, visitor.purpose,
                  visitor.phone, visitor.email, PresentOrDefault(isPresent), markedBy)
  }

  /** The `visitorData` object of a visitor mark request. */
  datatype VisitorData = VisitorData(
    fullName: Option<string>, hall: Option<string>, level: Option<string>,
    purpose: Option<string>, phone: Option<string>, email: Option<string>)

  const NO_VISITOR := VisitorData(None, None, None, None, None, None)

  // -------------------------------------------------------------- ActionLog

  datatype ActionType =
    | BulkUploadStudents
    | PromoteStudents
    | MarkAllAttendance
    | MarkIndividualAttendance

  /** One entry of a promotion's `priorLevels`. */
  datatype PriorLevel = PriorLevel(id: Id, from: string)

  /** The `metadata` column: required, shaped by the action that wrote it.
      `OtherInfo` is what handlers outside this model write. */
  datatype Metadata =
    | PromotionInfo(fromLevel: string, toLevel: string, affectedStudentIds: seq<Id>)
    | UploadInfo(createdStudentIds: seq<Id>, successes: nat, failures: nat, source: string)
    | OtherInfo

  /** The nullable `undoData` column. */
  datatype UndoData = PriorLevels(priorLevels: seq<PriorLevel>) | OtherUndo

  datatype ActionLog = ActionLog(
    id: Id,
    actionType: ActionType,
    performerUserId: string,
    metadata: Metadata,
    undone: bool,
    undoData: Option<UndoData>)

  /** A new log entry: `undone` takes its default false. */
  function NewAction(id: Id, actionType: ActionType, performer: string,
                     metadata: Metadata, undoData: Option<UndoData>): (a: ActionLog)
    ensures !a.undone && a.id == id && a.actionType == actionType
  {
    ActionLog(id, actionType, performer, metadata, false, undoData)
  }

  /** `req.auth?.sub || req.user?.id || 'unknown'`: the authentication
      middleware sets `auth` only, so the fallback is the literal. */
  function Performer(authSub: Option<string>): (r: string)
    ensures r != ""
  {
    if Truthy(authSub) then authSub.value else "unknown"
  }
}
