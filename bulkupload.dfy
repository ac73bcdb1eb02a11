/** Bulk student import: the header mapping and cleaning of one parsed row,
    its validation, the row loop that inserts students and logs the upload,
    and the undo of an upload. */
module BulkUpload {
  import opened Wrappers
  import opened Text
  import opened Counting
  import opened Entities
  import opened Store
  import opened Students

  // ------------------------------------------------------------ level text

  const LEVEL_DIGITS := ["100", "200", "300", "400", "500", "600"]

  /** `normalizeLevel` */
  function NormalizeLevel(level: string): string {
    if level == "" then ""
    else
      var ls := Lower(Trim(level));
      if Contains(ls, "100") then "L100"
      else if Contains(ls, "200") then "L200"
      else if Contains(ls, "300") then "L300"
      else if Contains(ls, "400") then "L400"
      else if Contains(ls, "500") then "L500"
      else if Contains(ls, "600") then "L600"
      else Upper(ls)
  }

  /** The first hundred found in the trimmed, lower-cased text decides the level. */
  lemma NormalizeLevelFirstMatch(level: string, k: nat)
    requires level != "" && k < 6
    requires Contains(Lower(Trim(level)), LEVEL_DIGITS[k])
    requires forall j :: 0 <= j < k ==> !Contains(Lower(Trim(level)), LEVEL_DIGITS[j])
    ensures NormalizeLevel(level) == CANONICAL_LEVELS[k]
  {
    if k >= 1 { assert !Contains(Lower(Trim(level)), LEVEL_DIGITS[0]); }
    if k >= 2 { assert !Contains(Lower(Trim(level)), LEVEL_DIGITS[1]); }
    if k >= 3 { assert !Contains(Lower(Trim(level)), LEVEL_DIGITS[2]); }
    if k >= 4 { assert !Contains(Lower(Trim(level)), LEVEL_DIGITS[3]); }
    if k >= 5 { assert !Contains(Lower(Trim(level)), LEVEL_DIGITS[4]); }
  }

  /** Without any hundred the text comes back upper-cased. */
  lemma NormalizeLevelNoMatch(level: string)
    requires level != ""
    requires forall j :: 0 <= j < 6 ==> !Contains(Lower(Trim(level)), LEVEL_DIGITS[j])
    ensures NormalizeLevel(level) == Upper(Lower(Trim(level)))
  {
    assert !Contains(Lower(Trim(level)), LEVEL_DIGITS[0]);
    assert !Contains(Lower(Trim(level)), LEVEL_DIGITS[1]);
    assert !Contains(Lower(Trim(level)), LEVEL_DIGITS[2]);
    assert !Contains(Lower(Trim(level)), LEVEL_DIGITS[3]);
    assert !Contains(Lower(Trim(level)), LEVEL_DIGITS[4]);
    assert !Contains(Lower(Trim(level)), LEVEL_DIGITS[5]);
  }

  /** The canonical levels are left as they are. */
  lemma NormalizeCanonical(level: string)
    requires level in CANONICAL_LEVELS
    ensures NormalizeLevel(level) == level
  {
    var k :| 0 <= k < 6 && CANONICAL_LEVELS[k] == level;
    TrimOfTrimmed(level);
    var ls := Lower(Trim(level));
    assert ls == "l" + LEVEL_DIGITS[k];
    assert Contains(ls, LEVEL_DIGITS[k]) by {
      assert LEVEL_DIGITS[k] <= ls[1..];
    }
    forall j | 0 <= j < k
      ensures !Contains(ls, LEVEL_DIGITS[j])
    {
      NoOtherHundred(ls, k, j);
    }
    NormalizeLevelFirstMatch(level, k);
  }

  lemma NoOtherHundred(ls: string, k: nat, j: nat)
    requires k < 6 && j < 6 && j != k && ls == "l" + LEVEL_DIGITS[k]
    ensures !Contains(ls, LEVEL_DIGITS[j])
  {
    var d := LEVEL_DIGITS[j];
    assert |d| == 3 && d[0] != 'l';
    assert !Contains(ls[4..], d);
    assert !Contains(ls[3..], d) by { assert ls[3..][1..] == ls[4..]; }
    assert !Contains(ls[2..], d) by { assert ls[2..][1..] == ls[3..]; }
    assert !Contains(ls[1..], d) by {
      assert ls[1..][1..] == ls[2..];
      assert d[0] != ls[1];
    }
  }

  /** Normalizing twice is normalizing once, so the second normalization the
      validation applies to an already mapped level decides nothing new. */
  lemma NormalizeLevelIdempotent(level: string)
    ensures NormalizeLevel(NormalizeLevel(level)) == NormalizeLevel(level)
  {
    var r := NormalizeLevel(level);
    if level != "" {
      var ls := Lower(Trim(level));
      if exists j :: 0 <= j < 6 && Contains(ls, LEVEL_DIGITS[j]) {
        assert r in CANONICAL_LEVELS;
        NormalizeCanonical(r);
      } else {
        NormalizeLevelNoMatch(level);
        if r != "" {
          CaseMapKeepsTrimmed(Trim(level));
          CaseMapKeepsTrimmed(ls);
          TrimOfTrimmed(r);
          LowerUpperOfLower(Trim(level));
          assert Lower(Trim(r)) == ls;
          NormalizeLevelNoMatch(r);
        }
      }
    }
  }

  // ------------------------------------------------------------ row mapping

  /** A property of the row object: missing (`undefined`), `null`, or a value. */
  datatype Cell<+T> = Undef | Null | Val(v: T)

  /** A cell that is a non-empty string. */
  predicate Filled(c: Cell<string>) {
    c.Val? && c.v != ""
  }

  /** The nullable column a cell is stored into. */
  function Column<T>(c: Cell<T>): Option<T> {
    if c.Val? then Some(c.v) else None
  }

  /** `${value}` in a template string. */
  function Show(c: Cell<string>): string {
    match c
    case Undef => "undefined"
    case Null => "null"
    case Val(s) => s
  }

  /** A row as the CSV parser yields it: header text to cell text. */
  type Row = map<string, string>

  /** The headers of `COLUMN_MAPPING`, in its order. */
  const HEADERS := ["Student ID", "Full Name", "Gender", "Academic Level", "Program of study",
                    "Duration of Program", "Expected Completion Year", "Hall/Hostel", "Contact", "Email",
                    "Date of Birth", "Place of Residence", "Parent/Guardian Name", "Parent/Guardian Contact",
                    "Local Church Name", "Local church location", "District", "Date of Admission", "Role",
                    "Profile Image URL"]

  /** What the model takes from the platform: today's date, the Excel-serial
      branch of `convertExcelDate`, `Date.parse` and `new URL`. */
  datatype Env = Env(
    today: string,
    serialDate: string -> Option<string>,
    dateParses: string -> bool,
    urlParses: string -> bool,
    year: nat)

  /** `convertExcelDate` on a cell: falsy gives null, text holding '/' or '-'
      is returned as it is, anything else goes to the serial conversion. That
      conversion (a spreadsheet serial number through `Date`) is the parameter
      `env.serialDate`, about which nothing is promised here. */
  function ConvertExcelDate(env: Env, c: Cell<string>): (r: Option<string>)
    ensures !Filled(c) ==> r.None?
    ensures Filled(c) && ('/' in c.v || '-' in c.v) ==> r == Some(c.v)
  {
    if !Filled(c) then None
    else if '/' in c.v || '-' in c.v then Some(c.v)
    else env.serialDate(c.v)
  }

  /** A row after `mapRowData`. The duration is always a number (`None` is
      NaN); the completion year is a number (or NaN) when the cell was filled. */
  datatype MappedRow = MappedRow(
    code: Cell<string>,
    fullName: Cell<string>,
    gender: Cell<string>,
    level: Cell<string>,
    programOfStudy: Cell<string>,
    programDurationYears: Option<int>,
    expectedCompletionYear: Cell<Option<int>>,
    hall: Cell<string>,
    phone: Cell<string>,
    email: Cell<string>,
    dateOfBirth: Cell<string>,
    residence: Cell<string>,
    guardianName: Cell<string>,
    guardianContact: Cell<string>,
    localChurchName: Cell<string>,
    localChurchLocation: Cell<string>,
    district: Cell<string>,
    dateOfAdmission: Cell<string>,
    role: Cell<string>,
    profileImageUrl: Cell<string>)

  /** `row[header]` */
  function Raw(row: Row, header: string): Cell<string> {
    if header in row then Val(row[header]) else Undef
  }

  /** The final cleaning pass: strings are trimmed and '' becomes null. */
  function Clean(c: Cell<string>): (r: Cell<string>)
    ensures r.Val? ==> r.v != "" && Trimmed(r.v)
  {
    if c.Val? then (if Trim(c.v) == "" then Null else Val(Trim(c.v))) else c
  }

  /** `convertedDate || value` */
  function DateOrRaw(env: Env, c: Cell<string>): string
    requires c.Val?
  {
    var d := ConvertExcelDate(env, c);
    if d.Some? && d.value != "" then d.value else c.v
  }

  /** `mapRowData` */
  function MapRow(env: Env, row: Row): (m: MappedRow)
    ensures m.programDurationYears == if Filled(Raw(row, "Duration of Program"))
                                       then ParseInt(row["Duration of Program"]) else Some(4)
  {
    var role := Raw(row, "Role");
    var duration := Raw(row, "Duration of Program");
    var year := Raw(row, "Expected Completion Year");
    var level := Raw(row, "Academic Level");
    var admitted := Raw(row, "Date of Admission");
    var born := Raw(row, "Date of Birth");
    MappedRow(
      Clean(Raw(row, "Student ID")),
      Clean(Raw(row, "Full Name")),
      Clean(Raw(row, "Gender")),
      Clean(if Filled(level) then Val(NormalizeLevel(level.v)) else level),
      Clean(Raw(row, "Program of study")),
      if Filled(duration) then ParseInt(duration.v) else Some(4),
      if Filled(year) then Val(ParseInt(year.v)) else if year.Val? then Null else Undef,
      Clean(Raw(row, "Hall/Hostel")),
      Clean(Raw(row, "Contact")),
      Clean(Raw(row, "Email")),
      Clean(if Filled(born) then Val(DateOrRaw(env, born)) else born),
      Clean(Raw(row, "Place of Residence")),
      Clean(Raw(row, "Parent/Guardian Name")),
      Clean(Raw(row, "Parent/Guardian Contact")),
      Clean(Raw(row, "Local Church Name")),
      Clean(Raw(row, "Local church location")),
      Clean(Raw(row, "District")),
      Clean(if Filled(admitted) then Val(DateOrRaw(env, admitted)) else Val(env.today)),
      Clean(if Filled(role) then role else Val(MEMBER_ROLE)),
      Clean(Raw(row, "Profile Image URL")))
  }

  /** Only the mapped headers are read: any other column is ignored. */
  lemma MapRowIgnoresOtherHeaders(env: Env, row: Row, header: string, text: string)
    requires header !in HEADERS
    ensures MapRow(env, row[header := text]) == MapRow(env, row)
  {
    forall h | h in HEADERS ensures Raw(row[header := text], h) == Raw(row, h) {
    }
  }

  /** Every stored string is trimmed and non-empty; a missing or blank role
      becomes Member and a missing or blank duration becomes 4. */
  lemma MapRowDefaults(env: Env, row: Row)
    ensures var m := MapRow(env, row);
      && (m.fullName.Val? ==> m.fullName.v != "" && Trimmed(m.fullName.v))
      && (m.email.Val? ==> m.email.v != "" && Trimmed(m.email.v))
      && (!Filled(Raw(row, "Role")) ==> m.role == Val(MEMBER_ROLE))
      && (!Filled(Raw(row, "Duration of Program")) ==> m.programDurationYears == Some(4))
      && (!Filled(Raw(row, "Date of Admission")) && Trim(env.today) != "" ==> m.dateOfAdmission == Val(Trim(env.today)))
  {
    assert Trimmed(MEMBER_ROLE) && Trim(MEMBER_ROLE) == MEMBER_ROLE by {
      TrimOfTrimmed(MEMBER_ROLE);
    }
  }

  // --------------------------------------------------------------- validation

  const FULL_NAME_REQUIRED := "Full Name is required"
  const GENDER_REQUIRED := "Gender is required"
  const LEVEL_REQUIRED := "Academic Level is required"
  const HALL_REQUIRED := "Hall/Hostel is required"
  const GENDER_INVALID := "Gender must be Male or Female"
  const LEVEL_INVALID := "Academic Level must be L100, L200, L300, L400, L500, or L600 (supports formats like \"Level 100\", \"level 100\", \"L100\", etc.)"
  const DURATION_INVALID := "Program Duration must be between 1 and 6 years"
  const YEAR_INVALID := "Expected Completion Year must be between 1900 and 2100"
  const EMAIL_INVALID := "Invalid email format"
  const URL_INVALID := "Invalid Profile Image URL format"
  const ADMISSION_INVALID := "Invalid Date of Admission format"
  const BIRTH_INVALID := "Invalid Date of Birth format"

  /** A character `[^\s@]` admits. */
  predicate EmailChar(c: char) {
    !IsSpace(c) && c != '@'
  }

  /** `/^[^\s@]+@[^\s@]+\.[^\s@]+$/.test(e)`: one '@' after a non-empty
      local part, and a '.' with at least one character on each side in the
      domain. */
  predicate IsEmail(e: string) {
    exists at, dot :: (&& 0 < at < dot - 1 && dot < |e| - 1 && e[at] == '@' && e[dot] == '.'
                       && (forall i :: 0 <= i < |e| && i != at ==> EmailChar(e[i])))
  }

  /** An error message when `fails`, else nothing. */
  function Check(fails: bool, message: string): seq<string> {
    if fails then [message] else []
  }

  /** `validateStudentData`: every failed check adds its message, in order. */
  function Validate(env: Env, m: MappedRow): (errors: seq<string>)
    ensures errors == [] ==> Filled(m.fullName) && Filled(m.gender) && Filled(m.level) && Filled(m.hall)
    ensures errors == [] ==> m.gender.v in ["Male", "Female"] && NormalizeLevel(m.level.v) in CANONICAL_LEVELS
  {
    var admitted := ConvertExcelDate(env, m.dateOfAdmission);
    var born := ConvertExcelDate(env, m.dateOfBirth);
    Check(!Filled(m.fullName), FULL_NAME_REQUIRED)
    + Check(!Filled(m.gender), GENDER_REQUIRED)
    + Check(!Filled(m.level), LEVEL_REQUIRED)
    + Check(!Filled(m.hall), HALL_REQUIRED)
    + Check(Filled(m.gender) && m.gender.v !in ["Male", "Female"], GENDER_INVALID)
    + Check(Filled(m.level) && NormalizeLevel(m.level.v) !in CANONICAL_LEVELS, LEVEL_INVALID)
    + Check(m.programDurationYears.Some? && m.programDurationYears.value != 0
            && (m.programDurationYears.value < 1 || m.programDurationYears.value > 6), DURATION_INVALID)
    + Check(m.expectedCompletionYear.Val? && m.expectedCompletionYear.v.Some? && m.expectedCompletionYear.v.value != 0
            && (m.expectedCompletionYear.v.value < 1900 || m.expectedCompletionYear.v.value > 2100), YEAR_INVALID)
    + Check(Filled(m.email) && !IsEmail(m.email.v), EMAIL_INVALID)
    + Check(Filled(m.profileImageUrl) && !env.urlParses(m.profileImageUrl.v), URL_INVALID)
    + Check(Filled(m.dateOfAdmission) && !(admitted.Some? && admitted.value != "" && env.dateParses(admitted.value)),
            ADMISSION_INVALID)
    + Check(Filled(m.dateOfBirth) && !(born.Some? && born.value != "" && env.dateParses(born.value)), BIRTH_INVALID)
  }

  /** The normalized level never has whitespace at its ends. */
  lemma NormalizeLevelTrimmed(level: string)
    ensures Trimmed(NormalizeLevel(level))
  {
    if level != "" {
      var ls := Lower(Trim(level));
      if forall j :: 0 <= j < 6 ==> !Contains(ls, LEVEL_DIGITS[j]) {
        NormalizeLevelNoMatch(level);
        CaseMapKeepsTrimmed(Trim(level));
        CaseMapKeepsTrimmed(ls);
      }
    }
  }

  /** The two level checks on a mapped row. */
  predicate LevelChecksPass(m: MappedRow) {
    Filled(m.level) && NormalizeLevel(m.level.v) in CANONICAL_LEVELS
  }

  /** A filled level cell passes both level checks exactly when its text
      normalizes to a canonical level: the check normalizes the mapped level
      a second time, which changes nothing. */
  lemma LevelCheckMatchesNormalized(env: Env, row: Row)
    requires Filled(Raw(row, "Academic Level"))
    ensures LevelChecksPass(MapRow(env, row)) <==> NormalizeLevel(row["Academic Level"]) in CANONICAL_LEVELS
  {
    var n := NormalizeLevel(row["Academic Level"]);
    var m := MapRow(env, row);
    NormalizeLevelTrimmed(row["Academic Level"]);
    TrimOfTrimmed(n);
    assert m.level == Clean(Val(n));
    if n in CANONICAL_LEVELS {
      NormalizeCanonical(n);
    } else {
      NormalizeLevelIdempotent(row["Academic Level"]);
    }
  }

  /** Durations of 0 and NaN are falsy and skip the range check, so only a
      non-zero number outside 1..6 is reported. */
  lemma DurationCheck(env: Env, m: MappedRow)
    ensures DURATION_INVALID in Validate(env, m) <==>
      (m.programDurationYears.Some? && m.programDurationYears.value != 0
       && !(1 <= m.programDurationYears.value <= 6))
  {
    var others := [FULL_NAME_REQUIRED, GENDER_REQUIRED, LEVEL_REQUIRED, HALL_REQUIRED, GENDER_INVALID,
                   LEVEL_INVALID, YEAR_INVALID, EMAIL_INVALID, URL_INVALID, ADMISSION_INVALID, BIRTH_INVALID];
    assert forall i :: 0 <= i < |others| ==> others[i] != DURATION_INVALID by {
      assert forall i :: 0 <= i < |others| ==> |others[i]| != |DURATION_INVALID| || others[i][0] != DURATION_INVALID[0];
    }
  }

  // ------------------------------------------------------------- the row loop

  const NO_FILE := "No file uploaded"
  const UNSUPPORTED_FILE := "Unsupported file type. Please upload CSV or Excel files."
  const DATABASE_ERROR := "Database error: "

  /** `findOne({ where: [{ email }, { code }] })`: an alternative whose value
      is null or undefined is dropped, and with both dropped the query has no
      condition and matches any stored student. */
  predicate MatchesExisting(students: seq<Student>, m: MappedRow) {
    if !m.email.Val? && !m.code.Val? then |students| > 0
    else exists i :: (&& 0 <= i < |students|
                      && ((m.email.Val? && students[i].email == Some(m.email.v))
                          || (m.code.Val? && students[i].code == Some(m.code.v))))
  }

  /** The insert succeeds: the non-nullable columns validation does not check
      are filled, no integer column holds NaN, and the code is not taken. */
  predicate Insertable(students: seq<Student>, m: MappedRow, code: string) {
    && m.role.Val? && m.dateOfAdmission.Val? && m.programDurationYears.Some?
    && !(m.expectedCompletionYear.Val? && m.expectedCompletionYear.v.None?)
    && !CodeTaken(students, code)
  }

  /** The error text of a duplicate row, the cells shown as a template string shows them. */
  function DuplicateMessage(m: MappedRow): string {
    "Student already exists with email: " + Show(m.email) + " or code: " + Show(m.code)
  }

  /** `repo.create(mappedRow)` */
  function RowStudent(id: Id, code: string, m: MappedRow): Student
    requires m.fullName.Val? && m.gender.Val? && m.level.Val? && m.hall.Val?
    requires m.role.Val? && m.dateOfAdmission.Val? && m.programDurationYears.Some?
  {
    Student(id, Some(code), m.fullName.v, m.gender.v, m.level.v, Column(m.programOfStudy),
            m.programDurationYears.value,
            if m.expectedCompletionYear.Val? then m.expectedCompletionYear.v else None,
            m.hall.v, m.role.v, m.dateOfAdmission.v, Column(m.dateOfBirth), Column(m.residence),
            Column(m.guardianName), Column(m.guardianContact), Column(m.localChurchName),
            Column(m.localChurchLocation), Column(m.district), Column(m.phone), Column(m.email),
            Column(m.profileImageUrl))
  }

  /** What happens to one row: an error text, or the student inserted. */
  datatype Outcome = Rejected(error: string) | Inserted(student: Student)

  /** The code a row is stored under: its own, or one generated after the
      duplicate check. */
  function RowCode(students: seq<Student>, m: MappedRow, year: nat): string {
    if Filled(m.code) then m.code.v else NextCode(students, year)
  }

  /** One iteration of the row loop of `bulkUploadStudents`. */
  function RowOutcome(env: Env, students: seq<Student>, id: Id, row: Row): (o: Outcome)
    ensures o.Inserted? ==> (var m := MapRow(env, row);
      && Validate(env, m) == []
      && !MatchesExisting(students, m)
      && o.student.id == id
      && o.student.code == Some(RowCode(students, m, env.year))
      && !CodeTaken(students, RowCode(students, m, env.year))
      && o.student.gender in ["Male", "Female"])
    ensures var m := MapRow(env, row);
      Validate(env, m) == [] && MatchesExisting(students, m) ==>
        o == Rejected(DuplicateMessage(m))
  {
    var m := MapRow(env, row);
    var errors := Validate(env, m);
    if errors != [] then Rejected(Join(errors, ", "))
    else if MatchesExisting(students, m) then
      Rejected(DuplicateMessage(m))
    else
      var code := RowCode(students, m, env.year);
      if !Insertable(students, m, code) then Rejected(DATABASE_ERROR)
      else Inserted(RowStudent(id, code, m))
  }

  /** The mapped level is already in normal form. */
  lemma MappedLevelNormal(env: Env, row: Row)
    ensures var m := MapRow(env, row); m.level.Val? ==> NormalizeLevel(m.level.v) == m.level.v
  {
    var raw := Raw(row, "Academic Level");
    if Filled(raw) {
      var n := NormalizeLevel(raw.v);
      NormalizeLevelTrimmed(raw.v);
      TrimOfTrimmed(n);
      NormalizeLevelIdempotent(raw.v);
      assert MapRow(env, row).level == Clean(Val(n));
    } else {
      assert MapRow(env, row).level == Clean(raw);
    }
  }

  /** A stored row always has a canonical level. */
  lemma InsertedLevelCanonical(env: Env, students: seq<Student>, id: Id, row: Row)
    requires RowOutcome(env, students, id, row).Inserted?
    ensures RowOutcome(env, students, id, row).student.level in CANONICAL_LEVELS
  {
    var m := MapRow(env, row);
    MappedLevelNormal(env, row);
    assert RowOutcome(env, students, id, row).student.level == m.level.v;
  }

  datatype RowError = RowError(row: nat, error: string)
  datatype Created = Created(id: Id, code: string, fullName: string)

  /** The loop's running state: the student table, the id generator, and the
      two result lists. */
  datatype Progress = Progress(students: seq<Student>, nextId: Id, errors: seq<RowError>, created: seq<Created>)

  /** One pass of the loop body: the row at index `n` had outcome `o`. */
  function Advance(p: Progress, n: nat, o: Outcome): (q: Progress)
    ensures |q.errors| + |q.created| == |p.errors| + |p.created| + 1
    ensures |q.errors| >= |p.errors| && |q.created| >= |p.created|
    ensures q.nextId == p.nextId + |q.created| - |p.created|
    ensures |q.students| == |p.students| + |q.created| - |p.created|
    ensures q.students[..|p.students|] == p.students && q.created[..|p.created|] == p.created
    ensures q.errors[..|p.errors|] == p.errors
    ensures |q.created| > |p.created| ==> o.Inserted? && q.created[|p.created|].id == o.student.id && q.students[|p.students|] == o.student
    ensures |q.errors| > |p.errors| ==> q.errors[|p.errors|].row == n + 2
  {
    match o
    case Rejected(e) => p.(errors := p.errors + [RowError(n + 2, e)])
    case Inserted(st) =>
      p.(students := p.students + [st], nextId := p.nextId + 1,
         created := p.created + [Created(st.id, st.code.GetOr(""), st.fullName)])
  }

  /** What the loop does with one row, given the table and the next id. */
  type Handler = (seq<Student>, Id, Row) -> Outcome

  /** The loop body of `bulkUploadStudents` as a handler. */
  function Handle(env: Env): Handler {
    (students: seq<Student>, id: Id, row: Row) => RowOutcome(env, students, id, row)
  }

  /** A handler that stores a row stores it under the id it is given. */
  ghost predicate UsesGivenId(h: Handler) {
    forall students, id, row :: h(students, id, row).Inserted? ==> h(students, id, row).student.id == id
  }

  lemma HandleUsesGivenId(env: Env)
    ensures UsesGivenId(Handle(env))
  {
    forall students, id, row | Handle(env)(students, id, row).Inserted?
      ensures Handle(env)(students, id, row).student.id == id
    {
      assert Handle(env)(students, id, row) == RowOutcome(env, students, id, row);
    }
  }

  /** The row loop over `rows`, the spreadsheet row of `rows[i]` being `i + 2`. */
  function Upload(h: Handler, students: seq<Student>, nextId: Id, rows: seq<Row>): Progress
    decreases |rows|
  {
    if rows == [] then Progress(students, nextId, [], [])
    else
      var p := Upload(h, students, nextId, rows[..|rows| - 1]);
      Advance(p, |rows| - 1, h(p.students, p.nextId, rows[|rows| - 1]))
  }

  /** Every row is counted once, as an error or as a created student, and
      the created students are appended to the table under consecutive
      fresh ids. */
  lemma {:induction false} UploadAccounting(h: Handler, students: seq<Student>, nextId: Id, rows: seq<Row>)
    requires UsesGivenId(h)
    ensures var p := Upload(h, students, nextId, rows);
      && |p.errors| + |p.created| == |rows|
      && p.nextId == nextId + |p.created|
      && |p.students| == |students| + |p.created|
      && p.students[..|students|] == students
      && (forall i :: 0 <= i < |p.created| ==>
            p.created[i].id == nextId + i && p.students[|students| + i].id == nextId + i)
    decreases |rows|
  {
    if rows != [] {
      var p := Upload(h, students, nextId, rows[..|rows| - 1]);
      UploadAccounting(h, students, nextId, rows[..|rows| - 1]);
      var q := Upload(h, students, nextId, rows);
      assert q.students[..|students|] == p.students[..|students|];
      forall i | 0 <= i < |q.created|
        ensures q.created[i].id == nextId + i && q.students[|students| + i].id == nextId + i
      {
        if i < |p.created| {
          assert q.created[i] == p.created[i];
          assert q.students[|students| + i] == p.students[|students| + i];
        }
      }
    }
  }

  /** Error rows lie in `lo..hi` and strictly increase. */
  predicate RowsOrdered(errors: seq<RowError>, lo: nat, hi: nat) {
    && (forall i :: 0 <= i < |errors| ==> lo <= errors[i].row <= hi)
    && (forall i, j :: 0 <= i < j < |errors| ==> errors[i].row < errors[j].row)
  }

  lemma RowsOrderedAppend(errors: seq<RowError>, lo: nat, hi: nat, e: RowError)
    requires RowsOrdered(errors, lo, hi) && hi < e.row && lo <= e.row
    ensures RowsOrdered(errors + [e], lo, e.row)
  {
  }

  /** Error entries name spreadsheet rows 2 to `|rows| + 1`, in increasing order. */
  lemma {:induction false} UploadErrorRows(h: Handler, students: seq<Student>, nextId: Id, rows: seq<Row>)
    ensures RowsOrdered(Upload(h, students, nextId, rows).errors, 2, |rows| + 1)
    decreases |rows|
  {
    if rows != [] {
      var p := Upload(h, students, nextId, rows[..|rows| - 1]);
      UploadErrorRows(h, students, nextId, rows[..|rows| - 1]);
      var q := Advance(p, |rows| - 1, h(p.students, p.nextId, rows[|rows| - 1]));
      assert Upload(h, students, nextId, rows) == q;
      if |q.errors| == |p.errors| {
        assert q.errors == p.errors by { assert q.errors[..|p.errors|] == p.errors; }
      } else {
        assert q.errors == p.errors + [q.errors[|p.errors|]] by { assert q.errors[..|p.errors|] == p.errors; }
        RowsOrderedAppend(p.errors, 2, |rows|, q.errors[|p.errors|]);
      }
    }
  }

  /** Processing rows keeps the primary keys: each created student takes the
      next fresh id. */
  lemma {:induction false} UploadKeepsKeys(h: Handler, s: State, rows: seq<Row>)
    requires Keyed(s) && UsesGivenId(h)
    ensures var p := Upload(h, s.students, s.nextId, rows);
      Keyed(s.(students := p.students, nextId := p.nextId))
    decreases |rows|
  {
    if rows != [] {
      var p := Upload(h, s.students, s.nextId, rows[..|rows| - 1]);
      UploadKeepsKeys(h, s, rows[..|rows| - 1]);
      var o := h(p.students, p.nextId, rows[|rows| - 1]);
      if o.Inserted? {
        KeyedAppendStudent(s.(students := p.students, nextId := p.nextId), o.student);
      }
    }
  }

  // ---------------------------------------------------------- the endpoint

  /** `req.file` after the upload middleware: its type, its name, and the rows
      the CSV or Excel parser yields for it. */
  datatype UploadFile = UploadFile(mimetype: string, originalname: string, rows: seq<Row>)

  predicate IsCsv(f: UploadFile) {
    f.mimetype == "text/csv" || EndsWith(f.originalname, ".csv")
  }

  predicate IsExcel(f: UploadFile) {
    Contains(f.mimetype, "spreadsheet") || EndsWith(f.originalname, ".xlsx") || EndsWith(f.originalname, ".xls")
  }

  /** The JSON body of a processed upload. */
  datatype UploadReport = UploadReport(
    success: bool,
    totalRows: nat,
    successfulRows: nat,
    failedRows: nat,
    errors: seq<RowError>,
    createdStudents: seq<Created>,
    actionId: Option<Id>)

  /** `result.createdStudents.map(s => s.id)` */
  function CreatedIds(created: seq<Created>): (r: seq<Id>)
    ensures |r| == |created| && forall i :: 0 <= i < |r| ==> r[i] == created[i].id
  {
    Project(created, (c: Created) => c.id)
  }

  /** `bulkUploadStudents`: each row is mapped, validated, checked for a
      duplicate and inserted; an upload that created anyone is logged. */
  function BulkUploadStep(s: State, env: Env, file: Option<UploadFile>, authSub: Option<string>): (st: Step<UploadReport>)
    ensures st.reply == Err(400, NO_FILE) <==> file.None?
    ensures st.reply == Err(400, UNSUPPORTED_FILE) <==> file.Some? && !IsCsv(file.value) && !IsExcel(file.value)
    ensures st.reply.Err? ==> st.after == s
    ensures st.reply.Ok? ==> (var p := Upload(Handle(env), s.students, s.nextId, file.value.rows); var r := st.reply.value;
      && file.Some? && (IsCsv(file.value) || IsExcel(file.value))
      && st.reply.status == 200
      && r.totalRows == |file.value.rows| == r.successfulRows + r.failedRows
      && r.successfulRows == |r.createdStudents| && r.failedRows == |r.errors|
      && r.errors == p.errors && r.createdStudents == p.created
      && (r.success <==> r.successfulRows > 0)
      && st.after.students == p.students
      && st.after.attendance == s.attendance
      && (r.success ==> (&& r.actionId == Some(p.nextId)
                         && st.after.actions == s.actions + [NewAction(p.nextId, BulkUploadStudents, Performer(authSub),
                              UploadInfo(CreatedIds(p.created), |p.created|, |p.errors|, file.value.originalname), None)]))
      && (!r.success ==> r.actionId.None? && st.after.actions == s.actions))
  {
    if file.None? then Step(Err(400, NO_FILE), s)
    else if !IsCsv(file.value) && !IsExcel(file.value) then Step(Err(400, UNSUPPORTED_FILE), s)
    else
      var f := file.value;
      var p := Upload(Handle(env), s.students, s.nextId, f.rows);
      HandleUsesGivenId(env);
      UploadAccounting(Handle(env), s.students, s.nextId, f.rows);
      var ok := |p.created| > 0;
      if ok then
        var entry := NewAction(p.nextId, BulkUploadStudents, Performer(authSub),
                               UploadInfo(CreatedIds(p.created), |p.created|, |p.errors|, f.originalname), None);
        Step(Ok(200, UploadReport(true, |f.rows|, |p.created|, |p.errors|, p.errors, p.created, Some(entry.id))),
             s.(students := p.students, actions := s.actions + [entry], nextId := p.nextId + 1))
      else
        Step(Ok(200, UploadReport(false, |f.rows|, 0, |p.errors|, p.errors, p.created, None)),
             s.(students := p.students, nextId := p.nextId))
  }

  /** The reply's errors name spreadsheet rows (the header is row 1) in
      increasing order. */
  lemma BulkUploadReplyErrorRows(s: State, env: Env, file: Option<UploadFile>, authSub: Option<string>)
    requires BulkUploadStep(s, env, file, authSub).reply.Ok?
    ensures RowsOrdered(BulkUploadStep(s, env, file, authSub).reply.value.errors, 2, |file.value.rows| + 1)
  {
    UploadErrorRows(Handle(env), s.students, s.nextId, file.value.rows);
  }

  /** The endpoint keeps the primary keys. */
  lemma BulkUploadKeepsKeys(s: State, env: Env, file: Option<UploadFile>, authSub: Option<string>)
    requires Keyed(s)
    ensures Keyed(BulkUploadStep(s, env, file, authSub).after)
  {
    if file.Some? && (IsCsv(file.value) || IsExcel(file.value)) {
      var p := Upload(Handle(env), s.students, s.nextId, file.value.rows);
      HandleUsesGivenId(env);
      UploadKeepsKeys(Handle(env), s, file.value.rows);
      var mid := s.(students := p.students, nextId := p.nextId);
      if |p.created| > 0 {
        KeyedAppendAction(mid, NewAction(p.nextId, BulkUploadStudents, Performer(authSub),
          UploadInfo(CreatedIds(p.created), |p.created|, |p.errors|, file.value.originalname), None));
      }
    }
  }

  /** One pass of the row loop on the database, given the row's outcome. */
  method ProcessRow(db: Db, p: Progress, n: nat, o: Outcome) returns (q: Progress)
    requires db.Valid() && p.students == db.students && p.nextId == db.nextId
    requires o.Inserted? ==> o.student.id == p.nextId
    modifies db
    ensures db.Valid() && q == Advance(p, n, o)
    ensures db.Abs() == old(db.Abs()).(students := q.students, nextId := q.nextId)
  {
    match o
    case Rejected(e) =>
      q := p.(errors := p.errors + [RowError(n + 2, e)]);
    case Inserted(st) =>
      KeyedAppendStudent(db.Abs(), st);
      db.students := db.students + [st];
      db.nextId := db.nextId + 1;
      q := p.(students := db.students, nextId := db.nextId,
              created := p.created + [Created(st.id, st.code.GetOr(""), st.fullName)]);
  }

  /** The fold over one more row is one more `Advance`. */
  lemma UploadPrefixStep(h: Handler, students: seq<Student>, nextId: Id, rows: seq<Row>, i: nat)
    requires i < |rows|
    ensures var p := Upload(h, students, nextId, rows[..i]);
      Upload(h, students, nextId, rows[..i + 1]) == Advance(p, i, h(p.students, p.nextId, rows[i]))
  {
    assert rows[..i + 1][..i] == rows[..i];
  }

  /** The row loop of `bulkUploadStudents` on the database. */
  method ProcessRows(db: Db, env: Env, rows: seq<Row>) returns (p: Progress)
    requires db.Valid()
    modifies db
    ensures db.Valid()
    ensures p == Upload(Handle(env), old(db.students), old(db.nextId), rows)
    ensures db.Abs() == old(db.Abs()).(students := p.students, nextId := p.nextId)
  {
    p := Progress(db.students, db.nextId, [], []);
    ghost var s0 := db.Abs();
    var i := 0;
    while i < |rows|
      invariant 0 <= i <= |rows|
      invariant db.Valid() && db.Abs() == s0.(students := p.students, nextId := p.nextId)
      invariant p == Upload(Handle(env), s0.students, s0.nextId, rows[..i])
    {
      UploadPrefixStep(Handle(env), s0.students, s0.nextId, rows, i);
      var o := RowOutcome(env, db.students, db.nextId, rows[i]);
      assert o == Handle(env)(p.students, p.nextId, rows[i]);
      p := ProcessRow(db, p, i, o);
      i := i + 1;
    }
    assert rows[..i] == rows;
  }

  /** `bulkUploadStudents` on the database. */
  method UploadStudents(db: Db, env: Env, file: Option<UploadFile>, authSub: Option<string>)
    returns (r: Result<UploadReport>)
    requires db.Valid()
    modifies db
    ensures db.Valid()
    ensures Step(r, db.Abs()) == BulkUploadStep(old(db.Abs()), env, file, authSub)
  {
    if file.None? {
      return Err(400, NO_FILE);
    }
    var f := file.value;
    if !IsCsv(f) && !IsExcel(f) {
      return Err(400, UNSUPPORTED_FILE);
    }
    var p := ProcessRows(db, env, f.rows);
    var errors, created := p.errors, p.created;
    if |created| > 0 {
      var entry := NewAction(db.nextId, BulkUploadStudents, Performer(authSub),
                             UploadInfo(CreatedIds(created), |created|, |errors|, f.originalname), None);
      KeyedAppendAction(db.Abs(), entry);
      db.actions := db.actions + [entry];
      db.nextId := db.nextId + 1;
      r := Ok(200, UploadReport(true, |f.rows|, |created|, |errors|, errors, created, Some(entry.id)));
    } else {
      r := Ok(200, UploadReport(false, |f.rows|, 0, |errors|, errors, created, None));
    }
  }

  // ------------------------------------------------------------------ undo

  const NOT_AN_UPLOAD := "Action type not undoable by this endpoint"
  const CHUNK := 100

  /** `action.metadata?.createdStudentIds || []` */
  function LoggedIds(m: Metadata): seq<Id> {
    if m.UploadInfo? then m.createdStudentIds else []
  }

  function IdNotIn(ids: seq<Id>): Student -> bool {
    (st: Student) => st.id !in ids
  }

  lemma IdNotInSplit(a: seq<Id>, b: seq<Id>)
    ensures forall st :: IdNotIn(a + b)(st) == (IdNotIn(a)(st) && IdNotIn(b)(st))
  {
  }

  /** Deleting the ids `ids[..i]` and then `ids[i..j]` deletes `ids[..j]`. */
  lemma DeleteMore(students: seq<Student>, ids: seq<Id>, i: nat, j: nat)
    requires i <= j <= |ids|
    ensures Filter(Filter(students, IdNotIn(ids[..i])), IdNotIn(ids[i..j])) == Filter(students, IdNotIn(ids[..j]))
  {
    assert ids[..j] == ids[..i] + ids[i..j];
    IdNotInSplit(ids[..i], ids[i..j]);
    FilterFilter(students, IdNotIn(ids[..i]), IdNotIn(ids[i..j]), IdNotIn(ids[..j]));
  }

  datatype UploadUndoReply = UploadNothingToUndo | UploadUndone(undone: nat)

  /** `undoBulkUpload`: after the guard, the students the upload created are
      deleted and the entry is marked undone. */
  function UndoUploadStep(s: State, actionId: Id): (st: Step<UploadUndoReply>)
    ensures st.reply.Err? ==> st.after == s
    ensures var g := UndoGuard(s.actions, actionId, BulkUploadStudents, NOT_AN_UPLOAD);
      && (st.reply.Err? <==> g.Err?)
      && (g.Err? ==> st.reply == Err(g.status, g.message))
      && (st.reply == Ok(200, UploadNothingToUndo) <==> g.Ok? && LoggedIds(s.actions[g.value].metadata) == [])
    ensures st.reply == Ok(200, UploadNothingToUndo) ==> st.after == s
    ensures st.reply.Ok? && st.reply.value.UploadUndone? ==> (var k := UndoGuard(s.actions, actionId, BulkUploadStudents, NOT_AN_UPLOAD).value;
      var ids := LoggedIds(s.actions[k].metadata);
      && st.reply.value.undone == |ids| > 0
      && (forall i :: 0 <= i < |st.after.students| ==> st.after.students[i] in s.students && st.after.students[i].id !in ids)
      && (forall i :: 0 <= i < |s.students| && s.students[i].id !in ids ==> s.students[i] in st.after.students)
      && st.after.actions == s.actions[k := s.actions[k].(undone := true)]
      && st.after.attendance == s.attendance && st.after.nextId == s.nextId)
  {
    match UndoGuard(s.actions, actionId, BulkUploadStudents, NOT_AN_UPLOAD)
    case Err(code, message) => Step(Err(code, message), s)
    case Ok(_, k) =>
      var ids := LoggedIds(s.actions[k].metadata);
      if ids == [] then Step(Ok(200, UploadNothingToUndo), s)
      else Step(Ok(200, UploadUndone(|ids|)),
                s.(students := Filter(s.students, IdNotIn(ids)),
                   actions := s.actions[k := s.actions[k].(undone := true)]))
  }

  /** The undo refuses an entry of another type, and an upload entry that
      was already undone. */
  lemma UndoUploadRefusals(s: State, actionId: Id)
    ensures var f := FindAction(s.actions, actionId);
      f.Some? && s.actions[f.value].actionType != BulkUploadStudents
      ==> UndoUploadStep(s, actionId).reply == Err(400, NOT_AN_UPLOAD)
    ensures var f := FindAction(s.actions, actionId);
      f.Some? && s.actions[f.value].actionType == BulkUploadStudents && s.actions[f.value].undone
      ==> UndoUploadStep(s, actionId).reply == Err(400, ALREADY_UNDONE)
  {
  }

  /** `studentRepo.delete({ id: In(batch) })` */
  method DeleteIds(db: Db, batch: seq<Id>)
    requires db.Valid()
    modifies db
    ensures db.Valid()
    ensures db.Abs() == old(db.Abs()).(students := Filter(old(db.students), IdNotIn(batch)))
  {
    var all := db.students;
    KeyedFilterStudents(db.Abs(), IdNotIn(batch));
    var kept: seq<Student> := [];
    var i := 0;
    while i < |all|
      invariant 0 <= i <= |all|
      invariant kept == Filter(all[..i], IdNotIn(batch))
      invariant unchanged(db)
    {
      FilterAppend(all[..i], [all[i]], IdNotIn(batch));
      assert all[..i + 1] == all[..i] + [all[i]];
      if all[i].id !in batch {
        kept := kept + [all[i]];
      }
      i := i + 1;
    }
    assert all[..i] == all;
    db.students := kept;
  }

  /** Deleting any set of students keeps the keys. */
  lemma KeyedFilterStudents(s: State, p: Student -> bool)
    requires Keyed(s)
    ensures Keyed(s.(students := Filter(s.students, p)))
  {
    FilterDistinctBy(s.students, p, StudentId);
  }

  /** The deletion loop of `undoBulkUpload`: the ids go in batches of 100. */
  method DeleteInChunks(db: Db, ids: seq<Id>)
    requires db.Valid()
    modifies db
    ensures db.Valid()
    ensures db.Abs() == old(db.Abs()).(students := Filter(old(db.students), IdNotIn(ids)))
  {
    ghost var s0 := db.Abs();
    FilterKeepsAll(s0.students, IdNotIn(ids[..0]));
    var i := 0;
    while i < |ids|
      invariant 0 <= i < |ids| + CHUNK
      invariant db.Valid()
      invariant db.Abs() == s0.(students := Filter(s0.students, IdNotIn(ids[..Min(i, |ids|)])))
    {
      var batch := ids[i..Min(i + CHUNK, |ids|)];
      DeleteIds(db, batch);
      DeleteMore(s0.students, ids, i, Min(i + CHUNK, |ids|));
      i := i + CHUNK;
    }
    assert ids[..Min(i, |ids|)] == ids;
  }

  /** `undoBulkUpload` on the database. */
  method UndoBulkUpload(db: Db, actionId: Id) returns (r: Result<UploadUndoReply>)
    requires db.Valid()
    modifies db
    ensures db.Valid()
    ensures Step(r, db.Abs()) == UndoUploadStep(old(db.Abs()), actionId)
  {
    var guard := UndoGuard(db.actions, actionId, BulkUploadStudents, NOT_AN_UPLOAD);
    if guard.Err? {
      return Err(guard.status, guard.message);
    }
    var k := guard.value;
    var ids := LoggedIds(db.actions[k].metadata);
    if |ids| == 0 {
      return Ok(200, UploadNothingToUndo);
    }
    DeleteInChunks(db, ids);
    KeyedReplaceActions(db.Abs(), db.actions[k := db.actions[k].(undone := true)]);
    db.actions := db.actions[k := db.actions[k].(undone := true)];
    r := Ok(200, UploadUndone(|ids|));
  }

  function Min(a: nat, b: nat): nat {
    if a < b then a else b
  }

  /** Marking the entry undone makes a second undo fail. */
  lemma UndoUploadTwice(s: State, actionId: Id)
    requires UndoUploadStep(s, actionId).reply.Ok?
    requires UndoUploadStep(s, actionId).reply.value.UploadUndone?
    ensures UndoUploadStep(UndoUploadStep(s, actionId).after, actionId).reply == Err(400, ALREADY_UNDONE)
  {
    var k := UndoGuard(s.actions, actionId, BulkUploadStudents, NOT_AN_UPLOAD).value;
    assert FindAction(s.actions, actionId) == Some(k);
    UndoneEntryRejected(s.actions, k, BulkUploadStudents, NOT_AN_UPLOAD);
  }

  /** Undoing an upload that created students removes exactly those students:
      the table is the one before the upload. */
  lemma UploadUndoRoundTrip(s: State, env: Env, f: UploadFile, authSub: Option<string>)
    requires Keyed(s) && (IsCsv(f) || IsExcel(f))
    requires |Upload(Handle(env), s.students, s.nextId, f.rows).created| > 0
    ensures var s1 := BulkUploadStep(s, env, Some(f), authSub).after;
      var u := UndoUploadStep(s1, s1.nextId - 1);
      && u.reply == Ok(200, UploadUndone(|Upload(Handle(env), s.students, s.nextId, f.rows).created|))
      && u.after.students == s.students
  {
    var p := Upload(Handle(env), s.students, s.nextId, f.rows);
    var s1 := s.(students := p.students, nextId := p.nextId + 1,
                 actions := s.actions + [NewAction(p.nextId, BulkUploadStudents, Performer(authSub),
                    UploadInfo(CreatedIds(p.created), |p.created|, |p.errors|, f.originalname), None)]);
    assert BulkUploadStep(s, env, Some(f), authSub).after == s1 by {
      UploadLeaves(s, env, f, authSub);
    }
    assert UndoUploadStep(s1, p.nextId).reply == Ok(200, UploadUndone(|p.created|))
        && UndoUploadStep(s1, p.nextId).after.students == s.students by {
      HandleUsesGivenId(env);
      UploadAccounting(Handle(env), s.students, s.nextId, f.rows);
      UndoAfterUpload(s, p, Performer(authSub), f.originalname);
    }
  }

  /** The state an upload that created students leaves behind. */
  lemma UploadLeaves(s: State, env: Env, f: UploadFile, authSub: Option<string>)
    requires IsCsv(f) || IsExcel(f)
    requires |Upload(Handle(env), s.students, s.nextId, f.rows).created| > 0
    ensures var p := Upload(Handle(env), s.students, s.nextId, f.rows);
      BulkUploadStep(s, env, Some(f), authSub).after
        == s.(students := p.students, nextId := p.nextId + 1,
              actions := s.actions + [NewAction(p.nextId, BulkUploadStudents, Performer(authSub),
                 UploadInfo(CreatedIds(p.created), |p.created|, |p.errors|, f.originalname), None)])
  {
  }

  /** The state an upload with progress `p` leaves behind, undone. */
  lemma UndoAfterUpload(s: State, p: Progress, performer: string, source: string)
    requires Keyed(s) && |p.created| > 0
    requires |p.students| == |s.students| + |p.created| && p.students[..|s.students|] == s.students
    requires p.nextId == s.nextId + |p.created|
    requires forall i :: 0 <= i < |p.created| ==>
      p.created[i].id == s.nextId + i && p.students[|s.students| + i].id == s.nextId + i
    ensures var s1 := s.(students := p.students, nextId := p.nextId + 1,
                         actions := s.actions + [NewAction(p.nextId, BulkUploadStudents, performer,
                            UploadInfo(CreatedIds(p.created), |p.created|, |p.errors|, source), None)]);
      UndoUploadStep(s1, p.nextId) == Step(Ok(200, UploadUndone(|p.created|)),
        s.(students := s.students, nextId := p.nextId + 1,
           actions := s1.actions[|s.actions| := s1.actions[|s.actions|].(undone := true)]))
  {
    var s1 := s.(students := p.students, nextId := p.nextId + 1,
                 actions := s.actions + [NewAction(p.nextId, BulkUploadStudents, performer,
                    UploadInfo(CreatedIds(p.created), |p.created|, |p.errors|, source), None)]);
    var k := |s.actions|;
    assert FindAction(s1.actions, p.nextId) == Some(k) by {
      assert s1.actions[k].id == p.nextId;
      assert forall j :: 0 <= j < k ==> s1.actions[j].id < p.nextId;
    }
    var ids := CreatedIds(p.created);
    var news := p.students[|s.students|..];
    assert p.students == s.students + news;
    RemoveAppended(s.students, news, ids, s.nextId);
  }

  /** Deleting the ids of students appended under ids from `bound` upwards
      leaves the students that were there before. */
  lemma RemoveAppended(before: seq<Student>, news: seq<Student>, ids: seq<Id>, bound: nat)
    requires forall i :: 0 <= i < |before| ==> before[i].id < bound
    requires |news| == |ids| && forall i :: 0 <= i < |news| ==> news[i].id == ids[i] >= bound
    ensures Filter(before + news, IdNotIn(ids)) == before
  {
    FilterAppend(before, news, IdNotIn(ids));
    FilterKeepsAll(before, IdNotIn(ids));
    FilterDropsAll(news, IdNotIn(ids));
  }

  lemma FilterDropsAll(s: seq<Student>, p: Student -> bool)
    requires forall i :: 0 <= i < |s| ==> !p(s[i])
    ensures Filter(s, p) == []
  {
  }

  // --------------------------------------------------- the duplicate query

  /** With neither an email nor a Student ID in the row, the duplicate query
      has no condition and finds any stored student, so such a row is refused
      as a duplicate as soon as the table is not empty. */
  lemma BlankRowRejectedAsDuplicate(env: Env, students: seq<Student>, id: Id, row: Row)
    requires |students| > 0 && "Email" !in row && "Student ID" !in row
    requires Validate(env, MapRow(env, row)) == []
    ensures RowOutcome(env, students, id, row)
      == Rejected("Student already exists with email: " + "undefined" + " or code: " + "undefined")
  {
    var m := MapRow(env, row);
    assert m.email == Undef && m.code == Undef;
    assert MatchesExisting(students, m);
  }

  /** The duplicate check as intended: a stored student shares the row's
      email or the row's Student ID; a row with neither has no duplicate. */
  predicate IntendedDuplicate(students: seq<Student>, m: MappedRow) {
    exists i :: (&& 0 <= i < |students|
                 && ((m.email.Val? && students[i].email == Some(m.email.v))
                     || (m.code.Val? && students[i].code == Some(m.code.v))))
  }

  /** The intended check agrees with the query whenever the row gives an
      email or a Student ID, and never refuses a row that gives neither. */
  lemma IntendedDuplicateAgrees(students: seq<Student>, m: MappedRow)
    ensures m.email.Val? || m.code.Val? ==> (IntendedDuplicate(students, m) <==> MatchesExisting(students, m))
    ensures !m.email.Val? && !m.code.Val? ==> !IntendedDuplicate(students, m)
  {
  }
}
