/** The student export: the query filters, the record built for each
    student, the format switch and the CSV serializer. The Excel and PDF
    writers are foreign libraries; the model hands them the records. */
module Export {
  import opened Wrappers
  import opened Text
  import opened Counting
  import opened Entities
  import opened Store

  // ----------------------------------------------------------------- values

  /** A value a record field holds: text, a number, or null. */
  datatype Value = Str(s: string) | Num(n: int) | Null

  /** The columns a record can have, in the order the handler adds them. */
  datatype Column =
    | StudentCode | FullName | LevelColumn | HallColumn | RoleColumn | DateAdded | Status
    | GenderColumn | ProgramDuration | ProgramOfStudy | ExpectedCompletionYear | DateOfBirth | Residence
    | Phone | Email
    | GuardianName | GuardianContact
    | LocalChurchName | LocalChurchLocation | District
    | DateOfAdmission | ProfileImageUrl

  /** The key under which the column is stored, which is the CSV header text. */
  function Header(c: Column): string {
    match c
    case StudentCode => "Student ID"
    case FullName => "Full Name"
    case LevelColumn => "Level"
    case HallColumn => "Hall"
    case RoleColumn => "Role"
    case DateAdded => "Date Added"
    case Status => "Status"
    case GenderColumn => "Gender"
    case ProgramDuration => "Program Duration"
    case ProgramOfStudy => "Program of Study"
    case ExpectedCompletionYear => "Expected Completion Year"
    case DateOfBirth => "Date of Birth"
    case Residence => "Place of Residence"
    case Phone => "Phone"
    case Email => "Email"
    case GuardianName => "Parent/Guardian Name"
    case GuardianContact => "Parent/Guardian Contact"
    case LocalChurchName => "Local Church Name"
    case LocalChurchLocation => "Local Church Location"
    case District => "District"
    case DateOfAdmission => "Date of Admission"
    case ProfileImageUrl => "Profile Image URL"
  }

  datatype Field = Field(column: Column, value: Value)

  /** A record: its fields in insertion order, which is the order
      `Object.keys` and `Object.values` list them in. */
  type Record = seq<Field>

  function Columns(r: Record): (cs: seq<Column>)
    ensures |cs| == |r| && forall i :: 0 <= i < |r| ==> cs[i] == r[i].column
  {
    seq(|r|, i requires 0 <= i < |r| => r[i].column)
  }

  /** The value stored under `c`, if the record has that key. */
  function Lookup(r: Record, c: Column): (v: Option<Value>)
    ensures v.Some? <==> c in Columns(r)
    ensures v.Some? ==> exists i :: 0 <= i < |r| && r[i] == Field(c, v.value)
  {
    if r == [] then None
    else if r[0].column == c then Some(r[0].value)
    else
      assert Columns(r) == [r[0].column] + Columns(r[1..]);
      var v := Lookup(r[1..], c);
      assert v.Some? ==> exists i :: 0 <= i < |r[1..]| && r[1..][i] == Field(c, v.value);
      v
  }

  // ------------------------------------------------------------- options

  const ACTIVE := "Active"
  const N_A := "N/A"

  /** The request's `includeOptions`; a flag left out takes its default. */
  datatype IncludeOptions = IncludeOptions(personalInfo: Option<bool>, contactInfo: Option<bool>, attendance: Option<bool>)

  datatype Options = Options(personalInfo: bool, contactInfo: bool, attendance: bool)

  /** `const { personalInfo = true, contactInfo = true, attendance = false } = includeOptions || {}` */
  function ResolveOptions(inc: Option<IncludeOptions>): (o: Options)
    ensures inc.None? ==> o == Options(true, true, false)
    ensures inc.Some? ==> (o.personalInfo == inc.value.personalInfo.GetOr(true)
                           && o.contactInfo == inc.value.contactInfo.GetOr(true)
                           && o.attendance == inc.value.attendance.GetOr(false))
  {
    match inc
    case None => Options(true, true, false)
    case Some(i) => Options(i.personalInfo.GetOr(true), i.contactInfo.GetOr(true), i.attendance.GetOr(false))
  }

  /** The clock and locale the handler formats dates with: the creation date
      of each student and `toLocaleDateString` of a stored date. */
  datatype Locale = Locale(createdOn: Id -> string, localeDate: string -> string)

  // ------------------------------------------------------------ the record

  /** `value || 'N/A'` for optional text. */
  function TextOrNA(v: Option<string>): Value {
    if Truthy(v) then Str(v.value) else Str(N_A)
  }

  /** `value || 'N/A'` for an optional number: 0 is falsy too. */
  function YearOrNA(v: Option<int>): Value {
    if v.Some? && v.value != 0 then Num(v.value) else Str(N_A)
  }

  /** The part of the record a column belongs to. */
  datatype Block = Base | Personal | Contact | Admission | Image

  function BlockOf(c: Column): Block {
    match c
    case GenderColumn | ProgramDuration | ProgramOfStudy | ExpectedCompletionYear | DateOfBirth | Residence
       | GuardianName | GuardianContact | LocalChurchName | LocalChurchLocation | District => Personal
    case Phone | Email => Contact
    case DateOfAdmission => Admission
    case ProfileImageUrl => Image
    case _ => Base
  }

  /** Whether the record of `st` under `o` has the column `c`: the personal,
      guardian and church columns with `personalInfo`, phone and email with
      `contactInfo`, the admission date and the profile image when the
      student has them. */
  predicate Included(c: Column, o: Options, st: Student) {
    match BlockOf(c)
    case Base => true
    case Personal => o.personalInfo
    case Contact => o.contactInfo
    case Admission => st.dateOfAdmission != ""
    case Image => Truthy(st.profileImageUrl)
  }

  /** What the column `c` shows for `st`, column by column. */
  function CellOf(c: Column, st: Student, loc: Locale): Value {
    match c
    case StudentCode => if st.code.Some? then Str(st.code.value) else Null
    case FullName => Str(st.fullName)
    case LevelColumn => Str(st.level)
    case HallColumn => Str(st.hall)
    case RoleColumn => Str(st.role)
    case DateAdded => Str(loc.createdOn(st.id))
    case Status => Str(ACTIVE)
    case GenderColumn => Str(st.gender)
    case ProgramDuration => Str(IntToString(st.programDurationYears) + " years")
    case ProgramOfStudy => TextOrNA(st.programOfStudy)
    case ExpectedCompletionYear => YearOrNA(st.expectedCompletionYear)
    case DateOfBirth => if Truthy(st.dateOfBirth) then Str(loc.localeDate(st.dateOfBirth.value)) else Str(N_A)
    case Residence => TextOrNA(st.residence)
    case Phone => TextOrNA(st.phone)
    case Email => TextOrNA(st.email)
    case GuardianName => TextOrNA(st.guardianName)
    case GuardianContact => TextOrNA(st.guardianContact)
    case LocalChurchName => TextOrNA(st.localChurchName)
    case LocalChurchLocation => TextOrNA(st.localChurchLocation)
    case District => TextOrNA(st.district)
    case DateOfAdmission => Str(loc.localeDate(st.dateOfAdmission))
    case ProfileImageUrl => Str(st.profileImageUrl.GetOr(""))
  }

  const BASE_COLUMNS := [StudentCode, FullName, LevelColumn, HallColumn, RoleColumn, DateAdded, Status]
  const PERSONAL_COLUMNS := [GenderColumn, ProgramDuration, ProgramOfStudy, ExpectedCompletionYear, DateOfBirth, Residence]
  const CONTACT_COLUMNS := [Phone, Email]
  const GUARDIAN_COLUMNS := [GuardianName, GuardianContact]
  const CHURCH_COLUMNS := [LocalChurchName, LocalChurchLocation, District]

  function FieldsOf(cs: seq<Column>, st: Student, loc: Locale): (r: Record)
    ensures Columns(r) == cs
    ensures forall i :: 0 <= i < |r| ==> r[i].value == CellOf(cs[i], st, loc)
  {
    seq(|cs|, i requires 0 <= i < |cs| => Field(cs[i], CellOf(cs[i], st, loc)))
  }

  /** The record `exportStudents` builds for one student: the base columns,
      then the personal, contact, guardian and church blocks as the options
      ask, then the admission date and the profile image when present. */
  function ExportRecord(st: Student, o: Options, loc: Locale): Record {
    FieldsOf(BASE_COLUMNS, st, loc)
    + (if o.personalInfo then FieldsOf(PERSONAL_COLUMNS, st, loc) else [])
    + (if o.contactInfo then FieldsOf(CONTACT_COLUMNS, st, loc) else [])
    + (if o.personalInfo then FieldsOf(GUARDIAN_COLUMNS, st, loc) else [])
    + (if o.personalInfo then FieldsOf(CHURCH_COLUMNS, st, loc) else [])
    + (if st.dateOfAdmission != "" then FieldsOf([DateOfAdmission], st, loc) else [])
    + (if Truthy(st.profileImageUrl) then FieldsOf([ProfileImageUrl], st, loc) else [])
  }

  /** The columns the handler adds for `st` under `o`, block by block. */
  function Blocks(st: Student, o: Options): seq<Column> {
    BASE_COLUMNS
    + (if o.personalInfo then PERSONAL_COLUMNS else [])
    + (if o.contactInfo then CONTACT_COLUMNS else [])
    + (if o.personalInfo then GUARDIAN_COLUMNS else [])
    + (if o.personalInfo then CHURCH_COLUMNS else [])
    + (if st.dateOfAdmission != "" then [DateOfAdmission] else [])
    + (if Truthy(st.profileImageUrl) then [ProfileImageUrl] else [])
  }

  lemma BlockMembers(c: Column)
    ensures c in BASE_COLUMNS <==> BlockOf(c) == Base
    ensures c in PERSONAL_COLUMNS + GUARDIAN_COLUMNS + CHURCH_COLUMNS <==> BlockOf(c) == Personal
    ensures c in CONTACT_COLUMNS <==> BlockOf(c) == Contact
  {
    BaseMembers(c);
    PersonalMembers(c);
    ContactMembers(c);
  }

  lemma BaseMembers(c: Column)
    ensures c in BASE_COLUMNS <==> BlockOf(c) == Base
  {
  }

  lemma PersonalMembers(c: Column)
    ensures c in PERSONAL_COLUMNS + GUARDIAN_COLUMNS + CHURCH_COLUMNS <==> BlockOf(c) == Personal
  {
  }

  lemma ContactMembers(c: Column)
    ensures c in CONTACT_COLUMNS <==> BlockOf(c) == Contact
  {
  }

  /** The blocks hold exactly the included columns. */
  lemma BlocksIncluded(st: Student, o: Options, c: Column)
    ensures c in Blocks(st, o) <==> Included(c, o, st)
  {
    BlockMembers(c);
  }

  lemma ColumnsOfAppend(a: Record, b: Record)
    ensures Columns(a + b) == Columns(a) + Columns(b)
  {
  }

  /** Every field holds its column's value for the student. */
  predicate Faithful(r: Record, st: Student, loc: Locale) {
    forall i :: 0 <= i < |r| ==> r[i].value == CellOf(r[i].column, st, loc)
  }

  lemma FaithfulAppend(a: Record, b: Record, st: Student, loc: Locale)
    requires Faithful(a, st, loc) && Faithful(b, st, loc)
    ensures Faithful(a + b, st, loc)
  {
  }

  /** The record is the fields of the blocks. */
  lemma ExportRecordFields(st: Student, o: Options, loc: Locale)
    ensures ExportRecord(st, o, loc) == FieldsOf(Blocks(st, o), st, loc)
  {
    var b1 := if o.personalInfo then PERSONAL_COLUMNS else [];
    var b2 := if o.contactInfo then CONTACT_COLUMNS else [];
    var b3 := if o.personalInfo then GUARDIAN_COLUMNS else [];
    var b4 := if o.personalInfo then CHURCH_COLUMNS else [];
    var b5 := if st.dateOfAdmission != "" then [DateOfAdmission] else [];
    var b6 := if Truthy(st.profileImageUrl) then [ProfileImageUrl] else [];
    assert (if o.personalInfo then FieldsOf(PERSONAL_COLUMNS, st, loc) else []) == FieldsOf(b1, st, loc);
    assert (if o.contactInfo then FieldsOf(CONTACT_COLUMNS, st, loc) else []) == FieldsOf(b2, st, loc);
    assert (if o.personalInfo then FieldsOf(GUARDIAN_COLUMNS, st, loc) else []) == FieldsOf(b3, st, loc);
    assert (if o.personalInfo then FieldsOf(CHURCH_COLUMNS, st, loc) else []) == FieldsOf(b4, st, loc);
    assert (if st.dateOfAdmission != "" then FieldsOf([DateOfAdmission], st, loc) else []) == FieldsOf(b5, st, loc);
    assert (if Truthy(st.profileImageUrl) then FieldsOf([ProfileImageUrl], st, loc) else []) == FieldsOf(b6, st, loc);
    var cs := BASE_COLUMNS;
    FieldsAppend(cs, b1, st, loc);
    FieldsAppend(cs + b1, b2, st, loc);
    FieldsAppend(cs + b1 + b2, b3, st, loc);
    FieldsAppend(cs + b1 + b2 + b3, b4, st, loc);
    FieldsAppend(cs + b1 + b2 + b3 + b4, b5, st, loc);
    FieldsAppend(cs + b1 + b2 + b3 + b4 + b5, b6, st, loc);
  }

  lemma FieldsAppend(a: seq<Column>, b: seq<Column>, st: Student, loc: Locale)
    ensures FieldsOf(a + b, st, loc) == FieldsOf(a, st, loc) + FieldsOf(b, st, loc)
  {
  }

  /** The record starts with the seven base columns, has a key exactly for
      each included column, and holds under it the column's value for the
      student. */
  lemma ExportRecordShape(st: Student, o: Options, loc: Locale)
    ensures var r := ExportRecord(st, o, loc);
      && |r| >= 7 && Columns(r)[..7] == BASE_COLUMNS
      && Faithful(r, st, loc)
      && (forall c :: Lookup(r, c).Some? <==> Included(c, o, st))
      && (forall c :: Included(c, o, st) ==> Lookup(r, c) == Some(CellOf(c, st, loc)))
  {
    var r := ExportRecord(st, o, loc);
    ExportRecordFields(st, o, loc);
    forall c ensures Lookup(r, c).Some? <==> Included(c, o, st) {
      BlocksIncluded(st, o, c);
    }
    assert Blocks(st, o)[..7] == BASE_COLUMNS;
  }

  // ------------------------------------------------------------ the query

  /** The request's `filters`; every field is optional. */
  datatype Filters = Filters(
    hall: Option<string>, level: Option<string>, gender: Option<string>, role: Option<string>,
    status: Option<string>, programDuration: Option<string>, admissionYear: Option<string>)

  /** The request's `dateRange`, bounds on the admission date. */
  datatype DateRange = DateRange(startDate: Option<string>, endDate: Option<string>)

  /** A student the query returns: each filter that is given (non-empty)
      must hold; `status` filters nothing. */
  predicate Matches(st: Student, f: Filters, range: Option<DateRange>) {
    && (Truthy(f.hall) ==> st.hall == f.hall.value)
    && (Truthy(f.level) ==> st.level == f.level.value)
    && (Truthy(f.gender) ==> st.gender == f.gender.value)
    && (Truthy(f.role) ==> st.role == f.role.value)
    && (Truthy(f.programDuration) ==> ParseInt(f.programDuration.value) == Some(st.programDurationYears))
    && (Truthy(f.admissionYear) ==>
          StrLe(f.admissionYear.value + "-01-01", st.dateOfAdmission)
          && StrLe(st.dateOfAdmission, f.admissionYear.value + "-12-31"))
    && (range.Some? && Truthy(range.value.startDate) ==> StrLe(range.value.startDate.value, st.dateOfAdmission))
    && (range.Some? && Truthy(range.value.endDate) ==> StrLe(st.dateOfAdmission, range.value.endDate.value))
  }

  function MatchTest(f: Filters, range: Option<DateRange>): Student -> bool {
    (st: Student) => Matches(st, f, range)
  }

  /** The status filter is accepted and ignored. */
  lemma StatusIgnored(st: Student, f: Filters, range: Option<DateRange>, status: Option<string>)
    ensures Matches(st, f.(status := status), range) == Matches(st, f, range)
  {
  }

  // ----------------------------------------------------------------- CSV

  const NO_DATA := "No data to export"
  const INVALID_FORMAT := "Invalid export format"

  /** How `join` prints a value: text as it is, or inside double quotes when
      it holds a comma (quotes inside are left alone); a number in decimal;
      null as nothing. */
  function CsvCell(v: Value): string {
    match v
    case Str(s) => if ',' in s then "\"" + s + "\"" else s
    case Num(n) => IntToString(n)
    case Null => ""
  }

  /** The text a value stands for. */
  function Plain(v: Value): string {
    match v
    case Str(s) => s
    case Num(n) => IntToString(n)
    case Null => ""
  }

  function HeaderCells(r: Record): seq<string> {
    seq(|r|, i requires 0 <= i < |r| => Header(r[i].column))
  }

  function CsvCells(r: Record): seq<string> {
    seq(|r|, i requires 0 <= i < |r| => CsvCell(r[i].value))
  }

  /** The header line (the keys of the first record) and one line per record. */
  function CsvLines(records: seq<Record>): (lines: seq<string>)
    requires |records| > 0
    ensures |lines| == |records| + 1
  {
    [Join(HeaderCells(records[0]), ",")]
    + seq(|records|, i requires 0 <= i < |records| => Join(CsvCells(records[i]), ","))
  }

  /** `exportToCSV` */
  function ExportToCsv(records: seq<Record>): (r: Result<string>)
    ensures r.Err? <==> records == []
    ensures r.Err? ==> r == Err(400, NO_DATA)
  {
    if records == [] then Err(400, NO_DATA) else Ok(200, Join(CsvLines(records), "\n"))
  }

  /** No text value contains `c`. */
  predicate Avoids(records: seq<Record>, c: char) {
    forall i, k :: 0 <= i < |records| && 0 <= k < |records[i]| ==>
      (records[i][k].value.Str? ==> c !in records[i][k].value.s)
  }

  /** Neither a comma nor a line break. */
  predicate PlainText(s: string) {
    forall i :: 0 <= i < |s| ==> s[i] != ',' && s[i] != '\n'
  }

  lemma HeaderPlain(c: Column)
    ensures PlainText(Header(c))
  {
    match c
    case StudentCode => assert PlainText("Student ID");
    case FullName => assert PlainText("Full Name");
    case LevelColumn => assert PlainText("Level");
    case HallColumn => assert PlainText("Hall");
    case RoleColumn => assert PlainText("Role");
    case DateAdded => assert PlainText("Date Added");
    case Status => assert PlainText("Status");
    case GenderColumn => assert PlainText("Gender");
    case ProgramDuration => assert PlainText("Program Duration");
    case ProgramOfStudy => assert PlainText("Program of Study");
    case ExpectedCompletionYear => assert PlainText("Expected Completion Year");
    case DateOfBirth => assert PlainText("Date of Birth");
    case Residence => assert PlainText("Place of Residence");
    case Phone => assert PlainText("Phone");
    case Email => assert PlainText("Email");
    case GuardianName => assert PlainText("Parent/Guardian Name");
    case GuardianContact => assert PlainText("Parent/Guardian Contact");
    case LocalChurchName => assert PlainText("Local Church Name");
    case LocalChurchLocation => assert PlainText("Local Church Location");
    case District => assert PlainText("District");
    case DateOfAdmission => assert PlainText("Date of Admission");
    case ProfileImageUrl => assert PlainText("Profile Image URL");
  }

  lemma CellAvoids(v: Value, c: char)
    requires c != '"' && !IsDigit(c) && c != '-'
    requires v.Str? ==> c !in v.s
    ensures c !in CsvCell(v)
  {
    if v.Num? {
      IntToStringChars(v.n, c);
    }
  }

  /** The lines of the file: with no line break inside a text value, the file
      splits at its line breaks into the header line and one line per record. */
  lemma CsvLinesBack(records: seq<Record>)
    requires records != [] && Avoids(records, '\n')
    ensures Split(ExportToCsv(records).value, '\n') == CsvLines(records)
    ensures |Split(ExportToCsv(records).value, '\n')| == |records| + 1
  {
    var lines := CsvLines(records);
    var h := HeaderCells(records[0]);
    forall k | 0 <= k < |h| ensures '\n' !in h[k] {
      HeaderPlain(records[0][k].column);
    }
    JoinAvoids(h, ",", '\n');
    forall j | 1 <= j < |lines| ensures '\n' !in lines[j] {
      var i := j - 1;
      var cells := CsvCells(records[i]);
      forall k | 0 <= k < |cells| ensures '\n' !in cells[k] {
        CellAvoids(records[i][k].value, '\n');
      }
      JoinAvoids(cells, ",", '\n');
    }
    SplitJoin(lines, '\n');
  }

  /** The cells of a line: with no comma inside a text value, a record's line
      splits at its commas into the record's values, in its key order, and
      the header line into its keys. */
  lemma CsvCellsBack(records: seq<Record>, i: nat)
    requires i < |records| && Avoids(records, ',')
    requires records[0] != [] && records[i] != []
    ensures var lines := CsvLines(records);
      && Split(lines[0], ',') == HeaderCells(records[0])
      && Split(lines[i + 1], ',') == seq(|records[i]|, k requires 0 <= k < |records[i]| => Plain(records[i][k].value))
  {
    var h := HeaderCells(records[0]);
    forall k | 0 <= k < |h| ensures ',' !in h[k] {
      HeaderPlain(records[0][k].column);
    }
    SplitJoin(h, ',');
    var cells := CsvCells(records[i]);
    forall k | 0 <= k < |cells| ensures ',' !in cells[k] && cells[k] == Plain(records[i][k].value) {
      CellAvoids(records[i][k].value, ',');
    }
    SplitJoin(cells, ',');
  }

  // ------------------------------------------------------------ the endpoint

  /** The body of the request. */
  datatype ExportRequest = ExportRequest(
    format: string, filters: Option<Filters>, dateRange: Option<DateRange>, includeOptions: Option<IncludeOptions>)

  /** What is sent back: the CSV text, or the records handed to the Excel or
      PDF writer. */
  datatype ExportFile = CsvFile(text: string) | ExcelFile(records: seq<Record>) | PdfFile(records: seq<Record>)

  /** One record per student the query returns, in store order. */
  function Exported(s: State, f: Filters, range: Option<DateRange>, o: Options, loc: Locale): (rs: seq<Record>)
    ensures |rs| == Count(s.students, MatchTest(f, range))
    ensures forall i :: 0 <= i < |rs| ==> rs[i] == ExportRecord(Filter(s.students, MatchTest(f, range))[i], o, loc)
    ensures forall st :: st in s.students && MatchTest(f, range)(st) ==> ExportRecord(st, o, loc) in rs
  {
    var found := Filter(s.students, MatchTest(f, range));
    seq(|found|, i requires 0 <= i < |found| => ExportRecord(found[i], o, loc))
  }

  /** `exportStudents`. Destructuring absent `filters` throws, which the
      handler turns into a 500. */
  function ExportStudents(s: State, req: ExportRequest, loc: Locale): (r: Result<ExportFile>)
    ensures req.filters.None? ==> r == Err(500, INTERNAL_ERROR)
    ensures req.filters.Some? ==>
      (r == Err(400, INVALID_FORMAT) <==> req.format !in {"excel", "pdf", "csv"})
    ensures req.filters.Some? ==>
      (r == Err(400, NO_DATA) <==> req.format == "csv" && Count(s.students, MatchTest(req.filters.value, req.dateRange)) == 0)
    ensures r.Ok? ==> r.status == 200 && req.filters.Some?
    ensures r.Ok? && !r.value.CsvFile? ==>
      |r.value.records| == Count(s.students, MatchTest(req.filters.value, req.dateRange))
    ensures req.filters.Some? ==>
      (var records := Exported(s, req.filters.value, req.dateRange, ResolveOptions(req.includeOptions), loc);
       && (req.format == "excel" ==> r == Ok(200, ExcelFile(records)))
       && (req.format == "pdf" ==> r == Ok(200, PdfFile(records)))
       && (req.format == "csv" && records != [] ==> r == Ok(200, CsvFile(ExportToCsv(records).value))))
  {
    match req.filters
    case None => Err(500, INTERNAL_ERROR)
    case Some(f) =>
      var records := Exported(s, f, req.dateRange, ResolveOptions(req.includeOptions), loc);
      if req.format == "excel" then Ok(200, ExcelFile(records))
      else if req.format == "pdf" then Ok(200, PdfFile(records))
      else if req.format == "csv" then
        match ExportToCsv(records)
        case Ok(status, text) => Ok(status, CsvFile(text))
        case Err(status, message) => Err(status, message)
      else Err(400, INVALID_FORMAT)
  }

  // ------------------------------------------------- columns under headers

  /** A student without a profile image followed by one with an image: the
      header comes from the first record, so the second line carries one
      cell more than the header names, and the image URL stands under no
      header. */
  lemma ImageCellWithoutHeader(st1: Student, st2: Student, o: Options, loc: Locale)
    requires !Truthy(st1.profileImageUrl) && Truthy(st2.profileImageUrl)
    requires (st1.dateOfAdmission == "") == (st2.dateOfAdmission == "")
    ensures var records := [ExportRecord(st1, o, loc), ExportRecord(st2, o, loc)];
      && |CsvCells(records[1])| == |HeaderCells(records[0])| + 1
      && (Avoids(records, ',') ==>
            |Split(CsvLines(records)[2], ',')| == |Split(CsvLines(records)[0], ',')| + 1)
  {
    var records := [ExportRecord(st1, o, loc), ExportRecord(st2, o, loc)];
    assert |CsvCells(records[1])| == |HeaderCells(records[0])| + 1 by {
      ExportRecordFields(st1, o, loc);
      ExportRecordFields(st2, o, loc);
      assert Blocks(st2, o) == Blocks(st1, o) + [ProfileImageUrl];
      ExportRecordShape(st1, o, loc);
      ExportRecordShape(st2, o, loc);
    }
    if Avoids(records, ',') {
      CsvCellsBack(records, 1);
    }
  }

  /** Every column, in the order the handler adds them. */
  const ALL_COLUMNS := BASE_COLUMNS + PERSONAL_COLUMNS + CONTACT_COLUMNS + GUARDIAN_COLUMNS
                       + CHURCH_COLUMNS + [DateOfAdmission, ProfileImageUrl]

  lemma AllColumnsListed(c: Column)
    ensures c in ALL_COLUMNS
  {
    BlockMembers(c);
  }

  /** The test "some record has the key `c`". */
  function InSome(records: seq<Record>): Column -> bool {
    (c: Column) => exists i :: 0 <= i < |records| && c in Columns(records[i])
  }

  /** The header of an aligned file: every key some record has, in the
      handler's column order. */
  function UnionColumns(records: seq<Record>): seq<Column> {
    Filter(ALL_COLUMNS, InSome(records))
  }

  /** A record's cells under the given header: its value under each key, or
      nothing when it lacks the key. */
  function AlignedCells(header: seq<Column>, r: Record): (cells: seq<string>)
    ensures |cells| == |header|
  {
    seq(|header|, j requires 0 <= j < |header| =>
      match Lookup(r, header[j]) case Some(v) => CsvCell(v) case None => "")
  }

  /** The CSV file with each value under its own header. */
  function AlignedCsv(records: seq<Record>): (r: Result<string>)
    ensures r.Err? <==> records == []
  {
    if records == [] then Err(400, NO_DATA)
    else
      var header := UnionColumns(records);
      var head := Join(seq(|header|, j requires 0 <= j < |header| => Header(header[j])), ",");
      var lines := seq(|records|, i requires 0 <= i < |records| => Join(AlignedCells(header, records[i]), ","));
      Ok(200, Join([head] + lines, "\n"))
  }

  /** In the aligned file every line has one cell per header name, and every
      key of every record is a header, with the record's value in its cell. */
  lemma AlignedCsvColumns(records: seq<Record>, i: nat, k: nat)
    requires i < |records| && k < |records[i]|
    ensures var header := UnionColumns(records);
      && |AlignedCells(header, records[i])| == |header|
      && exists j :: 0 <= j < |header| && header[j] == records[i][k].column
           && AlignedCells(header, records[i])[j] == CsvCell(Lookup(records[i], header[j]).value)
  {
    var c := records[i][k].column;
    var header := UnionColumns(records);
    assert c in Columns(records[i]);
    assert InSome(records)(c);
    AllColumnsListed(c);
    var a :| 0 <= a < |ALL_COLUMNS| && ALL_COLUMNS[a] == c;
    assert c in header;
    var j :| 0 <= j < |header| && header[j] == c;
  }
}
