/** The student controller: code assignment, creation, the profile edit and
    hard deletion. */
module Students {
  import opened Wrappers
  import opened Text
  import opened Counting
  import opened Entities
  import opened Store

  const STUDENT_NOT_FOUND := "Student not found"
  const STUDENT_DELETED := "Student deleted successfully"

  // ------------------------------------------------------------ student codes

  /** `STU-${year}-`, the pattern of the `LIKE` count without its `%`. */
  function CodePrefix(year: nat): string {
    "STU-" + NatToString(year) + "-"
  }

  /** `String(k).padStart(3, '0')` */
  function SeqPart(k: nat): string {
    PadStart(NatToString(k), 3, '0')
  }

  function CodeFor(year: nat, k: nat): string {
    CodePrefix(year) + SeqPart(k)
  }

  /** `s.code LIKE 'STU-<year>-%'` */
  function InYear(year: nat): Student -> bool {
    (st: Student) => st.code.Some? && StartsWith(st.code.value, CodePrefix(year))
  }

  /** The code `createStudent` assigns and `nextStudentCode` announces: one
      more than the number of codes already carrying this year's prefix. */
  function NextCode(students: seq<Student>, year: nat): (r: string)
    ensures StartsWith(r, CodePrefix(year))
  {
    CodeFor(year, Count(students, InYear(year)) + 1)
  }

  /** A code is this year's prefix followed by at least three digits that
      read back as its sequence number. */
  lemma CodeForReadsBack(year: nat, k: nat)
    ensures var t := CodeFor(year, k)[|CodePrefix(year)|..];
      |t| >= 3 && AllDigits(t) && DigitsValue(t) == k
  {
    var t := CodeFor(year, k)[|CodePrefix(year)|..];
    assert t == SeqPart(k);
    PadZerosValue(NatToString(k), 3);
    DigitsValueOfNatToString(k);
  }

  /** Different sequence numbers give different codes. */
  lemma CodeForInjective(year: nat, j: nat, k: nat)
    ensures CodeFor(year, j) == CodeFor(year, k) <==> j == k
  {
    CodeForReadsBack(year, j);
    CodeForReadsBack(year, k);
  }

  /** With three codes already issued this year the next one ends in 004. */
  lemma NextCodeAfterThree(students: seq<Student>, year: nat)
    requires Count(students, InYear(year)) == 3
    ensures NextCode(students, year) == CodePrefix(year) + "004"
  {
    assert NatToString(4) == "4";
    assert PadStart("4", 3, '0') == PadStart("04", 3, '0') == PadStart("004", 3, '0') == "004";
  }

  /** `nextStudentCode` */
  function NextStudentCode(s: State, year: nat): (r: Result<string>)
    ensures r.Ok? && r.status == 200 && StartsWith(r.value, CodePrefix(year))
  {
    Ok(200, NextCode(s.students, year))
  }

  // ---------------------------------------------------------------- creation

  /** The body fields `createStudent` and `updateStudent` read; `None` is a
      field the body omits or sends as null. */
  datatype StudentBody = StudentBody(
    fullName: Option<string>,
    gender: Option<string>,
    level: Option<string>,
    programOfStudy: Option<string>,
    programDurationYears: Option<int>,
    expectedCompletionYear: Option<int>,
    hall: Option<string>,
    role: Option<string>,
    dateOfAdmission: Option<string>,
    dateOfBirth: Option<string>,
    residence: Option<string>,
    guardianName: Option<string>,
    guardianContact: Option<string>,
    localChurchName: Option<string>,
    localChurchLocation: Option<string>,
    district: Option<string>,
    phone: Option<string>,
    email: Option<string>,
    profileImageUrl: Option<string>)

  /** `req.body || {}` for a request without a body. */
  const EMPTY_BODY := StudentBody(None, None, None, None, None, None, None, None, None, None,
                                  None, None, None, None, None, None, None, None, None)

  /** The non-nullable columns the body must fill. */
  predicate RequiredPresent(b: StudentBody) {
    && b.fullName.Some? && b.gender.Some? && b.level.Some? && b.programDurationYears.Some?
    && b.hall.Some? && b.role.Some? && b.dateOfAdmission.Some?
  }

  /** `repo.create({...})`: the sent values, and null for every omitted
      optional field. */
  function BuildStudent(id: Id, code: Option<string>, b: StudentBody): Student
    requires RequiredPresent(b)
  {
    Student(id, code, b.fullName.value, b.gender.value, b.level.value, b.programOfStudy,
            b.programDurationYears.value, b.expectedCompletionYear, b.hall.value, b.role.value,
            b.dateOfAdmission.value, b.dateOfBirth, b.residence, b.guardianName, b.guardianContact,
            b.localChurchName, b.localChurchLocation, b.district, b.phone, b.email, b.profileImageUrl)
  }

  /** The stored record holds exactly what the body sent: every column the
      body omits is null. */
  predicate StoredAsSent(st: Student, b: StudentBody) {
    && Some(st.fullName) == b.fullName && Some(st.gender) == b.gender && Some(st.level) == b.level
    && Some(st.programDurationYears) == b.programDurationYears && Some(st.hall) == b.hall
    && Some(st.role) == b.role && Some(st.dateOfAdmission) == b.dateOfAdmission
    && st.programOfStudy == b.programOfStudy && st.expectedCompletionYear == b.expectedCompletionYear
    && st.dateOfBirth == b.dateOfBirth && st.residence == b.residence
    && st.guardianName == b.guardianName && st.guardianContact == b.guardianContact
    && st.localChurchName == b.localChurchName && st.localChurchLocation == b.localChurchLocation
    && st.district == b.district && st.phone == b.phone && st.email == b.email
    && st.profileImageUrl == b.profileImageUrl
  }

  /** `createStudent`. A missing non-nullable column or an already issued code
      makes the insert fail, which the handler reports as a 500. */
  function CreateStudentStep(s: State, body: StudentBody, year: nat): (st: Step<Student>)
    ensures st.reply.Err? ==> st.reply == Err(500, INTERNAL_ERROR) && st.after == s
    ensures st.reply.Ok? <==> RequiredPresent(body) && !CodeTaken(s.students, NextCode(s.students, year))
    ensures st.reply.Ok? ==>
      && st.reply.status == 201
      && st.after == s.(students := s.students + [st.reply.value], nextId := s.nextId + 1)
      && st.reply.value.id == s.nextId
      && st.reply.value.code == Some(NextCode(s.students, year))
      && StoredAsSent(st.reply.value, body)
  {
    var code := NextCode(s.students, year);
    if !RequiredPresent(body) || CodeTaken(s.students, code) then
      Step(Err(500, INTERNAL_ERROR), s)
    else
      var student := BuildStudent(s.nextId, Some(code), body);
      Step(Ok(201, student), s.(students := s.students + [student], nextId := s.nextId + 1))
  }

  /** The code `nextStudentCode` announces is the one the next creation
      against the same store assigns. */
  lemma NextStudentCodeIsAssigned(s: State, body: StudentBody, year: nat)
    requires CreateStudentStep(s, body, year).reply.Ok?
    ensures CreateStudentStep(s, body, year).reply.value.code == Some(NextStudentCode(s, year).value)
  {
  }

  /** Creation keeps the primary keys and the new student can be found. */
  lemma CreateStudentKeepsKeys(s: State, body: StudentBody, year: nat)
    requires Keyed(s)
    ensures Keyed(CreateStudentStep(s, body, year).after)
    ensures var st := CreateStudentStep(s, body, year);
      st.reply.Ok? ==> FindStudent(st.after.students, st.reply.value.id) == Some(|s.students|)
  {
    var st := CreateStudentStep(s, body, year);
    if st.reply.Ok? {
      KeyedAppendStudent(s, st.reply.value);
      var ss := st.after.students;
      assert forall i :: 0 <= i < |s.students| ==> ss[i].id != s.nextId;
      assert HasStudent(ss, s.nextId) by { assert ss[|s.students|].id == s.nextId; }
    }
  }

  method CreateStudent(db: Db, body: StudentBody, year: nat) returns (r: Result<Student>)
    requires db.Valid()
    modifies db
    ensures db.Valid()
    ensures Step(r, db.Abs()) == CreateStudentStep(old(db.Abs()), body, year)
  {
    var code := NextCode(db.students, year);
    if !RequiredPresent(body) || CodeTaken(db.students, code) {
      return Err(500, INTERNAL_ERROR);
    }
    var student := BuildStudent(db.nextId, Some(code), body);
    KeyedAppendStudent(db.Abs(), student);
    db.students := db.students + [student];
    db.nextId := db.nextId + 1;
    r := Ok(201, student);
  }

  // ------------------------------------------------------------ profile edit

  /** `Object.assign(student, {...})` followed by `save`. Required columns the
      body omits are left as stored (the save skips undefined properties);
      the optional profile columns fall back to the stored value; phone,
      email and profile image become null when omitted. */
  function Merge(st: Student, b: StudentBody): Student {
    st.(fullName := b.fullName.GetOr(st.fullName),
        gender := b.gender.GetOr(st.gender),
        level := b.level.GetOr(st.level),
        programOfStudy := if b.programOfStudy.Some? then b.programOfStudy else st.programOfStudy,
        programDurationYears := b.programDurationYears.GetOr(st.programDurationYears),
        expectedCompletionYear :=
          if b.expectedCompletionYear.Some? then b.expectedCompletionYear else st.expectedCompletionYear,
        hall := b.hall.GetOr(st.hall),
        role := b.role.GetOr(st.role),
        dateOfAdmission := b.dateOfAdmission.GetOr(st.dateOfAdmission),
        dateOfBirth := if b.dateOfBirth.Some? then b.dateOfBirth else st.dateOfBirth,
        residence := if b.residence.Some? then b.residence else st.residence,
        guardianName := if b.guardianName.Some? then b.guardianName else st.guardianName,
        guardianContact := if b.guardianContact.Some? then b.guardianContact else st.guardianContact,
        localChurchName := if b.localChurchName.Some? then b.localChurchName else st.localChurchName,
        localChurchLocation :=
          if b.localChurchLocation.Some? then b.localChurchLocation else st.localChurchLocation,
        district := if b.district.Some? then b.district else st.district,
        phone := b.phone,
        email := b.email,
        profileImageUrl := b.profileImageUrl)
  }

  /** An empty edit keeps the whole record except the three contact columns,
      which it clears. */
  lemma MergeEmptyBody(st: Student)
    ensures Merge(st, EMPTY_BODY) == st.(phone := None, email := None, profileImageUrl := None)
    ensures UndefinedKeys(EMPTY_BODY) == REQUIRED_KEYS
  {
  }

  /** An edit that sends every field leaves nothing of the old record but its
      id and code: the result is what creation would build from that body. */
  lemma MergeFullBody(st: Student, b: StudentBody)
    requires RequiredPresent(b)
    requires && b.programOfStudy.Some? && b.expectedCompletionYear.Some? && b.dateOfBirth.Some?
             && b.residence.Some? && b.guardianName.Some? && b.guardianContact.Some?
             && b.localChurchName.Some? && b.localChurchLocation.Some? && b.district.Some?
    ensures Merge(st, b) == BuildStudent(st.id, st.code, b)
  {
  }

  /** Sending the same edit twice has the effect of sending it once. */
  lemma MergeIdempotent(st: Student, b: StudentBody)
    ensures Merge(Merge(st, b), b) == Merge(st, b)
  {
  }

  /** The JSON keys of the required columns. */
  const REQUIRED_KEYS: set<string> :=
    {"fullName", "gender", "level", "programDurationYears", "hall", "role", "dateOfAdmission"}

  /** The required columns an edit leaves `undefined` on the object it
      returns. They are assigned straight from the body, so an omitted one
      has no key in the JSON reply, although the save kept its stored value. */
  function UndefinedKeys(b: StudentBody): (r: set<string>)
    ensures r <= REQUIRED_KEYS
    ensures r == {} <==> RequiredPresent(b)
  {
    (if b.fullName.None? then {"fullName"} else {})
    + (if b.gender.None? then {"gender"} else {})
    + (if b.level.None? then {"level"} else {})
    + (if b.programDurationYears.None? then {"programDurationYears"} else {})
    + (if b.hall.None? then {"hall"} else {})
    + (if b.role.None? then {"role"} else {})
    + (if b.dateOfAdmission.None? then {"dateOfAdmission"} else {})
  }

  /** The reply of `updateStudent`: the saved record, whose `undefinedKeys`
      the JSON body lacks. */
  datatype UpdateReply = UpdateReply(record: Student, undefinedKeys: set<string>)

  /** `updateStudent` */
  function UpdateStudentStep(s: State, id: Id, body: StudentBody): (st: Step<UpdateReply>)
    ensures st.reply.Err? <==> !HasStudent(s.students, id)
    ensures st.reply.Err? ==> st.reply == Err(404, STUDENT_NOT_FOUND) && st.after == s
    ensures st.reply.Ok? ==> (&& st.reply.status == 200
                              && st.reply.value.undefinedKeys == UndefinedKeys(body)
                              && st.after == s.(students := st.after.students))
    ensures st.reply.Ok? ==> exists k :: (&& 0 <= k < |s.students| && s.students[k].id == id
                                          && st.reply.value.record == Merge(s.students[k], body)
                                          && st.after.students == s.students[k := st.reply.value.record])
  {
    match FindStudent(s.students, id)
    case None => Step(Err(404, STUDENT_NOT_FOUND), s)
    case Some(k) =>
      var merged := Merge(s.students[k], body);
      Step(Ok(200, UpdateReply(merged, UndefinedKeys(body))), s.(students := s.students[k := merged]))
  }

  /** An edit changes one record, keeps every id and code, and keeps the keys. */
  lemma UpdateKeepsIdsAndCodes(s: State, id: Id, body: StudentBody)
    requires Keyed(s)
    ensures var after := UpdateStudentStep(s, id, body).after;
      && Keyed(after)
      && |after.students| == |s.students|
      && (forall i :: 0 <= i < |s.students| ==>
            after.students[i].id == s.students[i].id && after.students[i].code == s.students[i].code)
      && (forall i :: 0 <= i < |s.students| && s.students[i].id != id ==> after.students[i] == s.students[i])
  {
    var st := UpdateStudentStep(s, id, body);
    if st.reply.Ok? {
      var k := FindStudent(s.students, id).value;
      KeyedReplaceStudents(s, st.after.students);
    }
  }

  method UpdateStudent(db: Db, id: Id, body: StudentBody) returns (r: Result<UpdateReply>)
    requires db.Valid()
    modifies db
    ensures db.Valid()
    ensures Step(r, db.Abs()) == UpdateStudentStep(old(db.Abs()), id, body)
  {
    var found := FindStudent(db.students, id);
    if found.None? {
      return Err(404, STUDENT_NOT_FOUND);
    }
    var k := found.value;
    var merged := Merge(db.students[k], body);
    KeyedReplaceStudents(db.Abs(), db.students[k := merged]);
    db.students := db.students[k := merged];
    r := Ok(200, UpdateReply(merged, UndefinedKeys(body)));
  }

  // ---------------------------------------------------------------- deletion

  /** The test "this is not student `id`". */
  function IdIsNot(id: Id): Student -> bool {
    (st: Student) => st.id != id
  }

  /** `deleteStudent`: `repo.remove` on the record found. */
  function DeleteStudentStep(s: State, id: Id): (st: Step<string>)
    ensures st.reply.Err? <==> !HasStudent(s.students, id)
    ensures st.reply.Err? ==> st.reply == Err(404, STUDENT_NOT_FOUND) && st.after == s
    ensures st.reply.Ok? ==> (&& st.reply == Ok(200, STUDENT_DELETED)
                              && |st.after.students| == |s.students| - 1
                              && st.after == s.(students := st.after.students))
  {
    match FindStudent(s.students, id)
    case None => Step(Err(404, STUDENT_NOT_FOUND), s)
    case Some(k) => Step(Ok(200, STUDENT_DELETED), s.(students := s.students[..k] + s.students[k + 1..]))
  }

  /** Deleting removes exactly the student with that id and keeps the order of
      the others. */
  lemma DeleteRemovesExactly(s: State, id: Id)
    requires Keyed(s)
    ensures var after := DeleteStudentStep(s, id).after;
      && Keyed(after)
      && after.students == Filter(s.students, IdIsNot(id))
      && !HasStudent(after.students, id)
  {
    var st := DeleteStudentStep(s, id);
    if st.reply.Ok? {
      var k := FindStudent(s.students, id).value;
      var rest := s.students[..k] + s.students[k + 1..];
      assert st.after == s.(students := rest);
      assert Keyed(st.after) by {
        KeyedRemoveStudent(s, k);
      }
      assert rest == Filter(s.students, IdIsNot(id)) by {
        FilterDropsOne(s.students, IdIsNot(id), k);
      }
    } else {
      FilterKeepsAll(s.students, IdIsNot(id));
    }
  }

  method DeleteStudent(db: Db, id: Id) returns (r: Result<string>)
    requires db.Valid()
    modifies db
    ensures db.Valid()
    ensures Step(r, db.Abs()) == DeleteStudentStep(old(db.Abs()), id)
  {
    var found := FindStudent(db.students, id);
    if found.None? {
      return Err(404, STUDENT_NOT_FOUND);
    }
    var k := found.value;
    DeleteRemovesExactly(db.Abs(), id);
    db.students := db.students[..k] + db.students[k + 1..];
    r := Ok(200, STUDENT_DELETED);
  }

  // ------------------------------------------------- codes reused after delete

  /** As written, a code can be handed out twice: with the codes 001 and 002
      issued this year, deleting the holder of 001 brings the count back to
      one, so the next creation is assigned 002 again and the unique column
      rejects it. */
  lemma CodeReusedAfterDelete(s: State, body: StudentBody, year: nat)
    requires Keyed(s) && |s.students| == 2 && RequiredPresent(body)
    requires s.students[0].code == Some(CodeFor(year, 1))
    requires s.students[1].code == Some(CodeFor(year, 2))
    ensures DeleteStudentStep(s, s.students[0].id).reply.Ok?
    ensures CreateStudentStep(DeleteStudentStep(s, s.students[0].id).after, body, year).reply
      == Err(500, INTERNAL_ERROR)
  {
    var b := s.students[1];
    var after := DeleteStudentStep(s, s.students[0].id).after;
    assert FindStudent(s.students, s.students[0].id) == Some(0);
    assert after.students == [b];
    assert InYear(year)(b) by {
      assert CodePrefix(year) <= CodePrefix(year) + SeqPart(2);
    }
    assert Filter([b], InYear(year)) == [b] by {
      assert [b][1..] == [];
    }
    assert NextCode(after.students, year) == CodeFor(year, 2);
    assert CodeTaken(after.students, CodeFor(year, 2)) by {
      assert after.students[0].code == Some(CodeFor(year, 2));
    }
  }

  /** The students whose code is produced by some sequence number from `k` on. */
  ghost function LaterCodes(students: seq<Student>, year: nat, k: nat): set<nat> {
    set i: nat | i < |students| && exists j: nat :: j >= k && students[i].code == Some(CodeFor(year, j))
  }

  /** Moving past a taken sequence number leaves fewer candidates behind. */
  lemma LaterCodesShrink(students: seq<Student>, year: nat, k: nat)
    requires CodeTaken(students, CodeFor(year, k))
    ensures |LaterCodes(students, year, k + 1)| < |LaterCodes(students, year, k)|
  {
    var i :| 0 <= i < |students| && students[i].code == Some(CodeFor(year, k));
    var later, now := LaterCodes(students, year, k + 1), LaterCodes(students, year, k);
    assert i in now;
    forall j: nat | j >= k + 1
      ensures students[i].code != Some(CodeFor(year, j))
    {
      CodeForInjective(year, j, k);
    }
    assert later <= now - {i};
    SubsetCard(later, now - {i});
  }

  /** The code assignment evidently intended: start from the count as the
      handlers do, but skip every sequence number whose code is already
      held, so the insert never meets the unique column. */
  method FreshCode(students: seq<Student>, year: nat) returns (code: string, k: nat)
    ensures k > Count(students, InYear(year))
    ensures code == CodeFor(year, k) && StartsWith(code, CodePrefix(year))
    ensures !CodeTaken(students, code)
    ensures !CodeTaken(students, NextCode(students, year)) ==> code == NextCode(students, year)
  {
    k := Count(students, InYear(year)) + 1;
    while CodeTaken(students, CodeFor(year, k))
      invariant k > Count(students, InYear(year))
      invariant k > Count(students, InYear(year)) + 1 ==> CodeTaken(students, NextCode(students, year))
      decreases |LaterCodes(students, year, k)|
    {
      LaterCodesShrink(students, year, k);
      k := k + 1;
    }
    code := CodeFor(year, k);
    assert CodePrefix(year) <= code;
  }
}
