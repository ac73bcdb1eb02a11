/** The administrator controller: level promotion and its undo, promotion
    targets, alumni eligibility, level and gender overviews, and the checks
    that guard secretary creation. */
module Admin {
  import opened Wrappers
  import opened Text
  import opened Counting
  import opened Entities
  import opened Store

  const LEVELS_REQUIRED := "From level and to level are required"
  const LEVELS_MUST_DIFFER := "From level and to level must be different"
  const INVALID_PROMOTION_ACTION := "Invalid action type for this endpoint"
  const FROM_LEVEL_REQUIRED := "From level is required"

  function NoStudentsAt(level: string): string {
    "No students found with level " + level
  }

  function NoneEligible(fromLevel: string, toLevel: string): string {
    "No students can be promoted from " + fromLevel + " to " + toLevel + " based on their program duration"
  }

  // -------------------------------------------------------------- promotion

  /** The per-student test of `promoteStudents` on the parsed level numbers
    (`None` for NaN, with which every comparison is false). */
  predicate EligibleBy(duration: int, toAlumni: bool, cur: Option<int>, target: Option<int>) {
    var maxLevel := duration * 100;
    if toAlumni then cur.Some? && cur.value >= maxLevel
    else cur.Some? && target.Some? && target.value <= maxLevel && target.value == cur.value + 100
  }

  /** The test as a filter, the level numbers being parsed once. */
  function EligibleTest(toAlumni: bool, cur: Option<int>, target: Option<int>): Student -> bool {
    (st: Student) => EligibleBy(st.programDurationYears, toAlumni, cur, target)
  }

  /** Eligibility for a promotion request. Level numbers come from the
      requested levels, not the student's own. */
  predicate Eligible(st: Student, fromLevel: string, toLevel: string) {
    EligibleBy(st.programDurationYears, toLevel == ALUMNI, LevelNumber(fromLevel), LevelNumber(toLevel))
  }

  function AtLevelTest(level: string): Student -> bool {
    (st: Student) => st.level == level
  }

  /** `find({ where: { level } })` */
  function AtLevel(students: seq<Student>, level: string): seq<Student> {
    Filter(students, AtLevelTest(level))
  }

  function EligibleAt(students: seq<Student>, fromLevel: string, toLevel: string): (r: seq<Student>)
    ensures forall i :: 0 <= i < |r| ==> r[i] in students && r[i].level == fromLevel && Eligible(r[i], fromLevel, toLevel)
  {
    var r := Filter(AtLevel(students, fromLevel), EligibleTest(toLevel == ALUMNI, LevelNumber(fromLevel), LevelNumber(toLevel)));
    assert forall i :: 0 <= i < |r| ==> r[i] in AtLevel(students, fromLevel);
    r
  }

  function IdsOf(students: seq<Student>): (r: seq<Id>)
    ensures |r| == |students| && forall i :: 0 <= i < |r| ==> r[i] == students[i].id
  {
    Project(students, (st: Student) => st.id)
  }

  function PriorLevelsOf(students: seq<Student>): (r: seq<PriorLevel>)
    ensures |r| == |students|
    ensures forall i :: 0 <= i < |r| ==> r[i] == PriorLevel(students[i].id, students[i].level)
  {
    seq(|students|, i requires 0 <= i < |students| => PriorLevel(students[i].id, students[i].level))
  }

  /** `update({ level: from }, { level: to })`: every student at `from` moves. */
  function SetLevel(students: seq<Student>, from: string, to: string): (r: seq<Student>)
    ensures |r| == |students|
    ensures forall i :: 0 <= i < |r| ==> r[i] == students[i].(level := r[i].level)
    ensures forall i :: 0 <= i < |r| ==> r[i].level == if students[i].level == from then to else students[i].level
  {
    seq(|students|, i requires 0 <= i < |students| =>
      if students[i].level == from then students[i].(level := to) else students[i])
  }

  datatype PromoteReply = PromoteReply(promotedCount: nat, fromLevel: string, toLevel: string, actionId: Id)

  /** `promoteStudents`: four guards that leave the store alone, then the bulk
      move, then one log entry recording the eligible students only. */
  function PromoteStep(s: State, fromLevel: Option<string>, toLevel: Option<string>, authSub: Option<string>)
    : (st: Step<PromoteReply>)
    ensures st.reply.Err? ==> st.after == s
    ensures st.reply == Err(400, LEVELS_REQUIRED) <==> !Truthy(fromLevel) || !Truthy(toLevel)
    ensures st.reply == Err(400, LEVELS_MUST_DIFFER)
      <==> Truthy(fromLevel) && Truthy(toLevel) && fromLevel == toLevel
    ensures Truthy(fromLevel) && Truthy(toLevel) && fromLevel != toLevel ==>
      (st.reply == Err(404, NoStudentsAt(fromLevel.value)) <==> AtLevel(s.students, fromLevel.value) == [])
    ensures Truthy(fromLevel) && Truthy(toLevel) && fromLevel != toLevel
      && AtLevel(s.students, fromLevel.value) != [] && EligibleAt(s.students, fromLevel.value, toLevel.value) == []
      ==> st.reply == Err(400, NoneEligible(fromLevel.value, toLevel.value))
    ensures st.reply.Ok? ==> Truthy(fromLevel) && Truthy(toLevel) && fromLevel != toLevel
    ensures st.reply.Ok? ==>
      (var from, to := fromLevel.value, toLevel.value;
       var valid := EligibleAt(s.students, from, to);
       && st.reply == Ok(200, PromoteReply(|valid|, from, to, s.nextId))
       && |valid| > 0
       && st.after.students == SetLevel(s.students, from, to)
       && st.after.attendance == s.attendance
       && st.after.actions == s.actions + [ActionLog(s.nextId, PromoteStudents, Performer(authSub),
                                                     PromotionInfo(from, to, IdsOf(valid)), false,
                                                     Some(PriorLevels(PriorLevelsOf(valid))))]
       && st.after.nextId == s.nextId + 1)
  {
    if !Truthy(fromLevel) || !Truthy(toLevel) then Step(Err(400, LEVELS_REQUIRED), s)
    else
      var from, to := fromLevel.value, toLevel.value;
      if from == to then Step(Err(400, LEVELS_MUST_DIFFER), s)
      else if AtLevel(s.students, from) == [] then Step(Err(404, NoStudentsAt(from)), s)
      else
        var valid := EligibleAt(s.students, from, to);
        if valid == [] then Step(Err(400, NoneEligible(from, to)), s)
        else
          var entry := NewAction(s.nextId, PromoteStudents, Performer(authSub),
                                 PromotionInfo(from, to, IdsOf(valid)), Some(PriorLevels(PriorLevelsOf(valid))));
          Step(Ok(200, PromoteReply(|valid|, from, to, s.nextId)),
               s.(students := SetLevel(s.students, from, to), actions := s.actions + [entry], nextId := s.nextId + 1))
  }

  /** The eligibility loop of `promoteStudents`, pushing into `validStudents`. */
  method SelectEligible(candidates: seq<Student>, toAlumni: bool, cur: Option<int>, target: Option<int>)
    returns (valid: seq<Student>)
    ensures valid == Filter(candidates, EligibleTest(toAlumni, cur, target))
  {
    valid := [];
    var i := 0;
    while i < |candidates|
      invariant 0 <= i <= |candidates|
      invariant valid == Filter(candidates[..i], EligibleTest(toAlumni, cur, target))
    {
      var st := candidates[i];
      if EligibleBy(st.programDurationYears, toAlumni, cur, target) {
        valid := valid + [st];
      }
      assert candidates[..i + 1] == candidates[..i] + [st];
      FilterAppend(candidates[..i], [st], EligibleTest(toAlumni, cur, target));
      i := i + 1;
    }
    assert candidates[..i] == candidates;
  }

  /** The writes of a successful promotion: the bulk move, then the log entry. */
  method ApplyPromotion(db: Db, from: string, to: string, valid: seq<Student>, performer: string)
    returns (entry: ActionLog)
    requires db.Valid()
    modifies db
    ensures db.Valid()
    ensures entry == ActionLog(old(db.nextId), PromoteStudents, performer, PromotionInfo(from, to, IdsOf(valid)),
                               false, Some(PriorLevels(PriorLevelsOf(valid))))
    ensures db.Abs() == old(db.Abs()).(students := SetLevel(old(db.students), from, to),
                                       actions := old(db.actions) + [entry], nextId := old(db.nextId) + 1)
  {
    entry := NewAction(db.nextId, PromoteStudents, performer,
                       PromotionInfo(from, to, IdsOf(valid)), Some(PriorLevels(PriorLevelsOf(valid))));
    ghost var s := db.Abs();
    KeyedReplaceStudents(s, SetLevel(s.students, from, to));
    KeyedAppendAction(s.(students := SetLevel(s.students, from, to)), entry);
    db.students := SetLevel(db.students, from, to);
    db.actions := db.actions + [entry];
    db.nextId := db.nextId + 1;
  }

  method Promote(db: Db, fromLevel: Option<string>, toLevel: Option<string>, authSub: Option<string>)
    returns (r: Result<PromoteReply>)
    requires db.Valid()
    modifies db
    ensures db.Valid()
    ensures Step(r, db.Abs()) == PromoteStep(old(db.Abs()), fromLevel, toLevel, authSub)
  {
    if !Truthy(fromLevel) || !Truthy(toLevel) {
      return Err(400, LEVELS_REQUIRED);
    }
    var from, to := fromLevel.value, toLevel.value;
    if from == to {
      return Err(400, LEVELS_MUST_DIFFER);
    }
    var candidates := AtLevel(db.students, from);
    if |candidates| == 0 {
      return Err(404, NoStudentsAt(from));
    }
    var valid := SelectEligible(candidates, to == ALUMNI, LevelNumber(from), LevelNumber(to));
    if |valid| == 0 {
      return Err(400, NoneEligible(from, to));
    }
    var entry := ApplyPromotion(db, from, to, valid, Performer(authSub));
    r := Ok(200, PromoteReply(|valid|, from, to, entry.id));
  }

  // ------------------------------------------------------------------- undo

  /** `update({ id }, { level })` */
  function SetLevelById(students: seq<Student>, id: Id, level: string): (r: seq<Student>)
    ensures |r| == |students|
    ensures forall i :: 0 <= i < |r| ==> r[i] == if students[i].id == id then students[i].(level := level) else students[i]
  {
    seq(|students|, i requires 0 <= i < |students| =>
      if students[i].id == id then students[i].(level := level) else students[i])
  }

  /** The restore loop of `undoPromotion`, as a fold over the recorded items. */
  function RestoreLevels(students: seq<Student>, prior: seq<PriorLevel>): (r: seq<Student>)
    ensures |r| == |students|
  {
    if prior == [] then students
    else
      var last := prior[|prior| - 1];
      SetLevelById(RestoreLevels(students, prior[..|prior| - 1]), last.id, last.from)
  }

  /** Restoring writes each recorded level onto the student with that id and
      leaves every other student as it was. */
  lemma {:induction false} RestoreLevelsEffect(students: seq<Student>, prior: seq<PriorLevel>)
    requires forall a, b :: 0 <= a < b < |prior| ==> prior[a].id != prior[b].id
    ensures var r := RestoreLevels(students, prior);
      && (forall i, j :: 0 <= i < |students| && 0 <= j < |prior| && prior[j].id == students[i].id
            ==> r[i] == students[i].(level := prior[j].from))
      && (forall i :: 0 <= i < |students| && (forall j :: 0 <= j < |prior| ==> prior[j].id != students[i].id)
            ==> r[i] == students[i])
  {
    if prior != [] {
      var init := prior[..|prior| - 1];
      RestoreLevelsEffect(students, init);
      assert forall j :: 0 <= j < |init| ==> init[j] == prior[j];
    }
  }

  datatype UndoReply = NothingToUndo | Restored(restored: nat)

  /** `action.undoData?.priorLevels || []` */
  function RecordedLevels(a: ActionLog): seq<PriorLevel> {
    match a.undoData
    case Some(PriorLevels(p)) => p
    case _ => []
  }

  /** `undoPromotion` */
  function UndoPromotionStep(s: State, actionId: Id): (st: Step<UndoReply>)
    ensures st.reply.Err? ==> st.after == s
    ensures st.reply == Err(404, ACTION_NOT_FOUND) <==> forall i :: 0 <= i < |s.actions| ==> s.actions[i].id != actionId
    ensures var g := UndoGuard(s.actions, actionId, PromoteStudents, INVALID_PROMOTION_ACTION);
      && (st.reply.Err? <==> g.Err?)
      && (g.Err? ==> st.reply == Err(g.status, g.message))
      && (st.reply == Ok(200, NothingToUndo) <==> g.Ok? && RecordedLevels(s.actions[g.value]) == [])
    ensures var f := FindAction(s.actions, actionId);
      f.Some? && s.actions[f.value].actionType != PromoteStudents ==> st.reply == Err(400, INVALID_PROMOTION_ACTION)
    ensures var f := FindAction(s.actions, actionId);
      f.Some? && s.actions[f.value].actionType == PromoteStudents && s.actions[f.value].undone
      ==> st.reply == Err(400, ALREADY_UNDONE)
    ensures st.reply == Ok(200, NothingToUndo) ==> st.after == s
    ensures st.reply.Ok? && st.reply.value.Restored? ==>
      exists k :: 0 <= k < |s.actions| && s.actions[k].id == actionId
        && s.actions[k].actionType == PromoteStudents && !s.actions[k].undone
        && st.reply.value.restored == |RecordedLevels(s.actions[k])| > 0
        && st.after == s.(students := RestoreLevels(s.students, RecordedLevels(s.actions[k])),
                          actions := s.actions[k := s.actions[k].(undone := true)])
  {
    var g := UndoGuard(s.actions, actionId, PromoteStudents, INVALID_PROMOTION_ACTION);
    if g.Err? then Step(Err(g.status, g.message), s)
    else
      var k := g.value;
      var prior := RecordedLevels(s.actions[k]);
      if |prior| == 0 then Step(Ok(200, NothingToUndo), s)
      else Step(Ok(200, Restored(|prior|)),
                s.(students := RestoreLevels(s.students, prior), actions := s.actions[k := s.actions[k].(undone := true)]))
  }

  method UndoPromotion(db: Db, actionId: Id) returns (r: Result<UndoReply>)
    requires db.Valid()
    modifies db
    ensures db.Valid()
    ensures Step(r, db.Abs()) == UndoPromotionStep(old(db.Abs()), actionId)
  {
    var g := UndoGuard(db.actions, actionId, PromoteStudents, INVALID_PROMOTION_ACTION);
    if g.Err? {
      return Err(g.status, g.message);
    }
    var k := g.value;
    var prior := RecordedLevels(db.actions[k]);
    if |prior| == 0 {
      return Ok(200, NothingToUndo);
    }
    var i := 0;
    while i < |prior|
      invariant 0 <= i <= |prior|
      invariant db.students == RestoreLevels(old(db.students), prior[..i])
      invariant db.actions == old(db.actions) && db.nextId == old(db.nextId) && db.attendance == old(db.attendance)
      invariant forall j :: 0 <= j < |db.students| ==> db.students[j].id == old(db.students)[j].id
    {
      assert prior[..i + 1][..i] == prior[..i];
      db.students := SetLevelById(db.students, prior[i].id, prior[i].from);
      i := i + 1;
    }
    assert prior[..i] == prior;
    db.actions := db.actions[k := db.actions[k].(undone := true)];
    r := Ok(200, Restored(|prior|));
  }

  /** A second undo of the same promotion is refused. */
  lemma UndoPromotionTwiceRejected(s: State, actionId: Id)
    requires UndoPromotionStep(s, actionId).reply.Ok?
    requires UndoPromotionStep(s, actionId).reply.value.Restored?
    ensures UndoPromotionStep(UndoPromotionStep(s, actionId).after, actionId).reply == Err(400, ALREADY_UNDONE)
  {
    var k := UndoGuard(s.actions, actionId, PromoteStudents, INVALID_PROMOTION_ACTION).value;
    UndoneEntryRejected(s.actions, k, PromoteStudents, INVALID_PROMOTION_ACTION);
  }

  /** The entry a successful promotion appends is the one its undo finds. */
  lemma PromotionEntryFound(s: State, fromLevel: Option<string>, toLevel: Option<string>, authSub: Option<string>)
    requires Keyed(s) && PromoteStep(s, fromLevel, toLevel, authSub).reply.Ok?
    ensures var s1 := PromoteStep(s, fromLevel, toLevel, authSub).after;
      UndoGuard(s1.actions, s.nextId, PromoteStudents, INVALID_PROMOTION_ACTION) == Ok(200, |s.actions|)
  {
    var s1 := PromoteStep(s, fromLevel, toLevel, authSub).after;
    var n := |s.actions|;
    assert |s1.actions| == n + 1 && s1.actions[n].id == s.nextId;
    assert forall j :: 0 <= j < n ==> s1.actions[j] == s.actions[j];
    var f := FindAction(s1.actions, s.nextId);
    assert f.Some?;
    assert f.value == n;
  }

  /** Ids of the eligible students, recorded for undo, are distinct when the
      store's ids are. */
  lemma EligibleIdsDistinct(s: State, from: string, to: string)
    requires Keyed(s)
    ensures var p := PriorLevelsOf(EligibleAt(s.students, from, to));
      forall a, b :: 0 <= a < b < |p| ==> p[a].id != p[b].id
  {
    assert DistinctBy(s.students, StudentId);
    FilterDistinctBy(s.students, AtLevelTest(from), StudentId);
    FilterDistinctBy(AtLevel(s.students, from), EligibleTest(to == ALUMNI, LevelNumber(from), LevelNumber(to)), StudentId);
  }

  /** Undoing a promotion right after it restores the recorded levels on the
      moved table. */
  lemma UndoAfterPromote(s: State, fromLevel: Option<string>, toLevel: Option<string>, authSub: Option<string>)
    requires Keyed(s) && PromoteStep(s, fromLevel, toLevel, authSub).reply.Ok?
    ensures var s1 := PromoteStep(s, fromLevel, toLevel, authSub).after;
      && s1.students == SetLevel(s.students, fromLevel.value, toLevel.value)
      && UndoPromotionStep(s1, s.nextId).after.students
         == RestoreLevels(s1.students, PriorLevelsOf(EligibleAt(s.students, fromLevel.value, toLevel.value)))
  {
    var s1 := PromoteStep(s, fromLevel, toLevel, authSub).after;
    PromotionEntryFound(s, fromLevel, toLevel, authSub);
    assert RecordedLevels(s1.actions[|s.actions|]) == PriorLevelsOf(EligibleAt(s.students, fromLevel.value, toLevel.value));
  }

  /** Promotion followed by its undo puts every eligible student back at the
      level it came from. */
  lemma PromoteUndoRestoresEligible(s: State, fromLevel: Option<string>, toLevel: Option<string>,
                                    authSub: Option<string>, i: nat)
    requires Keyed(s) && PromoteStep(s, fromLevel, toLevel, authSub).reply.Ok?
    requires i < |s.students| && s.students[i] in EligibleAt(s.students, fromLevel.value, toLevel.value)
    ensures var s1 := PromoteStep(s, fromLevel, toLevel, authSub).after;
      UndoPromotionStep(s1, s.nextId).after.students[i] == s.students[i]
  {
    var from, to := fromLevel.value, toLevel.value;
    UndoAfterPromote(s, fromLevel, toLevel, authSub);
    var moved := SetLevel(s.students, from, to);
    var valid := EligibleAt(s.students, from, to);
    var prior := PriorLevelsOf(valid);
    EligibleIdsDistinct(s, from, to);
    RestoreLevelsEffect(moved, prior);
    var j :| 0 <= j < |valid| && valid[j] == s.students[i];
    assert prior[j].id == moved[i].id;
    assert valid[j].level == from;
  }

  /** Promotion followed by its undo leaves an ineligible student that shared
      the from-level at the target level: the bulk move took it along, and
      nothing recorded it. */
  lemma PromoteUndoStrandsIneligible(s: State, fromLevel: Option<string>, toLevel: Option<string>,
                                     authSub: Option<string>, i: nat)
    requires Keyed(s) && PromoteStep(s, fromLevel, toLevel, authSub).reply.Ok?
    requires i < |s.students| && s.students[i].level == fromLevel.value
    requires !Eligible(s.students[i], fromLevel.value, toLevel.value)
    ensures var s1 := PromoteStep(s, fromLevel, toLevel, authSub).after;
      UndoPromotionStep(s1, s.nextId).after.students[i].level == toLevel.value != fromLevel.value
  {
    var from, to := fromLevel.value, toLevel.value;
    var moved := SetLevel(s.students, from, to);
    var valid := EligibleAt(s.students, from, to);
    var prior := PriorLevelsOf(valid);
    assert forall j :: 0 <= j < |prior| ==> prior[j].id != moved[i].id by {
      forall j | 0 <= j < |prior| ensures prior[j].id != moved[i].id {
        assert valid[j] in s.students && Eligible(valid[j], from, to);
        var k :| 0 <= k < |s.students| && s.students[k] == valid[j];
        assert k != i;
      }
    }
    assert RestoreLevels(moved, prior)[i] == moved[i] by {
      EligibleIdsDistinct(s, from, to);
      RestoreLevelsEffect(moved, prior);
    }
    UndoAfterPromote(s, fromLevel, toLevel, authSub);
  }

  /** The update the promotion evidently intends: only the eligible students,
      by id, move to the target level. */
  function SetLevelOfIds(students: seq<Student>, ids: seq<Id>, to: string): (r: seq<Student>)
    ensures |r| == |students|
    ensures forall i :: 0 <= i < |r| ==> r[i] == if students[i].id in ids then students[i].(level := to) else students[i]
  {
    seq(|students|, i requires 0 <= i < |students| =>
      if students[i].id in ids then students[i].(level := to) else students[i])
  }

  /** `promoteStudents` with the update restricted to the eligible students. */
  function PromoteEligibleOnlyStep(s: State, fromLevel: Option<string>, toLevel: Option<string>,
                                   authSub: Option<string>): (st: Step<PromoteReply>)
    ensures st.reply == PromoteStep(s, fromLevel, toLevel, authSub).reply
    ensures st.reply.Ok? ==> st.after == PromoteStep(s, fromLevel, toLevel, authSub).after.(
      students := SetLevelOfIds(s.students, IdsOf(EligibleAt(s.students, fromLevel.value, toLevel.value)), toLevel.value))
  {
    var st := PromoteStep(s, fromLevel, toLevel, authSub);
    if st.reply.Err? then st
    else
      var valid := EligibleAt(s.students, fromLevel.value, toLevel.value);
      Step(st.reply, st.after.(students := SetLevelOfIds(s.students, IdsOf(valid), toLevel.value)))
  }

  /** Restoring the recorded levels of distinct students of the table undoes
      moving exactly those students. */
  lemma RestoreUndoesSetLevelOfIds(students: seq<Student>, valid: seq<Student>, to: string)
    requires DistinctBy(students, StudentId) && DistinctBy(valid, StudentId)
    requires forall j :: 0 <= j < |valid| ==> valid[j] in students
    ensures RestoreLevels(SetLevelOfIds(students, IdsOf(valid), to), PriorLevelsOf(valid)) == students
  {
    var moved := SetLevelOfIds(students, IdsOf(valid), to);
    var prior := PriorLevelsOf(valid);
    RestoreLevelsEffect(moved, prior);
    var r := RestoreLevels(moved, prior);
    forall i | 0 <= i < |students| ensures r[i] == students[i] {
      if students[i].id in IdsOf(valid) {
        var j :| 0 <= j < |valid| && IdsOf(valid)[j] == students[i].id;
        var k :| 0 <= k < |students| && students[k] == valid[j];
        assert k == i;
        assert prior[j].id == moved[i].id;
      } else {
        forall j | 0 <= j < |prior| ensures prior[j].id != moved[i].id {
          assert IdsOf(valid)[j] == prior[j].id;
        }
      }
    }
  }

  /** With the restricted update, undo restores the student table exactly. */
  lemma PromoteEligibleOnlyUndoRoundTrip(s: State, fromLevel: Option<string>, toLevel: Option<string>,
                                         authSub: Option<string>)
    requires Keyed(s) && PromoteEligibleOnlyStep(s, fromLevel, toLevel, authSub).reply.Ok?
    ensures var s1 := PromoteEligibleOnlyStep(s, fromLevel, toLevel, authSub).after;
      UndoPromotionStep(s1, s.nextId).after.students == s.students
  {
    var from, to := fromLevel.value, toLevel.value;
    var s0 := PromoteStep(s, fromLevel, toLevel, authSub).after;
    var s1 := PromoteEligibleOnlyStep(s, fromLevel, toLevel, authSub).after;
    PromotionEntryFound(s, fromLevel, toLevel, authSub);
    var valid := EligibleAt(s.students, from, to);
    var prior := PriorLevelsOf(valid);
    assert s1.actions == s0.actions;
    assert RecordedLevels(s1.actions[|s.actions|]) == prior;
    assert UndoPromotionStep(s1, s.nextId).after.students == RestoreLevels(s1.students, prior);
    assert DistinctBy(s.students, StudentId);
    FilterDistinctBy(s.students, AtLevelTest(from), StudentId);
    FilterDistinctBy(AtLevel(s.students, from), EligibleTest(to == ALUMNI, LevelNumber(from), LevelNumber(to)), StudentId);
    RestoreUndoesSetLevelOfIds(s.students, valid, to);
  }

  /** A promotion between two distinct non-empty levels succeeds as soon as
      one student at the from-level is eligible. */
  lemma PromoteSucceedsWithOneEligible(s: State, fromLevel: string, toLevel: string, authSub: Option<string>, k: nat)
    requires fromLevel != "" && toLevel != "" && fromLevel != toLevel
    requires k < |s.students| && s.students[k].level == fromLevel && Eligible(s.students[k], fromLevel, toLevel)
    ensures PromoteStep(s, Some(fromLevel), Some(toLevel), authSub).reply.Ok?
  {
    var st := s.students[k];
    assert AtLevelTest(fromLevel)(st);
    var atLevel := AtLevel(s.students, fromLevel);
    assert st in atLevel;
    var m :| 0 <= m < |atLevel| && atLevel[m] == st;
    assert EligibleTest(toLevel == ALUMNI, LevelNumber(fromLevel), LevelNumber(toLevel))(atLevel[m]);
    assert st in EligibleAt(s.students, fromLevel, toLevel);
  }

  /** The as-written promotion and undo do not round-trip: with two students
      at L400, one in a four-year program (who may graduate) and one in a
      six-year program (who may not), promoting L400 to ALUMNI and undoing it
      leaves the second at ALUMNI. */
  lemma PromoteUndoNotRoundTrip(a: Student, b: Student)
    requires a.id == 0 && a.level == "L400" && a.programDurationYears == 4
    requires b.id == 1 && b.level == "L400" && b.programDurationYears == 6
    ensures var s := State([a, b], [], [], 2);
      var s1 := PromoteStep(s, Some("L400"), Some(ALUMNI), None).after;
      UndoPromotionStep(s1, 2).after.students != s.students
  {
    var s := State([a, b], [], [], 2);
    TwoAtL400Promote(a, b);
    AlumniFromL400(b);
    PairKeyed(a, b);
    PromoteUndoStrandsIneligible(s, Some("L400"), Some(ALUMNI), None, 1);
  }

  /** The promotion of the counterexample succeeds, and leaves the second
      student out of the eligible set. */
  lemma TwoAtL400Promote(a: Student, b: Student)
    requires a.id == 0 && a.level == "L400" && a.programDurationYears == 4
    requires b.id == 1 && b.level == "L400" && b.programDurationYears == 6
    ensures var s := State([a, b], [], [], 2);
      PromoteStep(s, Some("L400"), Some(ALUMNI), None).reply.Ok?
  {
    var s := State([a, b], [], [], 2);
    AlumniFromL400(a);
    PromoteSucceedsWithOneEligible(s, "L400", ALUMNI, None, 0);
  }

  lemma PairKeyed(a: Student, b: Student)
    requires a.id == 0 && b.id == 1
    ensures Keyed(State([a, b], [], [], 2))
  {
  }

  /** From L400 to ALUMNI exactly the programs of at most four years qualify. */
  lemma AlumniFromL400(st: Student)
    ensures Eligible(st, "L400", ALUMNI) <==> st.programDurationYears <= 4
  {
    LevelNumberOfLevelName(400);
    assert LevelName(400) == "L400";
    AlumniHasNoLevelNumber();
  }

  // ------------------------------------------------------- promotion targets

  /** A program of `duration` years leaves room above the level number `cur`
      (NaN compares false, so a NaN level has no room). */
  predicate HasRoom(cur: Option<int>, duration: int) {
    cur.Some? && cur.value < duration * 100
  }

  /** The target one program duration allows from a level number. */
  function TargetFor(cur: Option<int>, duration: int): string {
    if HasRoom(cur, duration) then NextTarget(cur) else ALUMNI
  }

  /** `[...new Set(atLevel.map(s => s.programDurationYears))]` */
  function DurationsOf(atLevel: seq<Student>): (r: seq<int>)
    ensures Distinct(r)
    ensures forall d :: d in r <==> exists i :: 0 <= i < |atLevel| && atLevel[i].programDurationYears == d
  {
    var ds := seq(|atLevel|, i requires 0 <= i < |atLevel| => atLevel[i].programDurationYears);
    var r := Dedupe(ds);
    assert forall d :: d in r ==> exists j :: 0 <= j < |ds| && ds[j] == d;
    assert forall i :: 0 <= i < |atLevel| ==> ds[i] == atLevel[i].programDurationYears && ds[i] in r;
    r
  }

  /** The `validTargets` set, in insertion order. */
  function TargetsOf(cur: Option<int>, durations: seq<int>): (r: seq<string>)
    ensures Distinct(r)
    ensures forall t :: t in r <==> exists i :: 0 <= i < |durations| && TargetFor(cur, durations[i]) == t
  {
    var ts := seq(|durations|, i requires 0 <= i < |durations| => TargetFor(cur, durations[i]));
    var r := Dedupe(ts);
    assert forall t :: t in r ==> exists j :: 0 <= j < |ts| && ts[j] == t;
    assert forall i :: 0 <= i < |durations| ==> ts[i] == TargetFor(cur, durations[i]) && ts[i] in r;
    r
  }

  predicate IsAlumniTarget(t: string) {
    t == ALUMNI
  }

  predicate NotAlumniTarget(t: string) {
    t != ALUMNI
  }

  /** The comparator sort of the target set. With one from-level every
      non-ALUMNI target is the same string, so the numeric comparison never
      reorders anything and the sort only moves ALUMNI to the end. */
  function SortTargets(targets: seq<string>): (r: seq<string>)
    ensures |r| == |targets|
    ensures forall t :: t in r <==> t in targets
  {
    CountSplit(targets, NotAlumniTarget, IsAlumniTarget);
    Filter(targets, NotAlumniTarget) + Filter(targets, IsAlumniTarget)
  }

  /** `getValidPromotionTargets` */
  function ValidPromotionTargets(students: seq<Student>, fromLevel: Option<string>): (r: Result<seq<string>>)
    ensures r.Err? <==> !Truthy(fromLevel)
    ensures r.Err? ==> r == Err(400, FROM_LEVEL_REQUIRED)
    ensures r.Ok? ==> r.status == 200 && (r.value == [] <==> AtLevel(students, fromLevel.value) == [])
  {
    if !Truthy(fromLevel) then Err(400, FROM_LEVEL_REQUIRED)
    else
      var atLevel := AtLevel(students, fromLevel.value);
      if atLevel == [] then Ok(200, [])
      else
        var durations := DurationsOf(atLevel);
        var targets := TargetsOf(LevelNumber(fromLevel.value), durations);
        assert atLevel[0].programDurationYears in durations;
        assert TargetFor(LevelNumber(fromLevel.value), durations[0]) in targets;
        Ok(200, SortTargets(targets))
  }

  /** A target is offered iff some student at the level yields it. */
  lemma TargetsOfStudents(atLevel: seq<Student>, cur: Option<int>, t: string)
    ensures t in TargetsOf(cur, DurationsOf(atLevel))
      <==> exists i :: 0 <= i < |atLevel| && TargetFor(cur, atLevel[i].programDurationYears) == t
  {
    var durations := DurationsOf(atLevel);
    if t in TargetsOf(cur, durations) {
      var a :| 0 <= a < |durations| && TargetFor(cur, durations[a]) == t;
      assert durations[a] in durations;
    }
    if exists i :: 0 <= i < |atLevel| && TargetFor(cur, atLevel[i].programDurationYears) == t {
      var i :| 0 <= i < |atLevel| && TargetFor(cur, atLevel[i].programDurationYears) == t;
      assert atLevel[i].programDurationYears in durations;
      var a :| 0 <= a < |durations| && durations[a] == atLevel[i].programDurationYears;
    }
  }

  /** The part of a distinct target list on one side of ALUMNI holds its
      one possible value iff that value is offered. */
  lemma SideOfTargets(targets: seq<string>, side: string -> bool, x: string)
    requires Distinct(targets)
    requires forall i :: 0 <= i < |targets| && side(targets[i]) ==> targets[i] == x
    ensures Filter(targets, side) == if side(x) && x in targets then [x] else []
  {
    var f := Filter(targets, side);
    FilterDistinct(targets, side);
    assert forall k :: 0 <= k < |f| ==> f[k] == x by {
      forall k | 0 <= k < |f| ensures f[k] == x {
        assert f[k] in targets;
      }
    }
    DistinctConstant(f, x);
    assert f != [] ==> f[0] in targets && side(f[0]);
    assert side(x) && x in targets ==> x in f;
  }

  /** The closed form of the offered targets: the next level when some
      student at the level has room above it, then ALUMNI when some student
      has none. */
  function TargetsShape(atLevel: seq<Student>, cur: Option<int>): seq<string> {
    (if exists i :: 0 <= i < |atLevel| && HasRoom(cur, atLevel[i].programDurationYears)
     then [NextTarget(cur)] else [])
    + (if exists i :: 0 <= i < |atLevel| && !HasRoom(cur, atLevel[i].programDurationYears)
       then [ALUMNI] else [])
  }

  /** The next level, or ALUMNI for a NaN level number. */
  function NextTarget(cur: Option<int>): (r: string)
    ensures r != ALUMNI <==> cur.Some?
  {
    if cur.Some? then LevelName(cur.value + 100)
    else ALUMNI
  }

  lemma TargetsAreNextOrAlumni(atLevel: seq<Student>, cur: Option<int>)
    ensures var targets := TargetsOf(cur, DurationsOf(atLevel));
      forall i :: 0 <= i < |targets| ==> targets[i] == NextTarget(cur) || targets[i] == ALUMNI
  {
    var targets := TargetsOf(cur, DurationsOf(atLevel));
    forall i | 0 <= i < |targets| ensures targets[i] == NextTarget(cur) || targets[i] == ALUMNI {
      TargetsOfStudents(atLevel, cur, targets[i]);
    }
  }

  /** The non-ALUMNI side of the targets: the next level, when some duration
      leaves room. */
  lemma LowerTargets(atLevel: seq<Student>, cur: Option<int>)
    ensures Filter(TargetsOf(cur, DurationsOf(atLevel)), NotAlumniTarget)
      == if exists i :: 0 <= i < |atLevel| && HasRoom(cur, atLevel[i].programDurationYears)
         then [NextTarget(cur)] else []
  {
    var targets := TargetsOf(cur, DurationsOf(atLevel));
    TargetsAreNextOrAlumni(atLevel, cur);
    SideOfTargets(targets, NotAlumniTarget, NextTarget(cur));
    TargetsOfStudents(atLevel, cur, NextTarget(cur));
  }

  /** The ALUMNI side of the targets: ALUMNI, when some duration leaves no room. */
  lemma UpperTargets(atLevel: seq<Student>, cur: Option<int>)
    ensures Filter(TargetsOf(cur, DurationsOf(atLevel)), IsAlumniTarget)
      == if exists i :: 0 <= i < |atLevel| && !HasRoom(cur, atLevel[i].programDurationYears)
         then [ALUMNI] else []
  {
    var targets := TargetsOf(cur, DurationsOf(atLevel));
    TargetsAreNextOrAlumni(atLevel, cur);
    SideOfTargets(targets, IsAlumniTarget, ALUMNI);
    TargetsOfStudents(atLevel, cur, ALUMNI);
  }

  lemma SortedTargetsShape(atLevel: seq<Student>, cur: Option<int>)
    ensures SortTargets(TargetsOf(cur, DurationsOf(atLevel))) == TargetsShape(atLevel, cur)
  {
    var targets := TargetsOf(cur, DurationsOf(atLevel));
    LowerTargets(atLevel, cur);
    UpperTargets(atLevel, cur);
    assert SortTargets(targets) == Filter(targets, NotAlumniTarget) + Filter(targets, IsAlumniTarget);
  }

  /** The targets are the next level (when some duration leaves room above
      the from-level) followed by ALUMNI (when some duration does not), each
      at most once: no duplicates, and ALUMNI last. */
  lemma ValidTargetsShape(students: seq<Student>, fromLevel: string)
    requires fromLevel != "" && AtLevel(students, fromLevel) != []
    ensures ValidPromotionTargets(students, Some(fromLevel))
      == Ok(200, TargetsShape(AtLevel(students, fromLevel), LevelNumber(fromLevel)))
  {
    SortedTargetsShape(AtLevel(students, fromLevel), LevelNumber(fromLevel));
  }

  /** For a from-level whose number is a multiple of 100, every offered target
      passes the promotion's own eligibility test for some student there. */
  lemma ValidTargetsAreEligible(students: seq<Student>, fromLevel: string, n: int, t: string)
    requires fromLevel != "" && LevelNumber(fromLevel) == Some(n) && n % 100 == 0
    requires ValidPromotionTargets(students, Some(fromLevel)).Ok?
    requires t in ValidPromotionTargets(students, Some(fromLevel)).value
    ensures exists st :: st in AtLevel(students, fromLevel) && Eligible(st, fromLevel, t)
  {
    var atLevel := AtLevel(students, fromLevel);
    var cur := LevelNumber(fromLevel);
    assert t in TargetsShape(atLevel, cur) by {
      ValidTargetsShape(students, fromLevel);
    }
    if t == ALUMNI {
      var i :| 0 <= i < |atLevel| && !HasRoom(cur, atLevel[i].programDurationYears);
      assert atLevel[i] in atLevel && Eligible(atLevel[i], fromLevel, t);
    } else {
      var i :| 0 <= i < |atLevel| && HasRoom(cur, atLevel[i].programDurationYears);
      NextLevelEligible(atLevel[i], fromLevel, n);
      assert atLevel[i] in atLevel;
    }
  }

  /** A student with room above a level whose number is a multiple of 100
      may move to the next level. */
  lemma NextLevelEligible(st: Student, fromLevel: string, n: int)
    requires LevelNumber(fromLevel) == Some(n) && n % 100 == 0
    requires HasRoom(Some(n), st.programDurationYears)
    ensures Eligible(st, fromLevel, NextTarget(Some(n)))
  {
    var d := st.programDurationYears;
    assert LevelNumber(NextTarget(Some(n))) == Some(n + 100) by {
      LevelNumberOfLevelName(n + 100);
    }
    RoomForNextLevel(n, d);
    assert EligibleBy(d, false, Some(n), Some(n + 100));
  }

  /** Below the last level, a level number that is a multiple of 100 has a
      whole level of room above it. */
  lemma RoomForNextLevel(n: int, d: int)
    requires n % 100 == 0 && n < d * 100
    ensures n + 100 <= d * 100
  {
    var q := n / 100;
    assert n == q * 100;
    assert q < d;
    assert q + 1 <= d;
    assert (q + 1) * 100 <= d * 100;
  }

  // ------------------------------------------------------ alumni eligibility

  /** A student at or past the last level of their program. */
  predicate AlumniReady(st: Student) {
    var n := LevelNumber(st.level);
    n.Some? && n.value >= st.programDurationYears * 100
  }

  datatype AlumniReply = AlumniReply(eligibleCount: nat, students: seq<Student>)

  /** `getAlumniEligibleStudents` */
  function AlumniEligible(students: seq<Student>): (r: AlumniReply)
    ensures r.eligibleCount == |r.students| <= |students|
    ensures forall i :: 0 <= i < |r.students| ==> r.students[i] in students && AlumniReady(r.students[i])
    ensures forall i :: 0 <= i < |students| && AlumniReady(students[i]) ==> students[i] in r.students
  {
    var eligible := Filter(students, AlumniReady);
    AlumniReply(|eligible|, eligible)
  }

  /** A student already at ALUMNI is never listed: its level has no number. */
  lemma AlumniNeverListed(students: seq<Student>, st: Student)
    requires st.level == ALUMNI
    ensures st !in AlumniEligible(students).students
  {
    AlumniHasNoLevelNumber();
  }

  // ------------------------------------------------------- level overview

  datatype LevelEntry = LevelEntry(level: string, count: nat, labelText: string, hasStudents: bool)

  /** `levelCounts[level] || 0` */
  function CountAtLevel(students: seq<Student>, level: string): nat {
    Count(students, KeyIs(LevelOf, level))
  }

  /** `getAvailableLevels`: one entry per canonical level, in order. */
  function AvailableLevels(students: seq<Student>): (r: seq<LevelEntry>)
    ensures |r| == |CANONICAL_LEVELS|
    ensures forall i :: 0 <= i < |r| ==>
      (&& r[i].level == CANONICAL_LEVELS[i]
       && r[i].count == CountAtLevel(students, CANONICAL_LEVELS[i])
       && r[i].hasStudents == (r[i].count > 0)
       && r[i].labelText == CANONICAL_LEVELS[i] + " (" + NatToString(r[i].count) + " students)")
  {
    seq(|CANONICAL_LEVELS|, i requires 0 <= i < |CANONICAL_LEVELS| =>
      var level := CANONICAL_LEVELS[i];
      var n := CountAtLevel(students, level);
      LevelEntry(level, n, level + " (" + NatToString(n) + " students)", n > 0))
  }

  function SumEntryCounts(entries: seq<LevelEntry>): nat {
    if entries == [] then 0 else entries[0].count + SumEntryCounts(entries[1..])
  }

  predicate OffCanonical(st: Student) {
    st.level !in CANONICAL_LEVELS
  }

  /** The overview accounts for every student: those at a canonical level are
      counted once each, the others not at all. */
  lemma AvailableLevelsAccountForAll(students: seq<Student>)
    ensures SumEntryCounts(AvailableLevels(students)) + Count(students, OffCanonical) == |students|
  {
    var r := AvailableLevels(students);
    SumEntryCountsIsSumCounts(students, r, CANONICAL_LEVELS);
    CountByKeys(students, LevelOf, CANONICAL_LEVELS);
    CountSplit(students, KeyIn(LevelOf, CANONICAL_LEVELS), OffCanonical);
  }

  lemma {:induction false} SumEntryCountsIsSumCounts(students: seq<Student>, r: seq<LevelEntry>, levels: seq<string>)
    requires |r| == |levels|
    requires forall i :: 0 <= i < |r| ==> r[i].count == CountAtLevel(students, levels[i])
    ensures SumEntryCounts(r) == SumCounts(students, LevelOf, levels)
  {
    if r != [] {
      SumEntryCountsIsSumCounts(students, r[1..], levels[1..]);
    }
  }

  // ---------------------------------------------------- gender distribution

  const COLORS := ["#3B82F6", "#EF4444", "#10B981", "#F59E0B", "#8B5CF6"]

  datatype Slice = Slice(name: string, value: nat, color: string)

  /** `Object.entries(genderCounts).map(([name, value], index) => ...)`, the
      entries starting at position `offset`. */
  function Slices(students: seq<Student>, keys: seq<string>, offset: nat): (r: seq<Slice>)
    ensures |r| == |keys|
    ensures forall i :: 0 <= i < |r| ==>
      (&& r[i].name == keys[i]
       && r[i].value == Count(students, KeyIs(GenderOf, keys[i]))
       && r[i].color == COLORS[(offset + i) % |COLORS|])
  {
    seq(|keys|, i requires 0 <= i < |keys| =>
      Slice(keys[i], Count(students, KeyIs(GenderOf, keys[i])), COLORS[(offset + i) % |COLORS|]))
  }

  function SumSliceValues(r: seq<Slice>): nat {
    if r == [] then 0 else r[0].value + SumSliceValues(r[1..])
  }

  /** Some student has gender `g`. */
  predicate HasGender(students: seq<Student>, g: string) {
    exists k :: 0 <= k < |students| && students[k].gender == g
  }

  /** Some slice is named `g`. */
  predicate Named(r: seq<Slice>, g: string) {
    exists i :: 0 <= i < |r| && r[i].name == g
  }

  /** `getGenderDistribution`: one slice per distinct gender in first-seen
      order, holding that gender's head count, coloured by position. */
  function GenderDistribution(students: seq<Student>): (r: seq<Slice>)
    ensures forall i, j :: 0 <= i < j < |r| ==> r[i].name != r[j].name
    ensures |r| == |Keys(students, GenderOf)|
    ensures forall i :: 0 <= i < |r| ==> r[i].name == Keys(students, GenderOf)[i]
    ensures forall i :: 0 <= i < |r| ==> r[i].value == Count(students, KeyIs(GenderOf, r[i].name))
    ensures forall i :: 0 <= i < |r| ==> r[i].value > 0 && r[i].color == COLORS[i % |COLORS|]
    ensures forall i :: 0 <= i < |r| ==> HasGender(students, r[i].name)
    ensures forall k :: 0 <= k < |students| ==> Named(r, students[k].gender)
  {
    var keys := Keys(students, GenderOf);
    var r := Slices(students, keys, 0);
    GenderSlicesCover(students, keys, r);
    r
  }

  lemma GenderSlicesCover(students: seq<Student>, keys: seq<string>, r: seq<Slice>)
    requires forall i :: 0 <= i < |keys| ==> exists k :: 0 <= k < |students| && GenderOf(students[k]) == keys[i]
    requires forall k :: 0 <= k < |students| ==> exists i :: 0 <= i < |keys| && keys[i] == GenderOf(students[k])
    requires |r| == |keys|
    requires forall i :: 0 <= i < |r| ==> r[i].name == keys[i] && r[i].value == Count(students, KeyIs(GenderOf, keys[i]))
    ensures forall i :: 0 <= i < |r| ==> r[i].value > 0 && HasGender(students, r[i].name)
    ensures forall k :: 0 <= k < |students| ==> Named(r, students[k].gender)
  {
    forall i | 0 <= i < |r|
      ensures r[i].value > 0 && HasGender(students, r[i].name)
    {
      var w :| 0 <= w < |students| && GenderOf(students[w]) == keys[i];
      CountPositive(students, KeyIs(GenderOf, keys[i]), w);
      assert students[w].gender == r[i].name;
    }
    forall k | 0 <= k < |students|
      ensures Named(r, students[k].gender)
    {
      var w :| 0 <= w < |keys| && keys[w] == GenderOf(students[k]);
      assert r[w].name == students[k].gender;
    }
  }

  lemma {:induction false} SliceValuesSum(students: seq<Student>, keys: seq<string>, index: nat)
    ensures SumSliceValues(Slices(students, keys, index)) == SumCounts(students, GenderOf, keys)
  {
    if keys != [] {
      assert Slices(students, keys, index)[1..] == Slices(students, keys[1..], index + 1);
      SliceValuesSum(students, keys[1..], index + 1);
    }
  }

  /** The slices add up to the number of students. */
  lemma GenderDistributionSumsToTotal(students: seq<Student>)
    ensures SumSliceValues(GenderDistribution(students)) == |students|
  {
    SliceValuesSum(students, Keys(students, GenderOf), 0);
    KeyCountsSumToTotal(students, GenderOf);
  }

  /** The slices come in first-seen order: some student of an earlier
      slice's gender precedes every student of a later slice's gender. */
  lemma GenderDistributionFirstSeen(students: seq<Student>, i: nat, j: nat)
    requires i < j < |GenderDistribution(students)|
    ensures var r := GenderDistribution(students);
      SeenBefore(students, GenderOf, r[i].name, r[j].name)
  {
    KeysFirstSeen(students, GenderOf, i, j);
  }

  // ---------------------------------------------------- secretary creation

  const FIELDS_REQUIRED := "All required fields must be provided"
  const USER_EXISTS := "User with this email already exists"
  const STUDENT_CODE_EXISTS := "Student with this ID already exists"

  /** The body fields `createSecretary` reads: text fields as the text sent,
      the program duration as the number sent. */
  datatype SecretaryRequest = SecretaryRequest(
    fullName: Option<string>, email: Option<string>, password: Option<string>, phone: Option<string>,
    studentId: Option<string>, level: Option<string>, hall: Option<string>, gender: Option<string>,
    role: Option<string>, programDurationYears: Option<int>, dateOfAdmission: Option<string>)

  predicate AllRequiredPresent(q: SecretaryRequest) {
    Truthy(q.fullName) && Truthy(q.email) && Truthy(q.password) && Truthy(q.phone) && Truthy(q.studentId)
    && Truthy(q.level) && Truthy(q.hall) && Truthy(q.gender) && Truthy(q.role)
    && TruthyNumber(q.programDurationYears) && Truthy(q.dateOfAdmission)
  }

  /** The checks of `createSecretary`, in order, before anything is written:
      every required field, then a free user email, then a free student code.
      A request that passes goes on to creation with that code. */
  function SecretaryGuard(q: SecretaryRequest, userEmails: seq<string>, students: seq<Student>): (r: Result<string>)
    ensures r.Ok? <==> (&& AllRequiredPresent(q)
                        && q.email.value !in userEmails
                        && !CodeTaken(students, q.studentId.value))
    ensures r == Err(400, FIELDS_REQUIRED) <==> !AllRequiredPresent(q)
    ensures r == Err(400, USER_EXISTS) <==> AllRequiredPresent(q) && q.email.value in userEmails
    ensures r == Err(400, STUDENT_CODE_EXISTS) <==>
      (AllRequiredPresent(q) && q.email.value !in userEmails && CodeTaken(students, q.studentId.value))
    ensures r.Ok? ==> r.status == 201 && r.value == q.studentId.value
    ensures r.Err? ==> r.status == 400
  {
    if !AllRequiredPresent(q) then Err(400, FIELDS_REQUIRED)
    else if q.email.value in userEmails then Err(400, USER_EXISTS)
    else if FirstIndex(students, CodeIs(q.studentId.value)).Some? then Err(400, STUDENT_CODE_EXISTS)
    else Ok(201, q.studentId.value)
  }

  function CodeIs(code: string): Student -> bool {
    (st: Student) => st.code == Some(code)
  }
}
