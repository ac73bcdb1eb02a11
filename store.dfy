/** The in-memory record store that stands in for the relational database:
    three tables and the generator of fresh identifiers. */
module Store {
  import opened Wrappers
  import opened Entities

  /** A snapshot of the whole store, the value the handlers are specified on. */
  datatype State = State(
    students: seq<Student>,
    attendance: seq<AttendanceRow>,
    actions: seq<ActionLog>,
    nextId: nat)

  /** What a handler answers and the store it leaves behind. */
  datatype Step<+T> = Step(reply: Result<T>, after: State)

  /** Primary keys: every id is below the generator and no two students or
      two log entries share an id. */
  ghost predicate Keyed(s: State) {
    && (forall i :: 0 <= i < |s.students| ==> s.students[i].id < s.nextId)
    && (forall i :: 0 <= i < |s.attendance| ==> s.attendance[i].id < s.nextId)
    && (forall i :: 0 <= i < |s.actions| ==> s.actions[i].id < s.nextId)
    && (forall i, j :: 0 <= i < j < |s.students| ==> s.students[i].id != s.students[j].id)
    && (forall i, j :: 0 <= i < j < |s.actions| ==> s.actions[i].id != s.actions[j].id)
  }

  /** Rewriting student records without touching their ids keeps the keys. */
  lemma KeyedReplaceStudents(s: State, students: seq<Student>)
    requires Keyed(s)
    requires |students| == |s.students| && forall i :: 0 <= i < |students| ==> students[i].id == s.students[i].id
    ensures Keyed(s.(students := students))
  {
  }

  /** Rewriting log entries without touching their ids keeps the keys. */
  lemma KeyedReplaceActions(s: State, actions: seq<ActionLog>)
    requires Keyed(s)
    requires |actions| == |s.actions| && forall i :: 0 <= i < |actions| ==> actions[i].id == s.actions[i].id
    ensures Keyed(s.(actions := actions))
  {
  }

  /** A new log entry under a fresh id keeps the keys. */
  lemma KeyedAppendAction(s: State, a: ActionLog)
    requires Keyed(s) && a.id == s.nextId
    ensures Keyed(s.(actions := s.actions + [a], nextId := s.nextId + 1))
  {
  }

  /** A new student under a fresh id keeps the keys. */
  lemma KeyedAppendStudent(s: State, st: Student)
    requires Keyed(s) && st.id == s.nextId
    ensures Keyed(s.(students := s.students + [st], nextId := s.nextId + 1))
  {
  }

  predicate HasStudent(students: seq<Student>, id: Id) {
    exists i :: 0 <= i < |students| && students[i].id == id
  }

  /** Removing one student keeps the keys. */
  lemma KeyedRemoveStudent(s: State, k: nat)
    requires Keyed(s) && k < |s.students|
    ensures Keyed(s.(students := s.students[..k] + s.students[k + 1..]))
  {
    var r := s.students[..k] + s.students[k + 1..];
    assert forall i :: 0 <= i < |r| ==> r[i] == s.students[if i < k then i else i + 1];
  }

  /** Some student already carries `code` (the column is unique). */
  predicate CodeTaken(students: seq<Student>, code: string) {
    exists i :: 0 <= i < |students| && students[i].code == Some(code)
  }

  /** `findOne({ where: { id } })` on the student table. */
  function FindStudent(students: seq<Student>, id: Id): (r: Option<nat>)
    ensures r.Some? ==> r.value < |students| && students[r.value].id == id
    ensures r.None? <==> !HasStudent(students, id)
  {
    if students == [] then None
    else if students[0].id == id then Some(0)
    else match FindStudent(students[1..], id)
      case None => None
      case Some(k) => Some(k + 1)
  }

  /** `findOne({ where: { id } })` on the action log. */
  function FindAction(actions: seq<ActionLog>, id: Id): (r: Option<nat>)
    ensures r.Some? ==> r.value < |actions| && actions[r.value].id == id
    ensures r.Some? ==> forall j :: 0 <= j < r.value ==> actions[j].id != id
    ensures r.None? <==> forall i :: 0 <= i < |actions| ==> actions[i].id != id
  {
    if actions == [] then None
    else if actions[0].id == id then Some(0)
    else match FindAction(actions[1..], id)
      case None => None
      case Some(k) => Some(k + 1)
  }

  const ACTION_NOT_FOUND := "Action not found"
  const ALREADY_UNDONE := "Action already undone"
  const NOTHING_TO_UNDO := "Nothing to undo"

  /** The checks both undo endpoints make before touching anything, in this
      order: the entry exists, it has the endpoint's type, it is not undone.
      On success the answer is the entry's position. */
  function UndoGuard(actions: seq<ActionLog>, actionId: Id, expected: ActionType, wrongType: string): (r: Result<nat>)
    ensures r.Ok? ==> (r.value < |actions| && actions[r.value].id == actionId
                       && actions[r.value].actionType == expected && !actions[r.value].undone)
    ensures r.Err? ==> r.status in {400, 404}
    ensures r.Err? && r.status == 404 <==> forall i :: 0 <= i < |actions| ==> actions[i].id != actionId
    ensures r == Err(400, ALREADY_UNDONE) && wrongType != ALREADY_UNDONE
      ==> exists i :: 0 <= i < |actions| && actions[i].id == actionId && actions[i].undone
    ensures var f := FindAction(actions, actionId);
      r.Ok? <==> f.Some? && actions[f.value].actionType == expected && !actions[f.value].undone
    ensures r.Ok? ==> FindAction(actions, actionId) == Some(r.value)
    ensures var f := FindAction(actions, actionId);
      f.Some? && actions[f.value].actionType != expected ==> r == Err(400, wrongType)
    ensures var f := FindAction(actions, actionId);
      f.Some? && actions[f.value].actionType == expected && actions[f.value].undone ==> r == Err(400, ALREADY_UNDONE)
  {
    match FindAction(actions, actionId)
    case None => Err(404, ACTION_NOT_FOUND)
    case Some(k) =>
      if actions[k].actionType != expected then Err(400, wrongType)
      else if actions[k].undone then Err(400, ALREADY_UNDONE)
      else Ok(200, k)
  }

  /** Marking an entry undone makes its guard fail from then on. */
  lemma UndoneEntryRejected(actions: seq<ActionLog>, k: nat, expected: ActionType, wrongType: string)
    requires k < |actions| && FindAction(actions, actions[k].id) == Some(k)
    requires actions[k].actionType == expected
    ensures var a := actions[k := actions[k].(undone := true)];
      UndoGuard(a, actions[k].id, expected, wrongType) == Err(400, ALREADY_UNDONE)
  {
    var a := actions[k := actions[k].(undone := true)];
    assert FindAction(a, actions[k].id) == Some(k) by {
      assert a[k].id == actions[k].id;
      assert forall j :: 0 <= j < k ==> a[j] == actions[j];
    }
  }

  /** The database, updated in place by the handlers. */
  class Db {
    var students: seq<Student>
    var attendance: seq<AttendanceRow>
    var actions: seq<ActionLog>
    var nextId: nat

    function Abs(): State
      reads this
    {
      State(students, attendance, actions, nextId)
    }

    ghost predicate Valid()
      reads this
    {
      Keyed(Abs())
    }

    constructor ()
      ensures Valid() && Abs() == State([], [], [], 0)
    {
      students, attendance, actions, nextId := [], [], [], 0;
    }
  }
}
