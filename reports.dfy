/** The read-only reports: attendance per date over a range, students and
    today's attendance per level and per hall, students per gender, and
    attendance per month. */
module Reports {
  import opened Wrappers
  import opened Text
  import opened Counting
  import opened Sorting
  import opened Entities
  import opened Store

  // ------------------------------------------------------ attendance report

  const DATES_REQUIRED := "Start date and end date are required"

  function DateOf(row: AttendanceRow): string {
    row.date
  }

  /** `attendance.date BETWEEN :startDate AND :endDate` */
  function Between(start: string, end: string): AttendanceRow -> bool {
    (row: AttendanceRow) => StrLe(start, row.date) && StrLe(row.date, end)
  }

  /** The query of `getAttendanceReport`: the rows in the range, by ascending date. */
  function RowsBetween(rows: seq<AttendanceRow>, start: string, end: string): (r: seq<AttendanceRow>)
    ensures SortedBy(r, DateOf)
    ensures multiset(r) == multiset(Filter(rows, Between(start, end)))
  {
    SortBy(Filter(rows, Between(start, end)), DateOf)
  }

  datatype DateStats = DateStats(date: string, present: nat, absent: nat, attendanceRate: nat)

  function DateIs(date: string): DateStats -> bool {
    (g: DateStats) => g.date == date
  }

  /** One row counted into its date's group; the rate is recomputed. */
  function Tick(g: DateStats, row: AttendanceRow, totalStudents: nat): DateStats {
    var h := if row.isPresent then g.(present := g.present + 1) else g.(absent := g.absent + 1);
    h.(attendanceRate := Rate(h.present, totalStudents))
  }

  /** One step of the `reduce`: the group of the row's date is created on
      first sight and updated. */
  function Bump(groups: seq<DateStats>, row: AttendanceRow, totalStudents: nat): seq<DateStats> {
    match FirstIndex(groups, DateIs(row.date))
    case None => groups + [Tick(DateStats(row.date, 0, 0, 0), row, totalStudents)]
    case Some(k) => groups[k := Tick(groups[k], row, totalStudents)]
  }

  /** `Object.values(attendanceData.reduce(...))`: groups in first-seen order. */
  function Tally(rows: seq<AttendanceRow>, totalStudents: nat): seq<DateStats>
    decreases |rows|
  {
    if rows == [] then []
    else Bump(Tally(rows[..|rows| - 1], totalStudents), rows[|rows| - 1], totalStudents)
  }

  predicate PresentOn(date: string, row: AttendanceRow) {
    row.date == date && row.isPresent
  }

  predicate AbsentOn(date: string, row: AttendanceRow) {
    row.date == date && !row.isPresent
  }

  function PresentTest(date: string): AttendanceRow -> bool {
    (row: AttendanceRow) => PresentOn(date, row)
  }

  function AbsentTest(date: string): AttendanceRow -> bool {
    (row: AttendanceRow) => AbsentOn(date, row)
  }

  function OnDate(date: string): AttendanceRow -> bool {
    (row: AttendanceRow) => row.date == date
  }

  /** Some row carries `date`. */
  predicate Dated(rows: seq<AttendanceRow>, date: string) {
    exists k :: 0 <= k < |rows| && rows[k].date == date
  }

  /** Some group is for `date`. */
  predicate Grouped(groups: seq<DateStats>, date: string) {
    exists i :: 0 <= i < |groups| && groups[i].date == date
  }

  /** A group's numbers: its present and absent counts and its rate. */
  predicate Counted(rows: seq<AttendanceRow>, g: DateStats, totalStudents: nat) {
    && g.present == Count(rows, PresentTest(g.date))
    && g.absent == Count(rows, AbsentTest(g.date))
    && g.attendanceRate == Rate(g.present, totalStudents)
  }

  predicate DistinctDates(groups: seq<DateStats>) {
    forall i, j :: 0 <= i < j < |groups| ==> groups[i].date != groups[j].date
  }

  /** What one step does: the row's group is ticked, or created at the end
      when its date is new; the other groups stay. */
  lemma BumpEffect(g0: seq<DateStats>, row: AttendanceRow, totalStudents: nat)
    requires DistinctDates(g0)
    ensures var g := Bump(g0, row, totalStudents);
      && DistinctDates(g)
      && |g0| <= |g| <= |g0| + 1
      && (|g| == |g0| + 1 <==> !Grouped(g0, row.date))
      && (forall i :: 0 <= i < |g0| ==>
            g[i] == if g0[i].date == row.date then Tick(g0[i], row, totalStudents) else g0[i])
      && (|g| > |g0| ==> g[|g0|] == Tick(DateStats(row.date, 0, 0, 0), row, totalStudents))
  {
    match FirstIndex(g0, DateIs(row.date))
    case None =>
    case Some(k) =>
      assert Grouped(g0, row.date);
  }

  /** Every group comes from a row. */
  predicate AllDated(rows: seq<AttendanceRow>, groups: seq<DateStats>) {
    forall i :: 0 <= i < |groups| ==> Dated(rows, groups[i].date)
  }

  /** Every row has its group. */
  predicate AllGrouped(rows: seq<AttendanceRow>, groups: seq<DateStats>) {
    forall k :: 0 <= k < |rows| ==> Grouped(groups, rows[k].date)
  }

  /** Every group holds its date's counts. */
  predicate AllCounted(rows: seq<AttendanceRow>, groups: seq<DateStats>, totalStudents: nat) {
    forall i :: 0 <= i < |groups| ==> Counted(rows, groups[i], totalStudents)
  }

  lemma BumpShape(init: seq<AttendanceRow>, row: AttendanceRow, g0: seq<DateStats>, totalStudents: nat)
    requires DistinctDates(g0) && AllDated(init, g0) && AllGrouped(init, g0)
    ensures var g := Bump(g0, row, totalStudents);
      DistinctDates(g) && AllDated(init + [row], g) && AllGrouped(init + [row], g)
  {
    var rows := init + [row];
    var g := Bump(g0, row, totalStudents);
    BumpEffect(g0, row, totalStudents);
    forall i | 0 <= i < |g| ensures Dated(rows, g[i].date) {
      if i < |g0| {
        var k :| 0 <= k < |init| && init[k].date == g0[i].date;
        assert rows[k].date == g[i].date;
      } else {
        assert rows[|init|].date == g[i].date;
      }
    }
    forall k | 0 <= k < |rows| ensures Grouped(g, rows[k].date) {
      if k < |init| {
        var i :| 0 <= i < |g0| && g0[i].date == init[k].date;
        assert g[i].date == rows[k].date;
      } else if Grouped(g0, row.date) {
        var i :| 0 <= i < |g0| && g0[i].date == row.date;
        assert g[i].date == row.date;
      } else {
        assert g[|g0|].date == row.date;
      }
    }
  }

  lemma BumpCounts(init: seq<AttendanceRow>, row: AttendanceRow, g0: seq<DateStats>, totalStudents: nat)
    requires DistinctDates(g0) && AllGrouped(init, g0) && AllCounted(init, g0, totalStudents)
    ensures AllCounted(init + [row], Bump(g0, row, totalStudents), totalStudents)
  {
    var g := Bump(g0, row, totalStudents);
    BumpEffect(g0, row, totalStudents);
    forall i | 0 <= i < |g| ensures Counted(init + [row], g[i], totalStudents) {
      CountSnoc(init, row, PresentTest(g[i].date));
      CountSnoc(init, row, AbsentTest(g[i].date));
      if i == |g0| {
        forall k | 0 <= k < |init| ensures !PresentTest(row.date)(init[k]) && !AbsentTest(row.date)(init[k]) {
          assert Grouped(g0, init[k].date);
        }
        CountNone(init, PresentTest(row.date));
        CountNone(init, AbsentTest(row.date));
      }
    }
  }

  /** One group per date that occurs, none for any other date, and each
      group holds the present and absent counts of its date's rows and the
      rate of its present count. */
  lemma {:induction false} TallyCounts(rows: seq<AttendanceRow>, totalStudents: nat)
    ensures var g := Tally(rows, totalStudents);
      && DistinctDates(g) && AllDated(rows, g) && AllGrouped(rows, g)
      && AllCounted(rows, g, totalStudents)
    decreases |rows|
  {
    if rows != [] {
      var n := |rows| - 1;
      assert rows == rows[..n] + [rows[n]];
      TallyCounts(rows[..n], totalStudents);
      BumpShape(rows[..n], rows[n], Tally(rows[..n], totalStudents), totalStudents);
      BumpCounts(rows[..n], rows[n], Tally(rows[..n], totalStudents), totalStudents);
    }
  }

  /** Present and absent together count every row of the date. */
  lemma PresentPlusAbsent(rows: seq<AttendanceRow>, date: string)
    ensures Count(rows, PresentTest(date)) + Count(rows, AbsentTest(date)) == Count(rows, OnDate(date))
  {
    CountDisjoint(rows, PresentTest(date), AbsentTest(date), OnDate(date));
  }

  /** The dates of the groups strictly increase. */
  predicate Ascending(groups: seq<DateStats>) {
    forall i, j :: 0 <= i < j < |groups| ==> StrLe(groups[i].date, groups[j].date) && groups[i].date != groups[j].date
  }

  /** A row dated no earlier than every group keeps the groups ascending. */
  lemma BumpAscending(init: seq<AttendanceRow>, row: AttendanceRow, g0: seq<DateStats>, totalStudents: nat)
    requires DistinctDates(g0) && Ascending(g0) && AllDated(init, g0)
    requires forall k :: 0 <= k < |init| ==> StrLe(init[k].date, row.date)
    ensures Ascending(Bump(g0, row, totalStudents))
  {
    var g := Bump(g0, row, totalStudents);
    BumpEffect(g0, row, totalStudents);
    forall i | 0 <= i < |g0| ensures StrLe(g0[i].date, row.date) {
      var k :| 0 <= k < |init| && init[k].date == g0[i].date;
    }
    assert forall i :: 0 <= i < |g0| ==> g[i].date == g0[i].date;
  }

  /** Rows in date order give groups in strictly increasing date order. */
  lemma {:induction false} TallyAscending(rows: seq<AttendanceRow>, totalStudents: nat)
    requires SortedBy(rows, DateOf)
    ensures Ascending(Tally(rows, totalStudents))
    decreases |rows|
  {
    if rows != [] {
      var n := |rows| - 1;
      var init := rows[..n];
      assert SortedBy(init, DateOf);
      TallyAscending(init, totalStudents);
      TallyCounts(init, totalStudents);
      assert forall k :: 0 <= k < |init| ==> StrLe(DateOf(rows[k]), DateOf(rows[n]));
      BumpAscending(init, rows[n], Tally(init, totalStudents), totalStudents);
    }
  }

  /** `getAttendanceReport` over the store. */
  function AttendanceReport(s: State, startDate: Option<string>, endDate: Option<string>): (r: Result<seq<DateStats>>)
    ensures r.Err? <==> !Truthy(startDate) || !Truthy(endDate)
    ensures r.Err? ==> r == Err(400, DATES_REQUIRED)
    ensures r.Ok? ==> r.status == 200 && Ascending(r.value)
  {
    if !Truthy(startDate) || !Truthy(endDate) then Err(400, DATES_REQUIRED)
    else
      var rows := RowsBetween(s.attendance, startDate.value, endDate.value);
      TallyAscending(rows, |s.students|);
      Ok(200, Tally(rows, |s.students|))
  }

  /** Each group of the report counts the fetched rows of its date: present
      plus absent is their number, and the rate is rounded against the
      number of students. */
  lemma AttendanceReportCounts(s: State, startDate: string, endDate: string, i: nat)
    requires startDate != "" && endDate != ""
    requires i < |AttendanceReport(s, Some(startDate), Some(endDate)).value|
    ensures var g := AttendanceReport(s, Some(startDate), Some(endDate)).value[i];
      var rows := RowsBetween(s.attendance, startDate, endDate);
      && g.present + g.absent == Count(rows, OnDate(g.date)) > 0
      && g.attendanceRate == Rate(g.present, |s.students|)
  {
    var rows := RowsBetween(s.attendance, startDate, endDate);
    TallyCounts(rows, |s.students|);
    var g := Tally(rows, |s.students|)[i];
    PresentPlusAbsent(rows, g.date);
    var k :| 0 <= k < |rows| && rows[k].date == g.date;
    CountPositive(rows, OnDate(g.date), k);
  }

  // ------------------------------------------------- level and hall reports

  /** The ids present today: the `studentId` of every row dated `today` that
      is marked present (visitor rows contribute `None`). */
  function PresentToday(attendance: seq<AttendanceRow>, today: string): set<Option<Id>> {
    set k | 0 <= k < |attendance| && attendance[k].date == today && attendance[k].isPresent :: attendance[k].studentId
  }

  function IsPresentIn(present: set<Option<Id>>): Student -> bool {
    (st: Student) => Some(st.id) in present
  }

  /** One line of the level or hall report; `key` is the level or the hall. */
  datatype GroupStats = GroupStats(key: string, totalStudents: nat, presentToday: nat, attendanceRate: nat)

  function GroupKey(g: GroupStats): string {
    g.key
  }

  function GroupTotal(g: GroupStats): nat {
    g.totalStudents
  }

  /** The line for the students whose `group` is `key`. */
  function GroupEntry(students: seq<Student>, present: set<Option<Id>>, group: Student -> string, key: string): GroupStats {
    var members := Filter(students, KeyIs(group, key));
    var presentCount := Count(members, IsPresentIn(present));
    GroupStats(key, |members|, presentCount, Rate(presentCount, |members|))
  }

  /** `Object.entries(groups).map(...)`, one line per key in first-seen order. */
  function GroupEntries(students: seq<Student>, present: set<Option<Id>>, group: Student -> string, keys: seq<string>): seq<GroupStats> {
    if keys == [] then [] else [GroupEntry(students, present, group, keys[0])] + GroupEntries(students, present, group, keys[1..])
  }

  /** The report grouped by `group` and sorted by its key. */
  function GroupReport(students: seq<Student>, attendance: seq<AttendanceRow>, today: string, group: Student -> string): (r: seq<GroupStats>)
    ensures SortedBy(r, GroupKey)
    ensures multiset(r) == multiset(GroupEntries(students, PresentToday(attendance, today), group, Keys(students, group)))
  {
    SortBy(GroupEntries(students, PresentToday(attendance, today), group, Keys(students, group)), GroupKey)
  }

  /** `getLevelReport`, for the rows dated `today`. */
  function LevelReport(s: State, today: string): seq<GroupStats> {
    GroupReport(s.students, s.attendance, today, LevelOf)
  }

  /** `getHallReport`, for the rows dated `today`. */
  function HallReport(s: State, today: string): seq<GroupStats> {
    GroupReport(s.students, s.attendance, today, HallOf)
  }

  lemma {:induction false} GroupEntriesAt(students: seq<Student>, present: set<Option<Id>>, group: Student -> string, keys: seq<string>, i: nat)
    requires i < |keys|
    ensures |GroupEntries(students, present, group, keys)| == |keys|
    ensures GroupEntries(students, present, group, keys)[i] == GroupEntry(students, present, group, keys[i])
  {
    if i > 0 {
      GroupEntriesAt(students, present, group, keys[1..], i - 1);
    } else if |keys| > 1 {
      GroupEntriesAt(students, present, group, keys[1..], 0);
    }
  }

  lemma {:induction false} GroupEntriesTotal(students: seq<Student>, present: set<Option<Id>>, group: Student -> string, keys: seq<string>)
    ensures Sum(GroupEntries(students, present, group, keys), GroupTotal) == SumCounts(students, group, keys)
  {
    if keys != [] {
      GroupEntriesTotal(students, present, group, keys[1..]);
      var e := GroupEntries(students, present, group, keys);
      assert e[1..] == GroupEntries(students, present, group, keys[1..]);
    }
  }

  /** A line built from some keys is the line of its own key, one of them. */
  lemma {:induction false} EntryOfKeys(students: seq<Student>, present: set<Option<Id>>, group: Student -> string, keys: seq<string>, g: GroupStats)
    requires g in GroupEntries(students, present, group, keys)
    ensures g == GroupEntry(students, present, group, g.key)
    ensures g.key in keys
  {
    if g != GroupEntry(students, present, group, keys[0]) {
      EntryOfKeys(students, present, group, keys[1..], g);
    }
  }

  /** The line of a key some student has. */
  lemma EntryFacts(students: seq<Student>, present: set<Option<Id>>, group: Student -> string, key: string, j: nat)
    requires j < |students| && group(students[j]) == key
    ensures var g := GroupEntry(students, present, group, key);
      && 0 < g.totalStudents
      && g.presentToday <= g.totalStudents
      && g.attendanceRate <= 100
  {
    var g := GroupEntry(students, present, group, key);
    CountPositive(students, KeyIs(group, key), j);
    RateBounded(g.presentToday, g.totalStudents);
  }

  /** Each line of the report describes a non-empty group: its size is the
      number of students with its key, those present today are among them,
      and the rate is their rounded share, at most 100. */
  lemma GroupReportLine(students: seq<Student>, attendance: seq<AttendanceRow>, today: string, group: Student -> string, i: nat)
    requires i < |GroupReport(students, attendance, today, group)|
    ensures var g := GroupReport(students, attendance, today, group)[i];
      var members := Filter(students, KeyIs(group, g.key));
      && 0 < g.totalStudents == |members|
      && g.presentToday == Count(members, IsPresentIn(PresentToday(attendance, today)))
      && g.presentToday <= g.totalStudents
      && g.attendanceRate == Rate(g.presentToday, g.totalStudents) <= 100
  {
    var present := PresentToday(attendance, today);
    var keys := Keys(students, group);
    var g := GroupReport(students, attendance, today, group)[i];
    assert g in multiset(GroupEntries(students, present, group, keys));
    EntryOfKeys(students, present, group, keys, g);
    var k :| 0 <= k < |keys| && keys[k] == g.key;
    var j :| 0 <= j < |students| && group(students[j]) == keys[k];
    EntryFacts(students, present, group, g.key, j);
  }

  /** The lines of distinct keys have distinct keys. */
  lemma EntriesDistinct(students: seq<Student>, present: set<Option<Id>>, group: Student -> string, keys: seq<string>)
    requires Distinct(keys)
    ensures DistinctBy(GroupEntries(students, present, group, keys), GroupKey)
  {
    var e := GroupEntries(students, present, group, keys);
    forall k | 0 <= k < |keys| ensures |e| == |keys| && e[k].key == keys[k] {
      GroupEntriesAt(students, present, group, keys, k);
    }
  }

  /** The lines partition the students: one line per key that occurs, no key
      twice, and the group sizes add up to the number of students. */
  lemma GroupReportPartition(students: seq<Student>, attendance: seq<AttendanceRow>, today: string, group: Student -> string)
    ensures var r := GroupReport(students, attendance, today, group);
      && DistinctBy(r, GroupKey)
      && Sum(r, GroupTotal) == |students|
      && (forall j :: 0 <= j < |students| ==> exists i :: 0 <= i < |r| && r[i].key == group(students[j]))
  {
    var present := PresentToday(attendance, today);
    var keys := Keys(students, group);
    var e := GroupEntries(students, present, group, keys);
    var r := GroupReport(students, attendance, today, group);
    EntriesDistinct(students, present, group, keys);
    DistinctByPermutation(e, r, GroupKey);
    GroupEntriesTotal(students, present, group, keys);
    KeyCountsSumToTotal(students, group);
    SumPermutation(e, r, GroupTotal);
    forall j | 0 <= j < |students| ensures exists i :: 0 <= i < |r| && r[i].key == group(students[j]) {
      var k :| 0 <= k < |keys| && keys[k] == group(students[j]);
      GroupEntriesAt(students, present, group, keys, k);
      assert e[k] in multiset(r);
      var i :| 0 <= i < |r| && r[i] == e[k];
    }
  }

  // --------------------------------------------------------- gender report

  datatype GenderCount = GenderCount(gender: string, count: nat, percentage: nat)

  function CountOf(g: GenderCount): nat {
    g.count
  }

  function GenderKey(g: GenderCount): string {
    g.gender
  }

  /** One line per gender in first-seen order; the share is against `total`. */
  function GenderEntries(students: seq<Student>, keys: seq<string>, total: nat): seq<GenderCount> {
    if keys == [] then []
    else
      var count := Count(students, KeyIs(GenderOf, keys[0]));
      [GenderCount(keys[0], count, Rate(count, total))] + GenderEntries(students, keys[1..], total)
  }

  /** `getGenderReport` */
  function GenderReport(s: State): seq<GenderCount> {
    GenderEntries(s.students, Keys(s.students, GenderOf), |s.students|)
  }

  lemma {:induction false} GenderEntriesAt(students: seq<Student>, keys: seq<string>, total: nat, i: nat)
    requires i < |keys|
    ensures var e := GenderEntries(students, keys, total);
      && |e| == |keys|
      && e[i].gender == keys[i]
      && e[i].count == Count(students, KeyIs(GenderOf, keys[i]))
      && e[i].percentage == Rate(e[i].count, total)
  {
    if i > 0 {
      GenderEntriesAt(students, keys[1..], total, i - 1);
    } else if |keys| > 1 {
      GenderEntriesAt(students, keys[1..], total, 0);
    }
  }

  lemma {:induction false} GenderEntriesTotal(students: seq<Student>, keys: seq<string>, total: nat)
    ensures Sum(GenderEntries(students, keys, total), CountOf) == SumCounts(students, GenderOf, keys)
  {
    if keys != [] {
      GenderEntriesTotal(students, keys[1..], total);
    }
  }

  /** The line of the `i`th gender that occurs. */
  lemma GenderLine(students: seq<Student>, i: nat)
    requires i < |Keys(students, GenderOf)|
    ensures var keys := Keys(students, GenderOf);
      var e := GenderEntries(students, keys, |students|);
      && |e| == |keys|
      && e[i].gender == keys[i]
      && 0 < e[i].count == Count(students, KeyIs(GenderOf, keys[i]))
      && e[i].percentage == Rate(e[i].count, |students|) <= 100
  {
    var keys := Keys(students, GenderOf);
    var j :| 0 <= j < |students| && GenderOf(students[j]) == keys[i];
    GenderEntriesAt(students, keys, |students|, i);
    CountPositive(students, KeyIs(GenderOf, keys[i]), j);
    RateBounded(Count(students, KeyIs(GenderOf, keys[i])), |students|);
  }

  /** Each gender that occurs has one line with a positive count and its
      rounded share of all students. */
  lemma GenderReportLines(s: State)
    ensures var r := GenderReport(s);
      && |r| == |Keys(s.students, GenderOf)|
      && (forall i :: 0 <= i < |r| ==>
            && r[i].gender == Keys(s.students, GenderOf)[i]
            && 0 < r[i].count == Count(s.students, KeyIs(GenderOf, r[i].gender))
            && r[i].percentage == Rate(r[i].count, |s.students|) <= 100)
  {
    var keys := Keys(s.students, GenderOf);
    var r := GenderReport(s);
    if keys == [] {
      assert r == [];
    }
    forall i | 0 <= i < |keys|
      ensures |r| == |keys| && r[i].gender == keys[i]
      ensures 0 < r[i].count == Count(s.students, KeyIs(GenderOf, r[i].gender))
      ensures r[i].percentage == Rate(r[i].count, |s.students|) <= 100
    {
      GenderLine(s.students, i);
    }
  }

  /** The genders partition the students: no gender twice, every student's
      gender listed, and the counts add up to the number of students. */
  lemma GenderReportPartition(s: State)
    ensures var r := GenderReport(s);
      && DistinctBy(r, GenderKey)
      && Sum(r, CountOf) == |s.students|
      && (forall j :: 0 <= j < |s.students| ==> HasLine(r, s.students[j].gender))
  {
    var keys := Keys(s.students, GenderOf);
    GenderReportLines(s);
    GenderEntriesTotal(s.students, keys, |s.students|);
    KeyCountsSumToTotal(s.students, GenderOf);
    GendersListed(s);
  }

  /** Some line of the report is about gender `g`. */
  predicate HasLine(r: seq<GenderCount>, g: string) {
    exists i :: 0 <= i < |r| && r[i].gender == g
  }

  /** Every student's gender has a line. */
  lemma GendersListed(s: State)
    ensures forall j :: 0 <= j < |s.students| ==> HasLine(GenderReport(s), s.students[j].gender)
  {
    forall j | 0 <= j < |s.students| ensures HasLine(GenderReport(s), s.students[j].gender) {
      GenderHasLine(s.students, j);
    }
  }

  lemma GenderHasLine(students: seq<Student>, j: nat)
    requires j < |students|
    ensures HasLine(GenderEntries(students, Keys(students, GenderOf), |students|), students[j].gender)
  {
    var keys := Keys(students, GenderOf);
    var i :| 0 <= i < |keys| && keys[i] == GenderOf(students[j]);
    GenderEntriesAt(students, keys, |students|, i);
    assert GenderEntries(students, keys, |students|)[i].gender == students[j].gender;
  }

  // -------------------------------------------------------- monthly trends

  /** A calendar month: its printed name and its first and last day. */
  datatype Month = Month(name: string, first: string, last: string)

  datatype MonthStats = MonthStats(month: string, totalAttendance: nat, averageRate: nat)

  function IsPresentRow(row: AttendanceRow): bool {
    row.isPresent
  }

  /** One month of the trend: the rows dated within it and the rounded share
      of them marked present. */
  function MonthEntry(attendance: seq<AttendanceRow>, m: Month): MonthStats {
    var rows := Filter(attendance, Between(m.first, m.last));
    MonthStats(m.name, |rows|, Rate(Count(rows, IsPresentRow), |rows|))
  }

  /** `getMonthlyTrends` over the given months. */
  function MonthlyTrends(s: State, months: seq<Month>): (r: seq<MonthStats>)
    ensures |r| == |months|
  {
    seq(|months|, i requires 0 <= i < |months| => MonthEntry(s.attendance, months[i]))
  }

  /** A month without rows has rate 0; otherwise the rate is the rounded
      share of its rows marked present, at most 100, and exactly 100 when
      every row is present. */
  lemma MonthlyTrendsRate(s: State, months: seq<Month>, i: nat)
    requires i < |months|
    ensures var t := MonthlyTrends(s, months)[i];
      var rows := Filter(s.attendance, Between(months[i].first, months[i].last));
      && t.month == months[i].name
      && t.totalAttendance == Count(s.attendance, Between(months[i].first, months[i].last))
      && (t.totalAttendance == 0 ==> t.averageRate == 0)
      && t.averageRate == Rate(Count(rows, IsPresentRow), t.totalAttendance) <= 100
      && (t.totalAttendance > 0 && (forall k :: 0 <= k < |rows| ==> rows[k].isPresent) ==> t.averageRate == 100)
  {
    var rows := Filter(s.attendance, Between(months[i].first, months[i].last));
    RateBounded(Count(rows, IsPresentRow), |rows|);
    if |rows| > 0 && forall k :: 0 <= k < |rows| ==> rows[k].isPresent {
      CountAll(rows, IsPresentRow);
      RateOfWhole(|rows|);
    }
  }
}
