/**
 * The schedule report of src/utils/checkDoctorSchedules.ts: the flat rows
 * of the `get_doctor_schedules_with_details` call are grouped per doctor,
 * in order of first appearance, with the day index of each schedule row
 * rendered as a weekday name; the report also carries two totals.
 */
module ScheduleReport {
  import opened Common

  const WeekdayNames: seq<string> :=
    ["Sunday", "Monday", "Tuesday", "Wednesday", "Thursday", "Friday", "Saturday"]

  /**
   * `[...names][day] || `Day ${day}``: indices 0..6 name a weekday, any
   * other index reads undefined and falls back to "Day N".
   */
  function DayLabel(day: int): string
  {
    if 0 <= day < 7 then WeekdayNames[day] else "Day " + IntToString(day)
  }

  /** One row of the details call: a doctor joined with (possibly) one schedule row. */
  datatype DetailRow = DetailRow(
    doctorId: string,
    doctorName: Option<string>,
    doctorEmail: Option<string>,
    scheduleId: Option<string>,
    dayOfWeek: int,
    startTime: string,
    endTime: string,
    isAvailable: bool)

  /** A schedule entry of the report (the shape DoctorSchedulesPage.tsx shares). */
  datatype ScheduleEntry = ScheduleEntry(day: string, startTime: string, endTime: string, isAvailable: bool)

  /** A doctor with its schedule entries. */
  datatype DoctorGroup = DoctorGroup(id: string, name: string, email: string, schedules: seq<ScheduleEntry>)

  /** What a thrown value is: an Error with a message, or anything else. */
  datatype Thrown = ErrorValue(message: string) | OtherValue

  /** The answer of the details call: the error it reported, or its (nullable) data. */
  datatype RpcOutcome = RpcError(thrown: Thrown) | RpcData(data: Option<seq<DetailRow>>)

  /**
   * The object the function resolves to. The empty and failure answers
   * also carry an empty `schedules` list, which is left implicit here.
   */
  datatype Report =
    | NoSchedules(message: string)
    | Summary(totalDoctors: nat, totalSchedules: nat, doctors: seq<DoctorGroup>)
    | Failure(error: string)

  function Entry(r: DetailRow): ScheduleEntry
  {
    ScheduleEntry(DayLabel(r.dayOfWeek), r.startTime, r.endTime, r.isAvailable)
  }

  /** A row contributes a schedule entry when its schedule_id is truthy. */
  predicate Scheduled(r: DetailRow)
  {
    Truthy(r.scheduleId)
  }

  // ---------------------------------------------------------------------
  // The grouping, as functions of the rows
  // ---------------------------------------------------------------------

  /** The distinct doctor ids in the order the Map first sees them. */
  function DistinctIds(rows: seq<DetailRow>): seq<string>
  {
    if rows == [] then []
    else
      var ids := DistinctIds(rows[..|rows| - 1]);
      var id := rows[|rows| - 1].doctorId;
      if id in ids then ids else ids + [id]
  }

  /** The index of the first row of the doctor, |rows| when there is none. */
  function FirstIndex(rows: seq<DetailRow>, id: string): (r: nat)
    ensures r <= |rows|
    ensures r < |rows| ==> rows[r].doctorId == id
    ensures forall k :: 0 <= k < r ==> rows[k].doctorId != id
  {
    if rows == [] then 0
    else if rows[0].doctorId == id then 0
    else 1 + FirstIndex(rows[1..], id)
  }

  /** The entries of the doctor's scheduled rows, in row order. */
  function Entries(rows: seq<DetailRow>, id: string): seq<ScheduleEntry>
  {
    if rows == [] then []
    else
      var r := rows[|rows| - 1];
      Entries(rows[..|rows| - 1], id) + (if r.doctorId == id && Scheduled(r) then [Entry(r)] else [])
  }

  /** The group of a doctor: name and email from its first row, with fallbacks, and its entries. */
  function GroupOf(rows: seq<DetailRow>, id: string): DoctorGroup
  {
    var f := FirstIndex(rows, id);
    var name := if f < |rows| then OrElse(rows[f].doctorName, "Unknown") else "Unknown";
    var email := if f < |rows| then OrElse(rows[f].doctorEmail, "No email") else "No email";
    DoctorGroup(id, name, email, Entries(rows, id))
  }

  function GroupsOf(rows: seq<DetailRow>, ids: seq<string>): (r: seq<DoctorGroup>)
    ensures |r| == |ids|
    ensures forall k :: 0 <= k < |ids| ==> r[k] == GroupOf(rows, ids[k])
  {
    if ids == [] then [] else [GroupOf(rows, ids[0])] + GroupsOf(rows, ids[1..])
  }

  /** `Array.from(doctorsMap.values())`. */
  function Groups(rows: seq<DetailRow>): seq<DoctorGroup>
  {
    GroupsOf(rows, DistinctIds(rows))
  }

  /** `data.reduce((acc, curr) => curr.schedule_id ? acc + 1 : acc, 0)`. */
  function CountScheduled(rows: seq<DetailRow>): nat
  {
    if rows == [] then 0
    else CountScheduled(rows[..|rows| - 1]) + (if Scheduled(rows[|rows| - 1]) then 1 else 0)
  }

  /** What checkDoctorSchedules resolves to for a given answer of the details call. */
  function ReportOf(outcome: RpcOutcome): Report
  {
    match outcome
    case RpcError(thrown) =>
      Failure(if thrown.ErrorValue? then thrown.message else "Unknown error")
    case RpcData(data) =>
      if data.None? || |data.value| == 0 then NoSchedules("No doctor schedules found in the database")
      else
        var groups := Groups(data.value);
        Summary(|groups|, CountScheduled(data.value), groups)
  }

  // ---------------------------------------------------------------------
  // The function body
  // ---------------------------------------------------------------------

  /**
   * checkDoctorSchedules with the answer of the details call passed in:
   * the forEach fills a Map keyed by doctor id (with its insertion order
   * kept in `order`), and the groups are then read out in that order.
   */
  method CheckDoctorSchedules(outcome: RpcOutcome) returns (report: Report)
    ensures report == ReportOf(outcome)
  {
    if outcome.RpcError? {
      var message := if outcome.thrown.ErrorValue? then outcome.thrown.message else "Unknown error";
      return Failure(message);
    }
    if outcome.data.None? || |outcome.data.value| == 0 {
      return NoSchedules("No doctor schedules found in the database");
    }
    var rows := outcome.data.value;
    var order, doctorsMap := GroupRows(rows);
    var doctors := ReadOut(order, doctorsMap);
    ReadOutGroups(rows, order, doctorsMap, doctors);
    report := Summary(|doctors|, CountScheduled(rows), doctors);
  }

  /** The forEach of lines 17-35: fills the Map, keeping its insertion order. */
  method GroupRows(rows: seq<DetailRow>) returns (order: seq<string>, doctorsMap: map<string, DoctorGroup>)
    ensures Grouped(rows, order, doctorsMap)
  {
    order, doctorsMap := [], map[];
    var i := 0;
    while i < |rows|
      invariant 0 <= i <= |rows|
      invariant Grouped(rows[..i], order, doctorsMap)
    {
      var item := rows[i];
      assert rows[..i + 1] == rows[..i] + [item];
      var order', doctorsMap' := order, doctorsMap;
      if item.doctorId !in doctorsMap {
        var created := DoctorGroup(item.doctorId, OrElse(item.doctorName, "Unknown"),
                                   OrElse(item.doctorEmail, "No email"), []);
        doctorsMap' := doctorsMap[item.doctorId := created];
        order' := order + [item.doctorId];
      }
      if Scheduled(item) {
        var g := doctorsMap'[item.doctorId];
        doctorsMap' := doctorsMap'[item.doctorId := g.(schedules := g.schedules + [Entry(item)])];
      }
      GroupedStep(rows[..i], item, order, doctorsMap, order', doctorsMap');
      order, doctorsMap := order', doctorsMap';
      i := i + 1;
    }
    assert rows[..i] == rows;
  }

  /** `Array.from(doctorsMap.values())`: the Map's values in insertion order. */
  method ReadOut(order: seq<string>, doctorsMap: map<string, DoctorGroup>) returns (doctors: seq<DoctorGroup>)
    requires forall id :: id in order ==> id in doctorsMap
    ensures |doctors| == |order|
    ensures forall j :: 0 <= j < |order| ==> doctors[j] == doctorsMap[order[j]]
  {
    doctors := [];
    var k := 0;
    while k < |order|
      invariant 0 <= k <= |order|
      invariant |doctors| == k
      invariant forall j :: 0 <= j < k ==> doctors[j] == doctorsMap[order[j]]
    {
      doctors := doctors + [doctorsMap[order[k]]];
      k := k + 1;
    }
  }

  /** Read out in insertion order, the Map of the forEach gives the groups of the rows. */
  lemma ReadOutGroups(rows: seq<DetailRow>, order: seq<string>, doctorsMap: map<string, DoctorGroup>,
                      doctors: seq<DoctorGroup>)
    requires Grouped(rows, order, doctorsMap)
    requires |doctors| == |order|
    requires forall j :: 0 <= j < |order| ==> doctors[j] == doctorsMap[order[j]]
    ensures doctors == Groups(rows)
  {
    var groups := Groups(rows);
    forall j | 0 <= j < |order| ensures doctors[j] == groups[j] {
      assert order[j] in order;
    }
  }

  /**
   * The state of the forEach after the rows seen so far: the Map's
   * insertion order is the distinct ids, and each id maps to its group.
   */
  ghost predicate Grouped(rows: seq<DetailRow>, order: seq<string>, doctorsMap: map<string, DoctorGroup>)
  {
    order == DistinctIds(rows) &&
    (forall id :: id in doctorsMap <==> id in order) &&
    (forall id :: id in doctorsMap ==> doctorsMap[id] == GroupOf(rows, id))
  }

  /** One iteration of the forEach keeps the Map equal to the grouping of the rows seen. */
  lemma GroupedStep(rows: seq<DetailRow>, item: DetailRow,
                    order: seq<string>, doctorsMap: map<string, DoctorGroup>,
                    order': seq<string>, doctorsMap': map<string, DoctorGroup>)
    requires Grouped(rows, order, doctorsMap)
    requires var created := DoctorGroup(item.doctorId, OrElse(item.doctorName, "Unknown"),
                                        OrElse(item.doctorEmail, "No email"), []);
      var added := if item.doctorId in doctorsMap then doctorsMap else doctorsMap[item.doctorId := created];
      order' == (if item.doctorId in doctorsMap then order else order + [item.doctorId]) &&
      doctorsMap' == (if Scheduled(item)
        then added[item.doctorId := added[item.doctorId].(schedules := added[item.doctorId].schedules + [Entry(item)])]
        else added)
    ensures Grouped(rows + [item], order', doctorsMap')
  {
    GroupAppend(rows, item);
    var all := rows + [item];
    forall id | id in doctorsMap' ensures doctorsMap'[id] == GroupOf(all, id) {
      if id != item.doctorId {
        assert doctorsMap'[id] == doctorsMap[id];
      }
    }
  }

  /** How one more row changes the ids, the first rows and the entries of every doctor. */
  lemma GroupAppend(rows: seq<DetailRow>, r: DetailRow)
    ensures DistinctIds(rows + [r]) == if r.doctorId in DistinctIds(rows) then DistinctIds(rows) else DistinctIds(rows) + [r.doctorId]
    ensures forall id :: id != r.doctorId ==> GroupOf(rows + [r], id) == GroupOf(rows, id)
    ensures r.doctorId in DistinctIds(rows) ==>
      GroupOf(rows + [r], r.doctorId) == GroupOf(rows, r.doctorId).(schedules :=
        GroupOf(rows, r.doctorId).schedules + (if Scheduled(r) then [Entry(r)] else []))
    ensures r.doctorId !in DistinctIds(rows) ==>
      GroupOf(rows + [r], r.doctorId) == DoctorGroup(r.doctorId, OrElse(r.doctorName, "Unknown"),
        OrElse(r.doctorEmail, "No email"), if Scheduled(r) then [Entry(r)] else [])
  {
    var all := rows + [r];
    assert all[..|all| - 1] == rows;
    forall id | id != r.doctorId ensures GroupOf(all, id) == GroupOf(rows, id) {
      FirstIndexAppend(rows, r, id);
    }
    FirstIndexAppend(rows, r, r.doctorId);
    DistinctIdsMembership(rows, r.doctorId);
    if r.doctorId !in DistinctIds(rows) {
      EntriesAbsent(rows, r.doctorId);
    }
  }

  lemma {:induction false} FirstIndexAppend(rows: seq<DetailRow>, r: DetailRow, id: string)
    ensures FirstIndex(rows, id) < |rows| ==> FirstIndex(rows + [r], id) == FirstIndex(rows, id)
    ensures FirstIndex(rows, id) == |rows| && r.doctorId == id ==> FirstIndex(rows + [r], id) == |rows|
    ensures FirstIndex(rows, id) == |rows| && r.doctorId != id ==> FirstIndex(rows + [r], id) == |rows| + 1
  {
    var f := FirstIndex(rows, id);
    var all := rows + [r];
    if f < |rows| {
      FirstIndexUnique(all, id, f);
    } else if r.doctorId == id {
      FirstIndexUnique(all, id, |rows|);
    } else {
      FirstIndexUnique(all, id, |all|);
    }
  }

  /** The first index is the only index with its two defining properties. */
  lemma {:induction false} FirstIndexUnique(rows: seq<DetailRow>, id: string, f: nat)
    requires f <= |rows|
    requires f < |rows| ==> rows[f].doctorId == id
    requires forall k :: 0 <= k < f ==> rows[k].doctorId != id
    ensures FirstIndex(rows, id) == f
  {
    if rows != [] && f > 0 {
      assert rows[0].doctorId != id;
      FirstIndexUnique(rows[1..], id, f - 1);
    }
  }

  /** A doctor id is listed exactly when some row carries it. */
  lemma {:induction false} DistinctIdsMembership(rows: seq<DetailRow>, id: string)
    ensures id in DistinctIds(rows) <==> FirstIndex(rows, id) < |rows|
  {
    if rows != [] {
      var init := rows[..|rows| - 1];
      DistinctIdsMembership(init, id);
      FirstIndexAppend(init, rows[|rows| - 1], id);
      assert init + [rows[|rows| - 1]] == rows;
    }
  }

  /** A doctor without rows has no entries. */
  lemma {:induction false} EntriesAbsent(rows: seq<DetailRow>, id: string)
    requires id !in DistinctIds(rows)
    ensures Entries(rows, id) == []
  {
    if rows != [] {
      var init := rows[..|rows| - 1];
      var ids := DistinctIds(init);
      assert id in ids ==> id in DistinctIds(rows);
      EntriesAbsent(init, id);
    }
  }

  // ---------------------------------------------------------------------
  // Properties
  // ---------------------------------------------------------------------

  /** The listed ids are exactly the ids of the rows. */
  lemma DistinctIdsCover(rows: seq<DetailRow>)
    ensures forall k :: 0 <= k < |rows| ==> rows[k].doctorId in DistinctIds(rows)
    ensures forall id :: id in DistinctIds(rows) ==> FirstIndex(rows, id) < |rows|
  {
    forall id | id in DistinctIds(rows) ensures FirstIndex(rows, id) < |rows| {
      DistinctIdsMembership(rows, id);
    }
    forall k | 0 <= k < |rows| ensures rows[k].doctorId in DistinctIds(rows) {
      DistinctIdsMembership(rows, rows[k].doctorId);
    }
  }

  /** There is exactly one group per doctor id: the listed ids are pairwise different. */
  lemma {:induction false} DistinctIdsUnique(rows: seq<DetailRow>)
    ensures forall i, j :: 0 <= i < j < |DistinctIds(rows)| ==> DistinctIds(rows)[i] != DistinctIds(rows)[j]
  {
    if rows != [] {
      DistinctIdsUnique(rows[..|rows| - 1]);
    }
  }

  /** The groups come in order of the doctors' first rows. */
  lemma {:induction false} DistinctIdsOrder(rows: seq<DetailRow>)
    ensures forall i, j :: 0 <= i < j < |DistinctIds(rows)| ==>
      FirstIndex(rows, DistinctIds(rows)[i]) < FirstIndex(rows, DistinctIds(rows)[j])
  {
    if rows != [] {
      var init := rows[..|rows| - 1];
      var r := rows[|rows| - 1];
      var ids := DistinctIds(init);
      DistinctIdsOrder(init);
      assert init + [r] == rows;
      forall id | id in ids ensures FirstIndex(rows, id) == FirstIndex(init, id) < |init| {
        DistinctIdsMembership(init, id);
        FirstIndexAppend(init, r, id);
      }
      if r.doctorId !in ids {
        FirstIndexAppend(init, r, r.doctorId);
        DistinctIdsMembership(init, r.doctorId);
        var all := DistinctIds(rows);
        assert all == ids + [r.doctorId];
        forall i, j | 0 <= i < j < |all| ensures FirstIndex(rows, all[i]) < FirstIndex(rows, all[j]) {
          assert all[i] == ids[i] && all[i] in ids;
          if j < |ids| {
            assert all[j] == ids[j] && all[j] in ids;
          }
        }
      }
    }
  }

  /** Every scheduled row of a doctor contributes its entry to the doctor's entries. */
  lemma {:induction false} EntriesComplete(rows: seq<DetailRow>, id: string)
    ensures forall k :: 0 <= k < |rows| && rows[k].doctorId == id && Scheduled(rows[k]) ==>
      Entry(rows[k]) in Entries(rows, id)
  {
    if rows != [] {
      var init := rows[..|rows| - 1];
      EntriesComplete(init, id);
      forall k | 0 <= k < |init| ensures rows[k] == init[k] {
      }
    }
  }

  /** Every entry of a doctor comes from one of its scheduled rows. */
  lemma {:induction false} EntriesSound(rows: seq<DetailRow>, id: string)
    ensures forall e :: e in Entries(rows, id) ==>
      exists k :: 0 <= k < |rows| && rows[k].doctorId == id && Scheduled(rows[k]) && e == Entry(rows[k])
  {
    if rows != [] {
      var init := rows[..|rows| - 1];
      EntriesSound(init, id);
      forall e | e in Entries(rows, id)
        ensures exists k :: 0 <= k < |rows| && rows[k].doctorId == id && Scheduled(rows[k]) && e == Entry(rows[k])
      {
        if e in Entries(init, id) {
          var k :| 0 <= k < |init| && init[k].doctorId == id && Scheduled(init[k]) && e == Entry(init[k]);
          assert rows[k] == init[k];
        } else {
          assert rows[|rows| - 1].doctorId == id && Scheduled(rows[|rows| - 1]);
        }
      }
    }
  }

  /** The number of schedule entries over a list of groups. */
  function SumSchedules(groups: seq<DoctorGroup>): nat
  {
    if groups == [] then 0 else |groups[0].schedules| + SumSchedules(groups[1..])
  }

  /**
   * The totals agree with the groups: totalDoctors is the number of
   * groups, and totalSchedules (the count of rows with a schedule id) is
   * the sum of the groups' schedule lengths.
   */
  lemma SummaryTotals(rows: seq<DetailRow>)
    requires rows != []
    ensures ReportOf(RpcData(Some(rows))).totalDoctors == |ReportOf(RpcData(Some(rows))).doctors|
    ensures ReportOf(RpcData(Some(rows))).totalSchedules == SumSchedules(ReportOf(RpcData(Some(rows))).doctors)
  {
    CountIsSum(rows);
  }

  lemma {:induction false} CountIsSum(rows: seq<DetailRow>)
    ensures CountScheduled(rows) == SumSchedules(Groups(rows))
  {
    if rows != [] {
      var init := rows[..|rows| - 1];
      var r := rows[|rows| - 1];
      var ids := DistinctIds(init);
      assert init + [r] == rows;
      CountIsSum(init);
      GroupAppend(init, r);
      DistinctIdsUnique(init);
      SumStep(init, r, ids);
      if r.doctorId !in ids {
        GroupsOfSplit(rows, ids, [r.doctorId]);
        SumSplit(GroupsOf(rows, ids), GroupsOf(rows, [r.doctorId]));
      }
    }
  }

  /** Adding one row adds one entry to exactly the group of its doctor, when it is scheduled and listed. */
  lemma {:induction false} SumStep(rows: seq<DetailRow>, r: DetailRow, ids: seq<string>)
    requires forall i, j :: 0 <= i < j < |ids| ==> ids[i] != ids[j]
    ensures SumSchedules(GroupsOf(rows + [r], ids)) ==
      SumSchedules(GroupsOf(rows, ids)) + (if r.doctorId in ids && Scheduled(r) then 1 else 0)
  {
    if ids != [] {
      SumStep(rows, r, ids[1..]);
      GroupAppend(rows, r);
      assert r.doctorId in ids <==> r.doctorId == ids[0] || r.doctorId in ids[1..];
      if r.doctorId == ids[0] {
        assert r.doctorId !in ids[1..];
      }
    }
  }

  lemma {:induction false} GroupsOfSplit(rows: seq<DetailRow>, a: seq<string>, b: seq<string>)
    ensures GroupsOf(rows, a + b) == GroupsOf(rows, a) + GroupsOf(rows, b)
  {
  }

  lemma {:induction false} SumSplit(a: seq<DoctorGroup>, b: seq<DoctorGroup>)
    ensures SumSchedules(a + b) == SumSchedules(a) + SumSchedules(b)
  {
    if a != [] {
      SumSplit(a[1..], b);
      assert (a + b)[1..] == a[1..] + b;
    } else {
      assert a + b == b;
    }
  }

  /** A label starts with 'D' exactly when it is a "Day N" fallback. */
  lemma DayLabelHead(day: int)
    ensures |DayLabel(day)| >= 4
    ensures DayLabel(day)[0] == 'D' <==> !(0 <= day < 7)
  {
  }

  /** Different day indices get different labels. */
  lemma DayLabelInjective(a: int, b: int)
    requires DayLabel(a) == DayLabel(b)
    ensures a == b
  {
    DayLabelHead(a);
    DayLabelHead(b);
    if !(0 <= a < 7) && !(0 <= b < 7) {
      assert IntToString(a) == DayLabel(a)[4..];
      assert IntToString(b) == DayLabel(b)[4..];
      IntToStringInjective(a, b);
    }
  }

  /** The rendering of an integer starts with '-' exactly for negative numbers. */
  lemma IntToStringHead(n: int)
    ensures |IntToString(n)| >= 1
    ensures IntToString(n)[0] == '-' <==> n < 0
  {
    if n < 0 {
      NatToStringDigits(-n);
    } else {
      NatToStringDigits(n);
      assert IsDigit(NatToString(n)[0]);
    }
  }

  /** Different integers render differently. */
  lemma IntToStringInjective(a: int, b: int)
    requires IntToString(a) == IntToString(b)
    ensures a == b
  {
    IntToStringHead(a);
    IntToStringHead(b);
    if a < 0 && b < 0 {
      NegativeRendering(a);
      NegativeRendering(b);
      NatToStringInjective(-a, -b);
    } else if a >= 0 && b >= 0 {
      NatToStringInjective(a, b);
    }
  }

  lemma NegativeRendering(n: int)
    requires n < 0
    ensures IntToString(n)[1..] == NatToString(-n)
  {
  }

  /** Null or empty data gives the "not found" message; a thrown value gives an error report. */
  lemma ReportCases(outcome: RpcOutcome)
    ensures outcome.RpcData? && (outcome.data.None? || outcome.data.value == []) ==>
      ReportOf(outcome) == NoSchedules("No doctor schedules found in the database")
    ensures outcome.RpcError? ==> ReportOf(outcome).Failure?
    ensures outcome.RpcError? && outcome.thrown.OtherValue? ==> ReportOf(outcome).error == "Unknown error"
    ensures outcome.RpcData? && outcome.data.Some? && outcome.data.value != [] ==>
      ReportOf(outcome).Summary? && |ReportOf(outcome).doctors| >= 1
  {
    if outcome.RpcData? && outcome.data.Some? && outcome.data.value != [] {
      DistinctIdsCover(outcome.data.value);
    }
  }
}
