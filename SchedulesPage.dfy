/**
 * The doctor-schedules page (src/pages/DoctorSchedulesPage.tsx):
 * `fetchSchedules` reads the available doctors, their profiles and all
 * schedule rows, and joins them into one entry per doctor with the
 * doctor's schedules; failures end in an error message.
 */
module SchedulesPage {
  import opened Common
  import opened ScheduleReport

  /** `doctors.select('id, user_id').eq('available', true)`. */
  datatype DoctorRow = DoctorRow(id: string, userId: string)

  /** `profiles.select('id, full_name, email')`. */
  datatype ProfileRow = ProfileRow(id: string, fullName: Option<string>, email: Option<string>)

  /** A row of `doctor_schedules`. */
  datatype ScheduleRow = ScheduleRow(doctorId: string, dayOfWeek: int, startTime: string, endTime: string, isAvailable: bool)

  /** `new Map(profiles.map(p => [p.id, p]))`: a later profile with the same id replaces an earlier one. */
  function ProfileMap(profiles: seq<ProfileRow>): map<string, ProfileRow>
  {
    if profiles == [] then map[]
    else
      var p := profiles[|profiles| - 1];
      ProfileMap(profiles[..|profiles| - 1])[p.id := p]
  }

  function EntryOf(s: ScheduleRow): ScheduleEntry
  {
    ScheduleEntry(DayLabel(s.dayOfWeek), s.startTime, s.endTime, s.isAvailable)
  }

  /** `schedules.filter(s => s.doctor_id === id).map(...)`. */
  function SchedulesOf(schedules: seq<ScheduleRow>, id: string): seq<ScheduleEntry>
  {
    if schedules == [] then []
    else
      var s := schedules[|schedules| - 1];
      SchedulesOf(schedules[..|schedules| - 1], id) + (if s.doctorId == id then [EntryOf(s)] else [])
  }

  /** The entry of one doctor: name and email from its profile, when there is one. */
  function Joined(d: DoctorRow, profiles: map<string, ProfileRow>, schedules: seq<ScheduleRow>): DoctorGroup
  {
    var profile := if d.userId in profiles then Some(profiles[d.userId]) else None;
    DoctorGroup(
      d.id,
      if profile.Some? then OrElse(profile.value.fullName, "Unknown") else "Unknown",
      if profile.Some? then OrElse(profile.value.email, "No email") else "No email",
      SchedulesOf(schedules, d.id))
  }

  /** `doctorsData.map(doctor => ...)`: one entry per doctor row, in the doctors' order. */
  function Combine(doctors: seq<DoctorRow>, profiles: map<string, ProfileRow>, schedules: seq<ScheduleRow>): (r: seq<DoctorGroup>)
    ensures |r| == |doctors|
    ensures forall k :: 0 <= k < |doctors| ==> r[k] == Joined(doctors[k], profiles, schedules)
  {
    if doctors == [] then [] else [Joined(doctors[0], profiles, schedules)] + Combine(doctors[1..], profiles, schedules)
  }

  /** How a fetch ends: with the joined list, or with an error message. */
  datatype Outcome = Loaded(groups: seq<DoctorGroup>) | LoadFailed(message: string)

  /** `err.message || 'Failed to load schedules'`. */
  function FailureMessage(message: string): string
  {
    if message != "" then message else "Failed to load schedules"
  }

  /**
   * The sequence of fetchSchedules: a doctors error throws; no doctors
   * ends with the empty list before any other query; then a profiles
   * error throws, then a schedules error throws; otherwise the join.
   */
  function FetchOutcome(doctors: Query<DoctorRow>, profiles: Query<ProfileRow>, schedules: Query<ScheduleRow>): Outcome
  {
    if doctors.QueryError? then LoadFailed(FailureMessage(doctors.message))
    else if doctors.data.None? || doctors.data.value == [] then Loaded([])
    else if profiles.QueryError? then LoadFailed(FailureMessage(profiles.message))
    else if schedules.QueryError? then LoadFailed(FailureMessage(schedules.message))
    else
      var profileMap := if profiles.data.Some? then ProfileMap(profiles.data.value) else map[];
      var scheduleRows := if schedules.data.Some? then schedules.data.value else [];
      Loaded(Combine(doctors.data.value, profileMap, scheduleRows))
  }

  /** The page's state: the joined list, the loading flag and the error text. */
  class DoctorSchedulesPage {
    var schedules: seq<DoctorGroup>
    var loading: bool
    var error: string

    /** `useState([])`, `useState(true)`, `useState('')`. */
    constructor()
      ensures schedules == [] && loading && error == ""
    {
      schedules := [];
      loading := true;
      error := "";
    }

    /**
     * fetchSchedules with the three query answers passed in. The list is
     * replaced only when the fetch succeeds; a failure keeps the old list
     * and sets the error; loading is off at the end either way.
     */
    method FetchSchedules(doctors: Query<DoctorRow>, profiles: Query<ProfileRow>, scheduleRows: Query<ScheduleRow>)
      modifies this
      ensures !loading
      ensures FetchOutcome(doctors, profiles, scheduleRows).Loaded? ==>
        schedules == FetchOutcome(doctors, profiles, scheduleRows).groups && error == ""
      ensures FetchOutcome(doctors, profiles, scheduleRows).LoadFailed? ==>
        schedules == old(schedules) && error == FetchOutcome(doctors, profiles, scheduleRows).message
    {
      loading := true;
      error := "";
      if doctors.QueryError? {
        error := FailureMessage(doctors.message);
        loading := false;
        return;
      }
      if doctors.data.None? || |doctors.data.value| == 0 {
        schedules := [];
        loading := false;
        return;
      }
      if profiles.QueryError? {
        error := FailureMessage(profiles.message);
        loading := false;
        return;
      }
      var profileMap := if profiles.data.Some? then ProfileMap(profiles.data.value) else map[];
      if scheduleRows.QueryError? {
        error := FailureMessage(scheduleRows.message);
        loading := false;
        return;
      }
      var rows := if scheduleRows.data.Some? then scheduleRows.data.value else [];
      schedules := Combine(doctors.data.value, profileMap, rows);
      loading := false;
    }
  }

  // ---------------------------------------------------------------------
  // Properties
  // ---------------------------------------------------------------------

  /** No available doctors gives the empty list, whatever the other queries answer. */
  lemma NoDoctorsNoEntries(data: Option<seq<DoctorRow>>, profiles: Query<ProfileRow>, schedules: Query<ScheduleRow>)
    requires data.None? || data.value == []
    ensures FetchOutcome(QueryData(data), profiles, schedules) == Loaded([])
  {
  }

  /** A failure message is never empty: an empty error message falls back to the default. */
  lemma FailureMessageNonEmpty(doctors: Query<DoctorRow>, profiles: Query<ProfileRow>, schedules: Query<ScheduleRow>)
    ensures FetchOutcome(doctors, profiles, schedules).LoadFailed? ==> FetchOutcome(doctors, profiles, schedules).message != ""
    ensures doctors.QueryError? ==> FetchOutcome(doctors, profiles, schedules).LoadFailed?
  {
  }

  /**
   * The joined list has one entry per doctor row, in order, carrying the
   * doctor's id; a doctor without a profile reads 'Unknown' / 'No email'.
   */
  lemma CombineShape(doctors: seq<DoctorRow>, profiles: map<string, ProfileRow>, schedules: seq<ScheduleRow>)
    ensures |Combine(doctors, profiles, schedules)| == |doctors|
    ensures forall k :: 0 <= k < |doctors| ==> Combine(doctors, profiles, schedules)[k].id == doctors[k].id
    ensures forall k :: 0 <= k < |doctors| && doctors[k].userId !in profiles ==>
      Combine(doctors, profiles, schedules)[k].name == "Unknown" &&
      Combine(doctors, profiles, schedules)[k].email == "No email"
  {
  }

  /** A doctor's schedules are exactly the entries of the schedule rows carrying its id. */
  lemma {:induction false} SchedulesOfSound(schedules: seq<ScheduleRow>, id: string)
    ensures forall e :: e in SchedulesOf(schedules, id) ==>
      exists k :: 0 <= k < |schedules| && schedules[k].doctorId == id && e == EntryOf(schedules[k])
  {
    if schedules != [] {
      var init := schedules[..|schedules| - 1];
      SchedulesOfSound(init, id);
      forall e | e in SchedulesOf(schedules, id)
        ensures exists k :: 0 <= k < |schedules| && schedules[k].doctorId == id && e == EntryOf(schedules[k])
      {
        if e in SchedulesOf(init, id) {
          var k :| 0 <= k < |init| && init[k].doctorId == id && e == EntryOf(init[k]);
          assert schedules[k] == init[k];
        } else {
          assert schedules[|schedules| - 1].doctorId == id;
        }
      }
    }
  }

  lemma {:induction false} SchedulesOfComplete(schedules: seq<ScheduleRow>, id: string)
    ensures forall k :: 0 <= k < |schedules| && schedules[k].doctorId == id ==> EntryOf(schedules[k]) in SchedulesOf(schedules, id)
  {
    if schedules != [] {
      var init := schedules[..|schedules| - 1];
      SchedulesOfComplete(init, id);
      forall k | 0 <= k < |init| ensures schedules[k] == init[k] {
      }
    }
  }

  /**
   * The selection distributes over concatenation, so a doctor's entries
   * keep the order of the schedule rows as the query returned them.
   */
  lemma {:induction false} SchedulesOfAppend(xs: seq<ScheduleRow>, ys: seq<ScheduleRow>, id: string)
    ensures SchedulesOf(xs + ys, id) == SchedulesOf(xs, id) + SchedulesOf(ys, id)
    decreases |ys|
  {
    if ys == [] {
      assert xs + ys == xs;
    } else {
      SchedulesOfAppend(xs, ys[..|ys| - 1], id);
      assert (xs + ys)[..|xs + ys| - 1] == xs + ys[..|ys| - 1] && (xs + ys)[|xs + ys| - 1] == ys[|ys| - 1];
    }
  }

  /** One row gives its entry exactly when it carries the doctor's id. */
  lemma SchedulesOfOne(row: ScheduleRow, id: string)
    ensures SchedulesOf([row], id) == if row.doctorId == id then [EntryOf(row)] else []
  {
    assert [row][..0] == [];
  }

  /** The number of schedule rows carrying the id. */
  function CountFor(schedules: seq<ScheduleRow>, id: string): nat
  {
    if schedules == [] then 0
    else CountFor(schedules[..|schedules| - 1], id) + (if schedules[|schedules| - 1].doctorId == id then 1 else 0)
  }

  /** One entry per matching schedule row, no more. */
  lemma {:induction false} SchedulesOfLength(schedules: seq<ScheduleRow>, id: string)
    ensures |SchedulesOf(schedules, id)| == CountFor(schedules, id)
  {
    if schedules != [] {
      SchedulesOfLength(schedules[..|schedules| - 1], id);
    }
  }

  /**
   * The profile map holds exactly the ids of the profiles, and for each
   * id the last profile carrying it.
   */
  lemma {:induction false} ProfileMapLastWins(profiles: seq<ProfileRow>, k: nat)
    requires k < |profiles|
    requires forall j :: k < j < |profiles| ==> profiles[j].id != profiles[k].id
    ensures profiles[k].id in ProfileMap(profiles) && ProfileMap(profiles)[profiles[k].id] == profiles[k]
  {
    var n := |profiles|;
    if k < n - 1 {
      var init := profiles[..n - 1];
      assert init[k] == profiles[k];
      ProfileMapLastWins(init, k);
    }
  }

  lemma {:induction false} ProfileMapKeys(profiles: seq<ProfileRow>, id: string)
    ensures id in ProfileMap(profiles) <==> exists k :: 0 <= k < |profiles| && profiles[k].id == id
  {
    if profiles != [] {
      var n := |profiles|;
      var init := profiles[..n - 1];
      ProfileMapKeys(init, id);
      if exists k :: 0 <= k < n && profiles[k].id == id {
        var k :| 0 <= k < n && profiles[k].id == id;
        if k < n - 1 {
          assert init[k] == profiles[k];
        }
      }
      if exists k :: 0 <= k < |init| && init[k].id == id {
        var k :| 0 <= k < |init| && init[k].id == id;
        assert profiles[k] == init[k];
      }
    }
  }
}
