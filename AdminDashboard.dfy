/**
 * The list logic of the admin dashboard (src/pages/AdminDashboard.tsx):
 * the doctor options of the filter bar, the triple filter of the
 * appointment table, today's and per-status counts, the online revenue
 * total, the date-range filter and CSV serialisation of the reports, the
 * guards of the specialty and admin forms, the local status update and
 * the campaign toggle.
 *
 * Instants are integer milliseconds on the same local time axis as the
 * slot computation; a report date "YYYY-MM-DD" is given by its day number.
 */
module AdminDashboard {
  import opened Common
  import Slots

  /** The fields of an appointment row of the admin table that the logic reads. */
  datatype AdminAppointment = AdminAppointment(id: string, doctor: string, kind: string, status: string, scheduledAt: int)

  // ---------------------------------------------------------------------
  // doctorFilterOptions
  // ---------------------------------------------------------------------

  function DoctorNames(appointments: seq<AdminAppointment>): (r: seq<string>)
    ensures |r| == |appointments|
    ensures forall k :: 0 <= k < |r| ==> r[k] == appointments[k].doctor
  {
    if appointments == [] then []
    else DoctorNames(appointments[..|appointments| - 1]) + [appointments[|appointments| - 1].doctor]
  }

  /** `.filter(Boolean)` on names: the non-empty ones. */
  function NonEmpty(names: seq<string>): seq<string>
  {
    if names == [] then []
    else NonEmpty(names[..|names| - 1]) + (if names[|names| - 1] != "" then [names[|names| - 1]] else [])
  }

  /** `Array.from(new Set(names))`: each name once, at its first appearance. */
  function Distinct(names: seq<string>): seq<string>
  {
    if names == [] then []
    else
      var r := Distinct(names[..|names| - 1]);
      if names[|names| - 1] in r then r else r + [names[|names| - 1]]
  }

  /** `.filter(n => n && n !== "—")`. */
  function WithoutPlaceholder(names: seq<string>): seq<string>
  {
    if names == [] then []
    else
      var n := names[|names| - 1];
      WithoutPlaceholder(names[..|names| - 1]) + (if n != "" && n != "—" then [n] else [])
  }

  /** The doctor options of the filter bar. */
  function DoctorFilterOptions(appointments: seq<AdminAppointment>): seq<string>
  {
    WithoutPlaceholder(Distinct(NonEmpty(DoctorNames(appointments))))
  }

  /** A name shown as an option: non-empty and not the placeholder for a missing doctor. */
  predicate Listed(name: string)
  {
    name != "" && name != "—"
  }

  /** Reference definition: one pass keeping the first appearance of every listed name. */
  function ListedOnce(names: seq<string>): seq<string>
  {
    if names == [] then []
    else
      var r := ListedOnce(names[..|names| - 1]);
      var n := names[|names| - 1];
      if Listed(n) && n !in r then r + [n] else r
  }

  /** The index of the first appearance of a name, |names| when it does not appear. */
  function FirstOf(names: seq<string>, name: string): (r: nat)
    ensures r <= |names|
    ensures r < |names| ==> names[r] == name
    ensures forall k :: 0 <= k < r ==> names[k] != name
  {
    if names == [] then 0
    else if names[0] == name then 0
    else 1 + FirstOf(names[1..], name)
  }

  lemma {:induction false} NonEmptyMembership(names: seq<string>, n: string)
    ensures n in NonEmpty(names) <==> n in names && n != ""
  {
    if names != [] {
      NonEmptyMembership(names[..|names| - 1], n);
      assert names == names[..|names| - 1] + [names[|names| - 1]];
    }
  }

  lemma {:induction false} DistinctMembership(names: seq<string>, n: string)
    ensures n in Distinct(names) <==> n in names
  {
    if names != [] {
      DistinctMembership(names[..|names| - 1], n);
      assert names == names[..|names| - 1] + [names[|names| - 1]];
    }
  }

  lemma {:induction false} ListedOnceMembership(names: seq<string>, n: string)
    ensures n in ListedOnce(names) <==> n in names && Listed(n)
  {
    if names != [] {
      ListedOnceMembership(names[..|names| - 1], n);
      assert names == names[..|names| - 1] + [names[|names| - 1]];
    }
  }

  /** The three-step pipeline of the source computes the one-pass reference definition. */
  lemma {:induction false} PipelineIsListedOnce(names: seq<string>)
    ensures WithoutPlaceholder(Distinct(NonEmpty(names))) == ListedOnce(names)
  {
    if names != [] {
      var init := names[..|names| - 1];
      var n := names[|names| - 1];
      PipelineIsListedOnce(init);
      var ne := NonEmpty(init);
      var d := Distinct(ne);
      if n == "" {
        assert NonEmpty(names) == ne;
      } else {
        assert NonEmpty(names) == ne + [n];
        assert (ne + [n])[..|ne|] == ne;
        NonEmptyMembership(init, n);
        DistinctMembership(ne, n);
        ListedOnceMembership(init, n);
        if n in d {
          assert Distinct(ne + [n]) == d;
        } else {
          assert Distinct(ne + [n]) == d + [n];
          assert (d + [n])[..|d|] == d;
        }
      }
    }
  }

  /** An option appears once at most. */
  lemma {:induction false} ListedOnceUnique(names: seq<string>)
    ensures forall i, j :: 0 <= i < j < |ListedOnce(names)| ==> ListedOnce(names)[i] != ListedOnce(names)[j]
  {
    if names != [] {
      ListedOnceUnique(names[..|names| - 1]);
    }
  }

  lemma {:induction false} FirstOfAppend(names: seq<string>, n: string, name: string)
    ensures name in names ==> FirstOf(names + [n], name) == FirstOf(names, name)
    ensures name !in names && n == name ==> FirstOf(names + [n], name) == |names|
  {
    var all := names + [n];
    if name in names {
      FirstOfUnique(all, name, FirstOf(names, name));
    } else if n == name {
      FirstOfUnique(all, name, |names|);
    }
  }

  /** The first index is the only index with its two defining properties. */
  lemma {:induction false} FirstOfUnique(names: seq<string>, name: string, f: nat)
    requires f <= |names|
    requires f < |names| ==> names[f] == name
    requires forall k :: 0 <= k < f ==> names[k] != name
    ensures FirstOf(names, name) == f
  {
    if names != [] && f > 0 {
      FirstOfUnique(names[1..], name, f - 1);
    }
  }

  /** Options come in the order of their first appearance among the names. */
  lemma {:induction false} ListedOnceOrder(names: seq<string>)
    ensures forall i, j :: 0 <= i < j < |ListedOnce(names)| ==>
      FirstOf(names, ListedOnce(names)[i]) < FirstOf(names, ListedOnce(names)[j])
  {
    if names != [] {
      var init := names[..|names| - 1];
      var n := names[|names| - 1];
      var r := ListedOnce(init);
      ListedOnceOrder(init);
      assert init + [n] == names;
      forall m | m in r ensures FirstOf(names, m) == FirstOf(init, m) < |init| {
        ListedOnceMembership(init, m);
        FirstOfAppend(init, n, m);
      }
      if Listed(n) && n !in r {
        ListedOnceMembership(init, n);
        FirstOfAppend(init, n, n);
        var all := ListedOnce(names);
        assert all == r + [n];
        forall i, j | 0 <= i < j < |all| ensures FirstOf(names, all[i]) < FirstOf(names, all[j]) {
          assert all[i] == r[i] && all[i] in r;
          if j < |r| {
            assert all[j] == r[j] && all[j] in r;
          }
        }
      }
    }
  }

  /**
   * The options are the listed doctor names of the appointments, each
   * once, in order of first appearance.
   */
  lemma DoctorFilterOptionsSpec(appointments: seq<AdminAppointment>)
    ensures var names := DoctorNames(appointments);
      var r := DoctorFilterOptions(appointments);
      (forall n :: n in r <==> n in names && Listed(n)) &&
      (forall i, j :: 0 <= i < j < |r| ==> r[i] != r[j]) &&
      (forall i, j :: 0 <= i < j < |r| ==> FirstOf(names, r[i]) < FirstOf(names, r[j]))
  {
    var names := DoctorNames(appointments);
    PipelineIsListedOnce(names);
    forall n ensures n in ListedOnce(names) <==> n in names && Listed(n) {
      ListedOnceMembership(names, n);
    }
    ListedOnceUnique(names);
    ListedOnceOrder(names);
  }

  // ---------------------------------------------------------------------
  // filteredAppointments
  // ---------------------------------------------------------------------

  /** One filter of the bar: "all" is the wildcard, anything else must match exactly. */
  predicate Accepts(filter: string, value: string)
  {
    filter == "all" || value == filter
  }

  predicate Shown(a: AdminAppointment, filterDoctor: string, filterType: string, filterStatus: string)
  {
    Accepts(filterDoctor, a.doctor) && Accepts(filterType, a.kind) && Accepts(filterStatus, a.status)
  }

  function FilteredAppointments(appointments: seq<AdminAppointment>, filterDoctor: string, filterType: string, filterStatus: string): seq<AdminAppointment>
  {
    if appointments == [] then []
    else
      var a := appointments[|appointments| - 1];
      FilteredAppointments(appointments[..|appointments| - 1], filterDoctor, filterType, filterStatus) +
        (if Shown(a, filterDoctor, filterType, filterStatus) then [a] else [])
  }

  /** The table shows exactly the appointments that pass all three filters. */
  lemma {:induction false} FilteredMembership(appointments: seq<AdminAppointment>, filterDoctor: string, filterType: string, filterStatus: string)
    ensures forall a :: a in FilteredAppointments(appointments, filterDoctor, filterType, filterStatus) <==>
      a in appointments && Shown(a, filterDoctor, filterType, filterStatus)
  {
    if appointments != [] {
      FilteredMembership(appointments[..|appointments| - 1], filterDoctor, filterType, filterStatus);
      assert appointments == appointments[..|appointments| - 1] + [appointments[|appointments| - 1]];
    }
  }

  /** Filtering keeps the order: the filter of a concatenation is the concatenation of the filters. */
  lemma {:induction false} FilteredAppend(xs: seq<AdminAppointment>, ys: seq<AdminAppointment>, filterDoctor: string, filterType: string, filterStatus: string)
    ensures FilteredAppointments(xs + ys, filterDoctor, filterType, filterStatus) ==
      FilteredAppointments(xs, filterDoctor, filterType, filterStatus) + FilteredAppointments(ys, filterDoctor, filterType, filterStatus)
  {
    if ys != [] {
      var init := ys[..|ys| - 1];
      FilteredAppend(xs, init, filterDoctor, filterType, filterStatus);
      assert (xs + ys)[..|xs + ys| - 1] == xs + init && (xs + ys)[|xs + ys| - 1] == ys[|ys| - 1];
    } else {
      assert xs + ys == xs;
    }
  }

  /** With every filter at "all" the table is the whole list. */
  lemma {:induction false} FilteredAllIsIdentity(appointments: seq<AdminAppointment>)
    ensures FilteredAppointments(appointments, "all", "all", "all") == appointments
  {
    if appointments != [] {
      FilteredAllIsIdentity(appointments[..|appointments| - 1]);
      assert appointments == appointments[..|appointments| - 1] + [appointments[|appointments| - 1]];
    }
  }

  // ---------------------------------------------------------------------
  // Counts
  // ---------------------------------------------------------------------

  /** Same local calendar date as now (year, month and day all equal). */
  predicate Today(a: AdminAppointment, now: int)
  {
    Slots.DayOf(a.scheduledAt) == Slots.DayOf(now)
  }

  /** `appointments.filter(a => a.status === status).length`. */
  function CountStatus(appointments: seq<AdminAppointment>, status: string): nat
  {
    if appointments == [] then 0
    else CountStatus(appointments[1..], status) + (if appointments[0].status == status then 1 else 0)
  }

  /** todayAppointmentsCount. */
  function CountToday(appointments: seq<AdminAppointment>, now: int): nat
  {
    if appointments == [] then 0
    else CountToday(appointments[1..], now) + (if Today(appointments[0], now) then 1 else 0)
  }

  /** confirmedTodayCount and completedTodayCount. */
  function CountStatusToday(appointments: seq<AdminAppointment>, status: string, now: int): nat
  {
    if appointments == [] then 0
    else CountStatusToday(appointments[1..], status, now) + (if appointments[0].status == status && Today(appointments[0], now) then 1 else 0)
  }

  /** The appointments whose status is none of the four known ones. */
  function CountOther(appointments: seq<AdminAppointment>): nat
  {
    if appointments == [] then 0
    else
      var s := appointments[0].status;
      CountOther(appointments[1..]) + (if s != "pending" && s != "confirmed" && s != "completed" && s != "cancelled" then 1 else 0)
  }

  /**
   * The four status counts and the uncounted rest partition the list;
   * the confirmed-today and completed-today counts together never exceed
   * today's count, and each is at most its status count.
   */
  lemma {:induction false} CountsPartition(appointments: seq<AdminAppointment>, now: int)
    ensures CountStatus(appointments, "pending") + CountStatus(appointments, "confirmed") +
      CountStatus(appointments, "completed") + CountStatus(appointments, "cancelled") + CountOther(appointments) == |appointments|
    ensures CountStatusToday(appointments, "confirmed", now) + CountStatusToday(appointments, "completed", now) <= CountToday(appointments, now)
    ensures CountStatusToday(appointments, "confirmed", now) <= CountStatus(appointments, "confirmed")
    ensures CountStatusToday(appointments, "completed", now) <= CountStatus(appointments, "completed")
  {
    if appointments != [] {
      CountsPartition(appointments[1..], now);
    }
  }

  // ---------------------------------------------------------------------
  // Online revenue
  // ---------------------------------------------------------------------

  /** A paid online appointment: only its doctor id is read. */
  datatype PaidRow = PaidRow(doctorId: Option<string>)

  /** `doctors.select('user_id, consultation_fee')`. */
  datatype FeeRow = FeeRow(userId: string, consultationFee: Option<int>)

  /** The fallback fee of a doctor without a (non-zero) fee. */
  const DefaultFee: int := 50

  /** `new Map(doctors.map(d => [d.user_id, d.consultation_fee || 0]))`: the last row of an id wins. */
  function FeeMap(doctors: seq<FeeRow>): map<string, int>
  {
    if doctors == [] then map[]
    else
      var d := doctors[|doctors| - 1];
      FeeMap(doctors[..|doctors| - 1])[d.userId := if d.consultationFee.Some? then d.consultationFee.value else 0]
  }

  /** `feeMap.get(apt.doctor_id) || 50`. */
  function FeeOf(fees: map<string, int>, doctorId: Option<string>): int
  {
    if doctorId.Some? && doctorId.value in fees && fees[doctorId.value] != 0 then fees[doctorId.value] else DefaultFee
  }

  /** The total of the forEach: each paid appointment adds its doctor's fee. */
  function Revenue(paid: seq<PaidRow>, fees: map<string, int>): int
  {
    if paid == [] then 0 else Revenue(paid[..|paid| - 1], fees) + FeeOf(fees, paid[|paid| - 1].doctorId)
  }

  /** The accumulation loop `total += Number(fee)`. */
  method SumFees(paid: seq<PaidRow>, fees: map<string, int>) returns (total: int)
    ensures total == Revenue(paid, fees)
  {
    total := 0;
    var i := 0;
    while i < |paid|
      invariant 0 <= i <= |paid|
      invariant total == Revenue(paid[..i], fees)
    {
      assert paid[..i + 1][..i] == paid[..i];
      total := total + FeeOf(fees, paid[i].doctorId);
      i := i + 1;
    }
    assert paid[..|paid|] == paid;
  }

  /** The distinct non-empty doctor ids of the paid appointments (`new Set(ids.filter(Boolean))`). */
  function PaidDoctorIds(paid: seq<PaidRow>): seq<string>
  {
    if paid == [] then []
    else
      var ids := PaidDoctorIds(paid[..|paid| - 1]);
      var d := paid[|paid| - 1].doctorId;
      if Truthy(d) && d.value !in ids then ids + [d.value] else ids
  }

  /** The doctor-fee map of the last row of an id: a null fee reads as 0. */
  lemma {:induction false} FeeMapLastWins(doctors: seq<FeeRow>, k: nat)
    requires k < |doctors|
    requires forall j :: k < j < |doctors| ==> doctors[j].userId != doctors[k].userId
    ensures doctors[k].userId in FeeMap(doctors)
    ensures FeeMap(doctors)[doctors[k].userId] == if doctors[k].consultationFee.Some? then doctors[k].consultationFee.value else 0
  {
    var n := |doctors|;
    if k < n - 1 {
      assert doctors[..n - 1][k] == doctors[k];
      FeeMapLastWins(doctors[..n - 1], k);
    }
  }

  lemma {:induction false} FeeMapKeys(doctors: seq<FeeRow>, id: string)
    ensures id in FeeMap(doctors) <==> exists k :: 0 <= k < |doctors| && doctors[k].userId == id
  {
    if doctors != [] {
      var n := |doctors|;
      var init := doctors[..n - 1];
      FeeMapKeys(init, id);
      if exists k :: 0 <= k < n && doctors[k].userId == id {
        var k :| 0 <= k < n && doctors[k].userId == id;
        if k < n - 1 {
          assert init[k] == doctors[k];
        }
      }
      if exists k :: 0 <= k < |init| && init[k].userId == id {
        var k :| 0 <= k < |init| && init[k].userId == id;
        assert doctors[k] == init[k];
      }
    }
  }

  /**
   * A paid appointment adds its doctor's fee when the doctor has a row
   * with a non-zero fee; a missing doctor id, a doctor without a row, a
   * null fee and a zero fee all add the default 50.
   */
  lemma FeeOfDoctor(doctors: seq<FeeRow>, k: nat, doctorId: Option<string>)
    requires k < |doctors|
    requires forall j :: k < j < |doctors| ==> doctors[j].userId != doctors[k].userId
    ensures doctorId == Some(doctors[k].userId) ==>
      FeeOf(FeeMap(doctors), doctorId) ==
        if doctors[k].consultationFee.Some? && doctors[k].consultationFee.value != 0 then doctors[k].consultationFee.value else DefaultFee
  {
    FeeMapLastWins(doctors, k);
  }

  lemma FeeOfMissing(doctors: seq<FeeRow>, doctorId: Option<string>)
    requires doctorId.None? || forall k :: 0 <= k < |doctors| ==> doctors[k].userId != doctorId.value
    ensures FeeOf(FeeMap(doctors), doctorId) == DefaultFee
  {
    if doctorId.Some? {
      FeeMapKeys(doctors, doctorId.value);
    }
  }

  /** The total adds up over any split of the paid list. */
  lemma {:induction false} RevenueAppend(xs: seq<PaidRow>, ys: seq<PaidRow>, fees: map<string, int>)
    ensures Revenue(xs + ys, fees) == Revenue(xs, fees) + Revenue(ys, fees)
  {
    if ys != [] {
      RevenueAppend(xs, ys[..|ys| - 1], fees);
      assert (xs + ys)[..|xs + ys| - 1] == xs + ys[..|ys| - 1] && (xs + ys)[|xs + ys| - 1] == ys[|ys| - 1];
    } else {
      assert xs + ys == xs;
    }
  }

  /** Without any known non-zero fee, the total is 50 per paid appointment. */
  lemma {:induction false} RevenueAllDefault(paid: seq<PaidRow>)
    ensures Revenue(paid, map[]) == DefaultFee * |paid|
  {
    if paid != [] {
      RevenueAllDefault(paid[..|paid| - 1]);
    }
  }

  /** The revenue card's state: the paid-online count and the revenue. */
  class RevenueStats {
    var paidOnlineCount: int
    var onlineRevenue: int

    constructor()
      ensures paidOnlineCount == 0 && onlineRevenue == 0
    {
      paidOnlineCount := 0;
      onlineRevenue := 0;
    }

    /**
     * calculateOnlineRevenue with the two query answers passed in: an error
     * of the paid-appointments query changes nothing; otherwise the count
     * is set, no doctor ids give revenue 0, an error of the fee query
     * keeps the old revenue, and otherwise the revenue is the fee total.
     */
    method CalculateOnlineRevenue(paid: Query<PaidRow>, doctors: Query<FeeRow>)
      modifies this
      ensures paid.QueryError? ==> paidOnlineCount == old(paidOnlineCount) && onlineRevenue == old(onlineRevenue)
      ensures paid.QueryData? ==> paidOnlineCount == if paid.data.Some? then |paid.data.value| else 0
      ensures paid.QueryData? && (paid.data.None? || PaidDoctorIds(paid.data.value) == []) ==> onlineRevenue == 0
      ensures paid.QueryData? && paid.data.Some? && PaidDoctorIds(paid.data.value) != [] && doctors.QueryError? ==>
        onlineRevenue == old(onlineRevenue)
      ensures paid.QueryData? && paid.data.Some? && PaidDoctorIds(paid.data.value) != [] && doctors.QueryData? ==>
        onlineRevenue == Revenue(paid.data.value, if doctors.data.Some? then FeeMap(doctors.data.value) else map[])
    {
      if paid.QueryError? {
        return;
      }
      paidOnlineCount := if paid.data.Some? then |paid.data.value| else 0;
      if paid.data.None? || |PaidDoctorIds(paid.data.value)| == 0 {
        onlineRevenue := 0;
        return;
      }
      if doctors.QueryError? {
        return;
      }
      var fees := if doctors.data.Some? then FeeMap(doctors.data.value) else map[];
      var total := SumFees(paid.data.value, fees);
      onlineRevenue := total;
    }
  }

  // ---------------------------------------------------------------------
  // filterByDateRange
  // ---------------------------------------------------------------------

  /** A date field as `new Date(field)` reads it: missing or empty, unparsable, or an instant. */
  datatype DateText = NoDate | Unparsable | At(instant: int)

  /** A report item: `item.scheduledAtISO || item.created_at` is its date. */
  datatype ReportItem = ReportItem(id: string, scheduledAt: DateText, createdAt: DateText)

  function ItemDate(item: ReportItem): DateText
  {
    if item.scheduledAt != NoDate then item.scheduledAt else item.createdAt
  }

  /** An invalid Date compares false with everything, so only an instant can be in range. */
  predicate Within(d: DateText, lo: int, hi: int)
  {
    d.At? && lo <= d.instant && d.instant <= hi
  }

  function KeepWithin(items: seq<ReportItem>, lo: int, hi: int): seq<ReportItem>
  {
    if items == [] then []
    else
      var it := items[|items| - 1];
      KeepWithin(items[..|items| - 1], lo, hi) + (if Within(ItemDate(it), lo, hi) then [it] else [])
  }

  /**
   * `new Date("YYYY-MM-DD")`: a date-only string parses as UTC midnight at
   * the start of that day, which is midnight of the model's time axis.
   */
  function Midnight(day: int): int
  {
    day * Slots.DayMs
  }

  /**
   * filterByDateRange as written: no bounds keeps everything; otherwise
   * the lower bound is the start day's midnight or the epoch, and the
   * upper bound the end day's midnight or now.
   */
  function FilterByDateRange(items: seq<ReportItem>, startDay: Option<int>, endDay: Option<int>, now: int): seq<ReportItem>
  {
    if startDay.None? && endDay.None? then items
    else
      KeepWithin(items,
        if startDay.Some? then Midnight(startDay.value) else 0,
        if endDay.Some? then Midnight(endDay.value) else now)
  }

  /** The corrected filter: the end day is included up to its last millisecond. */
  function FilterByDateRangeInclusive(items: seq<ReportItem>, startDay: Option<int>, endDay: Option<int>, now: int): seq<ReportItem>
  {
    if startDay.None? && endDay.None? then items
    else
      KeepWithin(items,
        if startDay.Some? then Midnight(startDay.value) else 0,
        if endDay.Some? then Midnight(endDay.value) + Slots.DayMs - 1 else now)
  }

  lemma {:induction false} KeepWithinMembership(items: seq<ReportItem>, lo: int, hi: int)
    ensures forall it :: it in KeepWithin(items, lo, hi) <==> it in items && Within(ItemDate(it), lo, hi)
  {
    if items != [] {
      KeepWithinMembership(items[..|items| - 1], lo, hi);
      assert items == items[..|items| - 1] + [items[|items| - 1]];
    }
  }

  /** The range filter keeps the order: it distributes over concatenation. */
  lemma {:induction false} KeepWithinAppend(xs: seq<ReportItem>, ys: seq<ReportItem>, lo: int, hi: int)
    ensures KeepWithin(xs + ys, lo, hi) == KeepWithin(xs, lo, hi) + KeepWithin(ys, lo, hi)
  {
    if ys != [] {
      KeepWithinAppend(xs, ys[..|ys| - 1], lo, hi);
      assert (xs + ys)[..|xs + ys| - 1] == xs + ys[..|ys| - 1] && (xs + ys)[|xs + ys| - 1] == ys[|ys| - 1];
    } else {
      assert xs + ys == xs;
    }
  }

  /** An instant lies on a day exactly when it is between the day's midnight and its last millisecond. */
  lemma OnDay(t: int, day: int)
    ensures Slots.DayOf(t) == day <==> Midnight(day) <= t <= Midnight(day) + Slots.DayMs - 1
  {
  }

  /**
   * With both bounds set, the corrected filter keeps exactly the items
   * dated on a day from the start day to the end day, both included.
   */
  lemma InclusiveRangeByDay(items: seq<ReportItem>, startDay: int, endDay: int, now: int)
    ensures forall it :: it in FilterByDateRangeInclusive(items, Some(startDay), Some(endDay), now) <==>
      it in items && ItemDate(it).At? && startDay <= Slots.DayOf(ItemDate(it).instant) <= endDay
  {
    KeepWithinMembership(items, Midnight(startDay), Midnight(endDay) + Slots.DayMs - 1);
    forall it | it in items && ItemDate(it).At?
      ensures Within(ItemDate(it), Midnight(startDay), Midnight(endDay) + Slots.DayMs - 1) <==>
        startDay <= Slots.DayOf(ItemDate(it).instant) <= endDay
    {
      var t := ItemDate(it).instant;
      OnDay(t, Slots.DayOf(t));
    }
  }

  /** Without bounds both filters return the items unchanged; with a bound, only dated items survive. */
  lemma DateRangeBounds(items: seq<ReportItem>, startDay: Option<int>, endDay: Option<int>, now: int)
    ensures startDay.None? && endDay.None? ==>
      FilterByDateRange(items, startDay, endDay, now) == items && FilterByDateRangeInclusive(items, startDay, endDay, now) == items
    ensures startDay.Some? || endDay.Some? ==>
      forall it :: it in FilterByDateRange(items, startDay, endDay, now) ==> it in items && ItemDate(it).At?
  {
    if startDay.Some? || endDay.Some? {
      KeepWithinMembership(items, if startDay.Some? then Midnight(startDay.value) else 0, if endDay.Some? then Midnight(endDay.value) else now);
    }
  }

  /**
   * The filter as written drops an appointment at 09:00 on the end day
   * itself, which the corrected filter keeps.
   */
  lemma EndDayExcluded()
    ensures var it := ReportItem("a", At(Midnight(10) + 9 * Slots.HourMs), NoDate);
      FilterByDateRange([it], Some(10), Some(10), 0) == [] &&
      FilterByDateRangeInclusive([it], Some(10), Some(10), 0) == [it]
  {
    var it := ReportItem("a", At(Midnight(10) + 9 * Slots.HourMs), NoDate);
    assert [it][..0] == [];
    assert !Within(ItemDate(it), Midnight(10), Midnight(10));
    assert Within(ItemDate(it), Midnight(10), Midnight(10) + Slots.DayMs - 1);
    assert KeepWithin([it], Midnight(10), Midnight(10)) == [];
    assert KeepWithin([it], Midnight(10), Midnight(10) + Slots.DayMs - 1) == [it];
  }

  // ---------------------------------------------------------------------
  // CSV
  // ---------------------------------------------------------------------

  /** A cell value of a report row. */
  datatype Value = Text(text: string) | Number(number: int) | Null

  /** `${value || ''}`: falsy values ("", 0, null, a missing key) render as "". */
  function Render(v: Value): string
  {
    match v
    case Text(s) => s
    case Number(n) => if n == 0 then "" else IntToString(n)
    case Null => ""
  }

  /** A report row: its keys in insertion order and its values. */
  datatype Row = Row(keys: seq<string>, fields: map<string, Value>)

  function Cell(row: Row, header: string): string
  {
    "\"" + (if header in row.fields then Render(row.fields[header]) else "") + "\""
  }

  function Cells(row: Row, headers: seq<string>): (r: seq<string>)
    ensures |r| == |headers|
    ensures forall k :: 0 <= k < |headers| ==> r[k] == Cell(row, headers[k])
  {
    if headers == [] then [] else [Cell(row, headers[0])] + Cells(row, headers[1..])
  }

  function Lines(data: seq<Row>, headers: seq<string>): (r: seq<string>)
    ensures |r| == |data|
    ensures forall k :: 0 <= k < |data| ==> r[k] == Join(Cells(data[k], headers), ",")
  {
    if data == [] then [] else [Join(Cells(data[0], headers), ",")] + Lines(data[1..], headers)
  }

  /** The CSV text of a report; no data gives no file. */
  function Csv(data: seq<Row>): Option<string>
  {
    if data == [] then None
    else
      var headers := data[0].keys;
      Some(Join([Join(headers, ",")] + Lines(data, headers), "\n"))
  }

  /** No header and no rendered value contains a line break. */
  predicate SingleLine(data: seq<Row>)
  {
    (forall k :: 0 <= k < |data| ==> forall h :: h in data[k].fields ==> '\n' !in Render(data[k].fields[h])) &&
    (|data| > 0 ==> forall i :: 0 <= i < |data[0].keys| ==> '\n' !in data[0].keys[i])
  }

  lemma CellSingleLine(row: Row, header: string)
    requires forall h :: h in row.fields ==> '\n' !in Render(row.fields[h])
    ensures '\n' !in Cell(row, header)
  {
  }

  /**
   * The file is the header line followed by one line per row: splitting
   * it at line breaks gives the keys of the first row joined by commas,
   * then each row's quoted cells in header order.
   */
  lemma CsvLines(data: seq<Row>)
    requires data != [] && SingleLine(data)
    ensures Csv(data).Some?
    ensures var headers := data[0].keys;
      Split(Csv(data).value, '\n') == [Join(headers, ",")] + Lines(data, headers)
    ensures |Split(Csv(data).value, '\n')| == |data| + 1
  {
    var headers := data[0].keys;
    var parts := [Join(headers, ",")] + Lines(data, headers);
    JoinFree(headers, ",", '\n');
    forall k | 0 <= k < |data| ensures '\n' !in Join(Cells(data[k], headers), ",") {
      forall i | 0 <= i < |headers| ensures '\n' !in Cells(data[k], headers)[i] {
        CellSingleLine(data[k], headers[i]);
      }
      JoinFree(Cells(data[k], headers), ",", '\n');
    }
    forall i | 0 <= i < |parts| ensures '\n' !in parts[i] {
      if i > 0 {
        assert parts[i] == Lines(data, headers)[i - 1];
      }
    }
    SplitJoin(parts, '\n');
  }

  /** The header line reads back as the keys of the first row when no key contains a comma. */
  lemma CsvHeader(data: seq<Row>)
    requires data != [] && |data[0].keys| >= 1
    requires forall i :: 0 <= i < |data[0].keys| ==> ',' !in data[0].keys[i]
    ensures Split(Join(data[0].keys, ","), ',') == data[0].keys
  {
    SplitJoin(data[0].keys, ',');
  }

  /** Every cell is quoted; a falsy value, including the number 0, renders as an empty pair of quotes. */
  lemma CellQuoted(row: Row, header: string)
    ensures var c := Cell(row, header); |c| >= 2 && c[0] == '"' && c[|c| - 1] == '"'
    ensures header !in row.fields || row.fields[header] in {Text(""), Number(0), Null} ==> Cell(row, header) == "\"\""
  {
  }

  // ---------------------------------------------------------------------
  // Guards and local updates
  // ---------------------------------------------------------------------

  /** handleDeleteSpecialty goes on to the confirmation only for a specialty without doctors. */
  predicate MayDeleteSpecialty(doctorCount: int)
  {
    !(doctorCount > 0)
  }

  /** How handleDeleteSpecialty ends: refused, not confirmed, deleted, or the delete's error. */
  datatype DeleteOutcome = CannotDelete(message: string) | NotConfirmed | SpecialtyDeleted | DeleteFailed(message: string)

  /**
   * handleDeleteSpecialty with the confirm dialog's answer and the delete's
   * error (None on success; its message may be empty) passed in.
   */
  function DeleteSpecialty(doctorCount: int, confirmed: bool, deleteError: Option<string>): DeleteOutcome
  {
    if !MayDeleteSpecialty(doctorCount) then
      CannotDelete("This specialty has " + IntToString(doctorCount) + " doctor(s) assigned. Reassign them first.")
    else if !confirmed then NotConfirmed
    else if deleteError.Some? then DeleteFailed(OrElse(deleteError, "Failed to delete specialty"))
    else SpecialtyDeleted
  }

  /** The delete request is sent only after both the guard and the confirmation. */
  predicate DeleteRequested(o: DeleteOutcome)
  {
    o.SpecialtyDeleted? || o.DeleteFailed?
  }

  /**
   * A specialty with doctors assigned is never deleted and the delete is
   * not even requested; otherwise it is deleted exactly when the admin
   * confirms and the backend reports no error, and a failure always
   * carries a non-empty message.
   */
  lemma DeleteSpecialtySpec(doctorCount: int, confirmed: bool, deleteError: Option<string>)
    ensures var o := DeleteSpecialty(doctorCount, confirmed, deleteError);
      (doctorCount > 0 ==> o.CannotDelete? && !DeleteRequested(o)) &&
      (DeleteRequested(o) <==> doctorCount <= 0 && confirmed) &&
      (o == SpecialtyDeleted <==> doctorCount <= 0 && confirmed && deleteError.None?) &&
      (o.DeleteFailed? ==> o.message != "")
  {
  }

  /** The outcome of the handleAddAdmin guards. */
  datatype AdminCheck = MissingField | ShortPassword | Proceed

  function CheckNewAdmin(firstName: string, lastName: string, email: string, password: string): AdminCheck
  {
    if Trim(firstName) == "" || Trim(lastName) == "" || Trim(email) == "" || Trim(password) == "" then MissingField
    else if Utf16Length(password) < 6 then ShortPassword
    else Proceed
  }

  /**
   * An admin account is created only when the four fields are not blank
   * and the password has at least six characters; a blank field is
   * reported before a short password.
   */
  lemma CheckNewAdminSpec(firstName: string, lastName: string, email: string, password: string)
    ensures CheckNewAdmin(firstName, lastName, email, password) == Proceed <==>
      !Blank(firstName) && !Blank(lastName) && !Blank(email) && !Blank(password) && Utf16Length(password) >= 6
    ensures Blank(firstName) || Blank(lastName) || Blank(email) || Blank(password) ==>
      CheckNewAdmin(firstName, lastName, email, password) == MissingField
  {
    TrimEmptyIffBlank(firstName);
    TrimEmptyIffBlank(lastName);
    TrimEmptyIffBlank(email);
    TrimEmptyIffBlank(password);
  }

  /** Three emoji above U+FFFF are six UTF-16 code units, a password long enough for the guard. */
  lemma AstralAdminPassword(firstName: string, lastName: string, email: string)
    requires !Blank(firstName) && !Blank(lastName) && !Blank(email)
    ensures CheckNewAdmin(firstName, lastName, email, "\U{1F600}\U{1F600}\U{1F600}") == Proceed
  {
    var p := "\U{1F600}\U{1F600}\U{1F600}";
    var e := "\U{1F600}";
    assert e[..0] == [] && Utf16Length(e) == 2;
    assert p == e + e + e;
    Utf16LengthAppend(e, e);
    Utf16LengthAppend(e + e, e);
    assert !IsSpace(p[0]);
    CheckNewAdminSpec(firstName, lastName, email, p);
  }

  /** A first name of ideographic spaces (U+3000) is blank to trim() and is refused. */
  lemma IdeographicSpaceRefused(lastName: string, email: string, password: string)
    ensures CheckNewAdmin("\U{3000}\U{3000}", lastName, email, password) == MissingField
  {
    TrimEmptyIffBlank("\U{3000}\U{3000}");
  }

  /** `prev.map(apt => apt.id === id ? { ...apt, status } : apt)`. */
  function UpdateStatus(appointments: seq<AdminAppointment>, id: string, newStatus: string): (r: seq<AdminAppointment>)
    ensures |r| == |appointments|
  {
    if appointments == [] then []
    else
      var a := appointments[0];
      [if a.id == id then a.(status := newStatus) else a] + UpdateStatus(appointments[1..], id, newStatus)
  }

  /**
   * The update sets the status of the appointments with the id and
   * changes nothing else; doing it twice is doing it once.
   */
  lemma {:induction false} UpdateStatusSpec(appointments: seq<AdminAppointment>, id: string, newStatus: string)
    ensures forall k :: 0 <= k < |appointments| ==>
      var b := UpdateStatus(appointments, id, newStatus)[k];
      b.id == appointments[k].id && b.doctor == appointments[k].doctor && b.kind == appointments[k].kind &&
      b.scheduledAt == appointments[k].scheduledAt &&
      b.status == (if appointments[k].id == id then newStatus else appointments[k].status)
    ensures UpdateStatus(UpdateStatus(appointments, id, newStatus), id, newStatus) == UpdateStatus(appointments, id, newStatus)
  {
    if appointments != [] {
      UpdateStatusSpec(appointments[1..], id, newStatus);
    }
  }

  /** The campaign button: an active campaign is paused to 'scheduled', any other becomes active. */
  function ToggleCampaign(status: string): (r: string)
    ensures r == "active" || r == "scheduled"
  {
    if status == "active" then "scheduled" else "active"
  }

  /** Toggling changes the status, and toggling twice restores it for the two states it produces. */
  lemma ToggleCampaignInvolution(status: string)
    ensures ToggleCampaign(status) != status
    ensures status == "active" || status == "scheduled" <==> ToggleCampaign(ToggleCampaign(status)) == status
  {
  }
}
