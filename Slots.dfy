/**
 * The doctor-schedule hook (src/hooks/useDoctorSchedules.ts): the
 * appointment slot-availability computation `getAvailableSlots` and the
 * local schedule-list update performed by `upsertSchedule`.
 *
 * Time is an integer number of milliseconds since 1970-01-01 00:00 in the
 * booking client's local time zone (a Thursday); the local calendar day of
 * an instant t is t / DayMs. Slots are returned as instants: the hook
 * returns their toISOString() renderings, and since that rendering is
 * injective, equality of keys is equality of instants.
 */
module Slots {
  import opened Common

  const MinuteMs: int := 60000
  const HourMs: int := 3600000
  const DayMs: int := 86400000
  /** The fixed 30-minute step of the slot grid (30 * 60 * 1000 ms). */
  const SlotMs: int := 1800000

  /** Local calendar day number of an instant. */
  function DayOf(t: int): int
  {
    t / DayMs
  }

  /** Local midnight of the day of t (Date.setHours(0, 0, 0, 0)). */
  function DayStart(t: int): int
  {
    t - t % DayMs
  }

  /** Date.prototype.getDay on a local instant: 0 is Sunday. */
  function Weekday(t: int): (r: int)
    ensures 0 <= r < 7
  {
    (DayOf(t) + 4) % 7
  }

  const DayNames: seq<string> :=
    ["sunday", "monday", "tuesday", "wednesday", "thursday", "friday", "saturday"]

  /** The lower-case English weekday name the availability table is keyed on. */
  function WeekdayName(t: int): string
  {
    DayNames[Weekday(t)]
  }

  // ---------------------------------------------------------------------
  // Rows returned by the two backend queries
  // ---------------------------------------------------------------------

  /** A row of `doctor_availability`; the time columns may come back null. */
  datatype AvailabilityRow = AvailabilityRow(
    doctorId: string,
    dayOfWeek: string,
    startTime: Option<string>,
    endTime: Option<string>)

  /** A row of `appointments`, reduced to what the engine reads. */
  datatype AppointmentRow = AppointmentRow(doctorId: string, scheduledAt: int, status: string)

  /** `.eq('doctor_id', d).eq('day_of_week', name)` on the availability table. */
  function AvailabilityQuery(table: seq<AvailabilityRow>, doctorId: string, day: string): (r: seq<AvailabilityRow>)
    ensures forall w :: w in r <==> w in table && w.doctorId == doctorId && w.dayOfWeek == day
  {
    if table == [] then []
    else
      var rest := AvailabilityQuery(table[1..], doctorId, day);
      if table[0].doctorId == doctorId && table[0].dayOfWeek == day then [table[0]] + rest else rest
  }

  /**
   * `.eq('doctor_id', d).gte('scheduled_at', 00:00:00.000).lte('scheduled_at',
   * 23:59:59.999).neq('status', 'cancelled')` for the day starting at dayStart.
   */
  function AppointmentQuery(table: seq<AppointmentRow>, doctorId: string, dayStart: int): (r: seq<AppointmentRow>)
    ensures forall a :: a in r <==>
      a in table && a.doctorId == doctorId && dayStart <= a.scheduledAt <= dayStart + DayMs - 1 && a.status != "cancelled"
  {
    if table == [] then []
    else
      var a := table[0];
      var rest := AppointmentQuery(table[1..], doctorId, dayStart);
      if a.doctorId == doctorId && dayStart <= a.scheduledAt <= dayStart + DayMs - 1 && a.status != "cancelled"
      then [a] + rest else rest
  }

  // ---------------------------------------------------------------------
  // Parsing "HH:MM" / "HH:MM:SS"
  // ---------------------------------------------------------------------

  /** The longest prefix of s made of decimal digits. */
  function DigitPrefix(s: string): (r: string)
    ensures r <= s
    ensures forall i :: 0 <= i < |r| ==> IsDigit(r[i])
    ensures |r| < |s| ==> !IsDigit(s[|r|])
  {
    if |s| > 0 && IsDigit(s[0]) then [s[0]] + DigitPrefix(s[1..]) else ""
  }

  /**
   * parseInt(s, 10): leading whitespace, an optional sign, then the longest
   * run of decimal digits; None stands for NaN (no digits at all).
   */
  function ParseInt(s: string): Option<int>
  {
    var t := TrimStart(s);
    var negative := |t| > 0 && t[0] == '-';
    var body := if |t| > 0 && (t[0] == '-' || t[0] == '+') then t[1..] else t;
    var digits := DigitPrefix(body);
    if digits == "" then None
    else if negative then Some(-(DigitsValue(digits) as int))
    else Some(DigitsValue(digits))
  }

  /**
   * The hour and minute fields of a time string: `split(':')`, parseInt of
   * the first field and of the second (or of '0' when the second is missing
   * or empty). None when either is NaN.
   */
  function ParseClock(time: string): Option<(int, int)>
  {
    var parts := Split(time, ':');
    var hour := ParseInt(parts[0]);
    var minute := ParseInt(if |parts| > 1 && parts[1] != "" then parts[1] else "0");
    if hour.Some? && minute.Some? then Some((hour.value, minute.value)) else None
  }

  /**
   * `new Date(date).setHours(h, m, 0, 0)`: setHours normalises fields out
   * of range by carrying into the next unit, so the instant is linear in h
   * and m.
   */
  function AtClock(dayStart: int, hour: int, minute: int): int
  {
    dayStart + hour * HourMs + minute * MinuteMs
  }

  /** Both time columns of the row are non-null. */
  predicate TimesPresent(w: AvailabilityRow)
  {
    w.startTime.Some? && w.endTime.Some?
  }

  /** Some window of the day has a null time column. */
  predicate HasNullTime(windows: seq<AvailabilityRow>)
  {
    exists i :: 0 <= i < |windows| && !TimesPresent(windows[i])
  }

  /**
   * What the forEach body makes of one window: a null time makes `split`
   * throw; an unparsable time gives an Invalid Date, against which every
   * comparison is false, so the window contributes no slot; otherwise the
   * window spans from its start instant to its end instant.
   */
  datatype Window = NullTime | Unparsable | Span(start: int, end: int)

  function ReadWindow(dayStart: int, w: AvailabilityRow): (r: Window)
    ensures r.NullTime? <==> !TimesPresent(w)
  {
    if w.startTime.None? || w.endTime.None? then NullTime
    else
      var s := ParseClock(w.startTime.value);
      var e := ParseClock(w.endTime.value);
      if s.None? || e.None? then Unparsable
      else Span(AtClock(dayStart, s.value.0, s.value.1), AtClock(dayStart, e.value.0, e.value.1))
  }

  /** The windows of the day, read one by one in the order they were returned. */
  function ReadWindows(dayStart: int, windows: seq<AvailabilityRow>): (r: seq<Window>)
    ensures |r| == |windows|
    ensures forall k :: 0 <= k < |windows| ==> r[k] == ReadWindow(dayStart, windows[k])
  {
    if windows == [] then []
    else [ReadWindow(dayStart, windows[0])] + ReadWindows(dayStart, windows[1..])
  }

  /** The forEach throws exactly when it reaches a window with a null time. */
  predicate Throws(spans: seq<Window>)
  {
    exists i :: 0 <= i < |spans| && spans[i].NullTime?
  }

  /** Reading the windows throws exactly when some window has a null time column. */
  lemma ThrowsIffNullTime(dayStart: int, windows: seq<AvailabilityRow>)
    ensures Throws(ReadWindows(dayStart, windows)) <==> HasNullTime(windows)
  {
    var spans := ReadWindows(dayStart, windows);
    if HasNullTime(windows) {
      var i :| 0 <= i < |windows| && !TimesPresent(windows[i]);
      assert spans[i].NullTime?;
    }
  }

  // ---------------------------------------------------------------------
  // The slot grid
  // ---------------------------------------------------------------------

  /** start, start + 30 min, start + 60 min, ... while strictly before end. */
  function Grid(start: int, end: int): seq<int>
    decreases end - start
  {
    if start < end then [start] + Grid(start + SlotMs, end) else []
  }

  /** The grid of one window, empty when it has no span. */
  function WindowSlots(win: Window): seq<int>
  {
    if win.Span? then Grid(win.start, win.end) else []
  }

  /** The concatenation of the windows' grids, in the order the windows were returned. */
  function AllSlots(spans: seq<Window>): seq<int>
  {
    if spans == [] then []
    else AllSlots(spans[..|spans| - 1]) + WindowSlots(spans[|spans| - 1])
  }

  // ---------------------------------------------------------------------
  // Booked times
  // ---------------------------------------------------------------------

  /** The local hour and minute fields of an instant (getHours, getMinutes). */
  function HourOf(t: int): int
  {
    (t - DayStart(t)) / HourMs
  }

  function MinuteOf(t: int): int
  {
    ((t - DayStart(t)) % HourMs) / MinuteMs
  }

  /**
   * `aptDate.setMinutes(minutes < 30 ? 0 : 30, 0, 0)`: same day and hour,
   * minutes rounded down to :00 or :30, seconds and milliseconds zeroed.
   */
  function Bucket(t: int): int
  {
    DayStart(t) + HourOf(t) * HourMs + (if MinuteOf(t) < 30 then 0 else 30) * MinuteMs
  }

  /** The set of booked keys built from the appointments. */
  function Booked(appointments: seq<AppointmentRow>): set<int>
  {
    set a | a in appointments :: Bucket(a.scheduledAt)
  }

  /** The filter of lines 202-210: not at or before now on today's date, and not booked. */
  predicate Keep(slot: int, now: int, booked: set<int>)
  {
    !(DayOf(slot) == DayOf(now) && slot <= now) && slot !in booked
  }

  function FilterSlots(slots: seq<int>, now: int, booked: set<int>): (r: seq<int>)
    ensures |r| <= |slots|
  {
    if slots == [] then []
    else
      var rest := FilterSlots(slots[..|slots| - 1], now, booked);
      var last := slots[|slots| - 1];
      if Keep(last, now, booked) then rest + [last] else rest
  }

  /** The windows of the doctor for the weekday of `date`, empty when that query failed. */
  function DayWindows(doctorId: string, date: int, avail: Fetch<AvailabilityRow>): seq<AvailabilityRow>
  {
    if avail.Failed? then [] else AvailabilityQuery(avail.rows, doctorId, WeekdayName(date))
  }

  /** The booked keys of the doctor on the day of `date`, none when that query failed. */
  function DayBooked(doctorId: string, date: int, appts: Fetch<AppointmentRow>): set<int>
  {
    if appts.Failed? then {} else Booked(AppointmentQuery(appts.rows, doctorId, DayStart(date)))
  }

  /**
   * getAvailableSlots(doctorId, date) with the clock (`now`) and the two
   * tables (or their query failures) passed in.
   */
  function AvailableSlots(doctorId: string, date: int, now: int,
                          avail: Fetch<AvailabilityRow>, appts: Fetch<AppointmentRow>): (r: seq<int>)
    ensures avail.Failed? ==> r == []
    ensures DayWindows(doctorId, date, avail) == [] ==> r == []
    ensures forall x :: x in r ==> x !in DayBooked(doctorId, date, appts)
    ensures forall x :: x in r && DayOf(x) == DayOf(now) ==> now < x
  {
    var windows := DayWindows(doctorId, date, avail);
    var spans := ReadWindows(DayStart(date), windows);
    if windows == [] || Throws(spans) then []
    else
      var booked := DayBooked(doctorId, date, appts);
      FilterSound(AllSlots(spans), now, booked);
      FilterSlots(AllSlots(spans), now, booked)
  }

  /** The while loop of lines 161-164: pushes the window's grid onto `slots`. */
  method PushGrid(slots: seq<int>, start: int, end: int) returns (r: seq<int>)
    ensures r == slots + Grid(start, end)
  {
    r := slots;
    var slot := start;
    while slot < end
      invariant r + Grid(slot, end) == slots + Grid(start, end)
      decreases end - slot
    {
      r := r + [slot];
      slot := slot + SlotMs;
    }
  }

  /**
   * The forEach of lines 148-165 over the day's windows: each window's grid
   * is pushed in turn, and a window with a null time throws.
   */
  method PushWindows(spans: seq<Window>) returns (r: Option<seq<int>>)
    ensures r == if Throws(spans) then None else Some(AllSlots(spans))
  {
    var slots: seq<int> := [];
    var i := 0;
    while i < |spans|
      invariant 0 <= i <= |spans|
      invariant forall k :: 0 <= k < i ==> !spans[k].NullTime?
      invariant slots == AllSlots(spans[..i])
    {
      assert spans[..i + 1][..i] == spans[..i];
      match spans[i] {
        case NullTime =>
          return None;
        case Unparsable =>
        case Span(start, end) =>
          slots := PushGrid(slots, start, end);
      }
      i := i + 1;
    }
    assert spans[..i] == spans;
    return Some(slots);
  }

  /** The forEach of lines 189-196: one booked key per fetched appointment. */
  method CollectBooked(existing: seq<AppointmentRow>) returns (booked: set<int>)
    ensures booked == Booked(existing)
  {
    booked := {};
    var k := 0;
    while k < |existing|
      invariant 0 <= k <= |existing|
      invariant booked == Booked(existing[..k])
    {
      assert existing[..k + 1] == existing[..k] + [existing[k]];
      booked := booked + {Bucket(existing[k].scheduledAt)};
      k := k + 1;
    }
    assert existing[..k] == existing;
  }

  /**
   * The hook's imperative body: the slots are pushed per window, the booked
   * set is filled by a forEach, and a window with a null time throws, which
   * the catch turns into the empty list.
   */
  method GetAvailableSlots(doctorId: string, date: int, now: int,
                           avail: Fetch<AvailabilityRow>, appts: Fetch<AppointmentRow>)
    returns (result: seq<int>)
    ensures result == AvailableSlots(doctorId, date, now, avail, appts)
  {
    var windows := DayWindows(doctorId, date, avail);
    if |windows| == 0 {
      return [];
    }
    var dayStart := DayStart(date);
    var generated := PushWindows(ReadWindows(dayStart, windows));
    if generated.None? {
      return [];
    }
    var booked: set<int> := {};
    if appts.Rows? {
      booked := CollectBooked(AppointmentQuery(appts.rows, doctorId, dayStart));
    }
    result := FilterSlots(generated.value, now, booked);
  }

  // ---------------------------------------------------------------------
  // Properties
  // ---------------------------------------------------------------------

  /** The filter keeps exactly the slots that pass Keep, in their original order. */
  lemma {:induction false} FilterSound(slots: seq<int>, now: int, booked: set<int>)
    ensures forall x :: x in FilterSlots(slots, now, booked) <==> x in slots && Keep(x, now, booked)
  {
    if slots != [] {
      FilterSound(slots[..|slots| - 1], now, booked);
      assert slots == slots[..|slots| - 1] + [slots[|slots| - 1]];
    }
  }

  /** The grid of a window: ceil((end - start) / 30 min) slots, start + k * 30 min, all strictly below end. */
  lemma {:induction false} GridShape(start: int, end: int)
    ensures start >= end ==> Grid(start, end) == []
    ensures start < end ==> |Grid(start, end)| == (end - start + SlotMs - 1) / SlotMs
    ensures forall k :: 0 <= k < |Grid(start, end)| ==>
      Grid(start, end)[k] == start + k * SlotMs && Grid(start, end)[k] < end
    decreases end - start
  {
    if start < end {
      GridShape(start + SlotMs, end);
      var g := Grid(start, end);
      forall k | 0 < k < |g|
        ensures g[k] == start + k * SlotMs
      {
        assert g[k] == Grid(start + SlotMs, end)[k - 1];
      }
    }
  }

  /** An instant is a slot of the window exactly when it lies on the grid and before the end. */
  lemma {:induction false} GridMembership(start: int, end: int, t: int)
    ensures t in Grid(start, end) <==> start <= t < end && (t - start) % SlotMs == 0
    decreases end - start
  {
    if start < end {
      GridMembership(start + SlotMs, end, t);
      if t != start && start <= t && (t - start) % SlotMs == 0 {
        assert (t - (start + SlotMs)) % SlotMs == 0;
      }
    }
  }

  /** The grid is strictly increasing. */
  lemma {:induction false} GridIncreasing(start: int, end: int)
    ensures forall i, j :: 0 <= i < j < |Grid(start, end)| ==> Grid(start, end)[i] < Grid(start, end)[j]
  {
    GridShape(start, end);
  }

  /** A digit string with anything after it parses to its own value. */
  lemma ParseIntDigits(d: string, rest: string)
    requires d != "" && forall i :: 0 <= i < |d| ==> IsDigit(d[i])
    requires rest == [] || !IsDigit(rest[0])
    ensures ParseInt(d + rest) == Some(DigitsValue(d) as int)
  {
    NoLeadingSpace(d + rest);
    DigitPrefixOf(d, rest);
  }

  /** A string starting with a digit is left alone by trimming and has no sign. */
  lemma NoLeadingSpace(s: string)
    requires s != [] && IsDigit(s[0])
    ensures TrimStart(s) == s && s[0] != '-' && s[0] != '+'
  {
  }

  lemma {:induction false} DigitPrefixOf(d: string, rest: string)
    requires forall i :: 0 <= i < |d| ==> IsDigit(d[i])
    requires rest == [] || !IsDigit(rest[0])
    ensures DigitPrefix(d + rest) == d
    decreases |d|
  {
    if |d| > 0 {
      DigitPrefixOf(d[1..], rest);
      assert (d + rest)[1..] == d[1..] + rest;
    } else {
      assert d + rest == rest;
    }
  }

  /** A non-empty digit string is free of the field separator and parses to its value. */
  lemma DigitField(d: string)
    requires d != "" && forall i :: 0 <= i < |d| ==> IsDigit(d[i])
    ensures ':' !in d
    ensures ParseInt(d) == Some(DigitsValue(d) as int)
  {
    forall i | 0 <= i < |d| ensures d[i] != ':' {
      assert IsDigit(d[i]);
    }
    ParseIntDigits(d, "");
    assert d + "" == d;
  }

  /** "HH:MM:SS" reads as hour HH and minute MM; the seconds field is ignored. */
  lemma ParseClockSeconds(h: string, m: string, sec: string)
    requires h != "" && forall i :: 0 <= i < |h| ==> IsDigit(h[i])
    requires m != "" && forall i :: 0 <= i < |m| ==> IsDigit(m[i])
    ensures ParseClock(h + ":" + m + ":" + sec) == Some((DigitsValue(h) as int, DigitsValue(m) as int))
  {
    DigitField(h);
    DigitField(m);
    SplitFields(h, m, sec);
    var parts := Split(h + ":" + m + ":" + sec, ':');
    assert |parts| > 1 && parts[0] == h && parts[1] == m;
  }

  lemma SplitFields(h: string, m: string, sec: string)
    requires ':' !in h && ':' !in m
    ensures Split(h + ":" + m + ":" + sec, ':') == [h, m] + Split(sec, ':')
  {
    assert h + ":" + m + ":" + sec == h + [':'] + (m + ":" + sec);
    SplitNoSep(h, ':', m + ":" + sec);
    assert m + ":" + sec == m + [':'] + sec;
    SplitNoSep(m, ':', sec);
  }

  lemma SplitTwoFields(h: string, m: string)
    requires ':' !in h && ':' !in m
    ensures Split(h + ":" + m, ':') == [h, m]
  {
    assert h + ":" + m == h + [':'] + m;
    SplitNoSep(h, ':', m);
    SplitWhole(m, ':');
  }

  /** "HH:MM" reads as hour HH and minute MM. */
  lemma ParseClockMinutes(h: string, m: string)
    requires h != "" && forall i :: 0 <= i < |h| ==> IsDigit(h[i])
    requires m != "" && forall i :: 0 <= i < |m| ==> IsDigit(m[i])
    ensures ParseClock(h + ":" + m) == Some((DigitsValue(h) as int, DigitsValue(m) as int))
  {
    DigitField(h);
    DigitField(m);
    SplitTwoFields(h, m);
  }

  /** A bare "HH" reads as hour HH, minute 0. */
  lemma ParseClockHourOnly(h: string)
    requires h != "" && forall i :: 0 <= i < |h| ==> IsDigit(h[i])
    ensures ParseClock(h) == Some((DigitsValue(h) as int, 0))
  {
    DigitField(h);
    SplitWhole(h, ':');
    ZeroField();
  }

  lemma ZeroField()
    ensures ParseInt("0") == Some(0)
  {
    DigitField("0");
    assert "0"[..0] == "";
  }

  /** The booked key is the appointment time rounded down to a multiple of 30 minutes. */
  lemma BucketFloor(t: int)
    ensures Bucket(t) == t - t % SlotMs
    ensures Bucket(t) % SlotMs == 0 && Bucket(t) <= t < Bucket(t) + SlotMs
  {
    var d := DayStart(t);
    DayStartOnGrid(t);
    var ms := t - d;
    ClockSplit(ms);
    var h := ms / HourMs;
    var m := (ms % HourMs) / MinuteMs;
    assert HourOf(t) == h && MinuteOf(t) == m;
    var half := if m < 30 then 0 else 30;
    var b := d + h * HourMs + half * MinuteMs;
    assert b == Bucket(t);
    HalfHourOnGrid(d, h, half);
    MinutesWithinSlot(m, half, ms % HourMs % MinuteMs);
    FloorUnique(t, b);
  }

  /** A day's midnight lies on the half-hour grid, and the day's instants follow it within a day. */
  lemma DayStartOnGrid(t: int)
    ensures DayStart(t) % SlotMs == 0 && 0 <= t - DayStart(t) < DayMs
  {
    assert DayStart(t) == (t / DayMs) * (48 * SlotMs);
    assert DayStart(t) == (48 * (t / DayMs)) * SlotMs;
  }

  /** A time of day is its hours, minutes and the milliseconds left over. */
  lemma ClockSplit(ms: int)
    requires 0 <= ms
    ensures ms == (ms / HourMs) * HourMs + ((ms % HourMs) / MinuteMs) * MinuteMs + ms % HourMs % MinuteMs
    ensures 0 <= (ms % HourMs) / MinuteMs < 60 && 0 <= ms % HourMs % MinuteMs < MinuteMs
  {
  }

  /** Whole hours and a :00 or :30 offset from a grid point stay on the grid. */
  lemma HalfHourOnGrid(d: int, h: int, half: int)
    requires d % SlotMs == 0 && (half == 0 || half == 30)
    ensures (d + h * HourMs + half * MinuteMs) % SlotMs == 0
  {
    assert h * HourMs + half * MinuteMs == (2 * h + half / 30) * SlotMs;
    assert d == (d / SlotMs) * SlotMs;
    assert d + h * HourMs + half * MinuteMs == (d / SlotMs + 2 * h + half / 30) * SlotMs;
  }

  /** The minutes past the :00 or :30 mark, with the leftover milliseconds, are less than a slot. */
  lemma MinutesWithinSlot(m: int, half: int, r: int)
    requires 0 <= m < 60 && half == (if m < 30 then 0 else 30) && 0 <= r < MinuteMs
    ensures 0 <= m * MinuteMs + r - half * MinuteMs < SlotMs
  {
    assert m * MinuteMs - half * MinuteMs == (m - half) * MinuteMs;
    assert 0 <= m - half <= 29;
  }

  lemma FloorUnique(t: int, b: int)
    requires b % SlotMs == 0 && b <= t < b + SlotMs
    ensures b == t - t % SlotMs
  {
    var k := b / SlotMs;
    assert b == k * SlotMs;
    assert t == k * SlotMs + (t - b);
  }

  /**
   * An appointment blocks exactly one key: the slot on its own day at h:00
   * when its minute is below 30 and h:30 otherwise. Cancelled appointments
   * and appointments on other days or of other doctors never block.
   */
  lemma AppointmentBlocks(doctorId: string, date: int, table: seq<AppointmentRow>, x: int)
    ensures x in DayBooked(doctorId, date, Rows(table)) <==>
      exists a :: a in table && a.doctorId == doctorId && a.status != "cancelled" &&
        DayStart(date) <= a.scheduledAt < DayStart(date) + DayMs && x == Bucket(a.scheduledAt)
  {
  }

  /**
   * A slot that is not on the half-hour grid (from a window starting at,
   * say, 09:15) is never blocked by any appointment.
   */
  lemma OffGridSlotNeverBooked(appointments: seq<AppointmentRow>, x: int)
    requires x % SlotMs != 0
    ensures x !in Booked(appointments)
  {
    if x in Booked(appointments) {
      var a :| a in appointments && Bucket(a.scheduledAt) == x;
      BucketFloor(a.scheduledAt);
    }
  }

  /**
   * What getAvailableSlots returns when no window has a null time: the
   * generated slots that are neither booked nor at or before now on today's
   * date, and nothing else. With a null time it returns nothing at all.
   */
  lemma AvailableSlotsExactly(doctorId: string, date: int, now: int,
                              avail: Fetch<AvailabilityRow>, appts: Fetch<AppointmentRow>, x: int)
    ensures HasNullTime(DayWindows(doctorId, date, avail)) ==> AvailableSlots(doctorId, date, now, avail, appts) == []
    ensures !HasNullTime(DayWindows(doctorId, date, avail)) ==>
      (x in AvailableSlots(doctorId, date, now, avail, appts) <==>
        x in AllSlots(ReadWindows(DayStart(date), DayWindows(doctorId, date, avail))) &&
        (DayOf(x) == DayOf(now) ==> now < x) && x !in DayBooked(doctorId, date, appts))
  {
    var windows := DayWindows(doctorId, date, avail);
    ThrowsIffNullTime(DayStart(date), windows);
    var spans := ReadWindows(DayStart(date), windows);
    FilterSound(AllSlots(spans), now, DayBooked(doctorId, date, appts));
  }

  /** A slot is a slot of some window of the day. */
  lemma {:induction false} AllSlotsMembership(spans: seq<Window>, x: int)
    ensures x in AllSlots(spans) <==> exists i :: 0 <= i < |spans| && x in WindowSlots(spans[i])
  {
    if spans != [] {
      var n := |spans|;
      var init := spans[..n - 1];
      var last := WindowSlots(spans[n - 1]);
      AllSlotsMembership(init, x);
      assert AllSlots(spans) == AllSlots(init) + last;
      if x in AllSlots(init) {
        var i :| 0 <= i < |init| && x in WindowSlots(init[i]);
        assert spans[i] == init[i];
      } else if x !in last {
        forall i | 0 <= i < n ensures x !in WindowSlots(spans[i]) {
          if i < n - 1 {
            assert init[i] == spans[i];
            assert x !in WindowSlots(init[i]);
          }
        }
      } else {
        assert x in WindowSlots(spans[n - 1]);
      }
    }
  }

  /** The windows all have spans, in ascending order, without overlap. */
  predicate SortedDisjoint(spans: seq<Window>)
  {
    (forall i :: 0 <= i < |spans| ==> spans[i].Span?) &&
    (forall i, j :: 0 <= i < j < |spans| ==> spans[i].end <= spans[j].start)
  }

  predicate Ascending(s: seq<int>)
  {
    forall i, j :: 0 <= i < j < |s| ==> s[i] < s[j]
  }

  /**
   * The output is ascending only because of the order of the windows: when
   * the store returns them sorted and non-overlapping, the generated slots
   * are strictly increasing.
   */
  lemma {:induction false} SortedWindowsAscending(spans: seq<Window>)
    requires SortedDisjoint(spans)
    ensures Ascending(AllSlots(spans))
  {
    if spans != [] {
      var n := |spans|;
      var init := spans[..n - 1];
      assert SortedDisjoint(init);
      SortedWindowsAscending(init);
      var w := spans[n - 1];
      var prefix := AllSlots(init);
      var last := Grid(w.start, w.end);
      forall x | x in prefix ensures x < w.start {
        AllSlotsMembership(init, x);
        var i :| 0 <= i < |init| && x in WindowSlots(init[i]);
        assert init[i] == spans[i];
        GridMembership(spans[i].start, spans[i].end, x);
      }
      forall y | y in last ensures w.start <= y {
        GridMembership(w.start, w.end, y);
      }
      GridIncreasing(w.start, w.end);
      ConcatAscending(prefix, last, w.start);
    }
  }

  /** Two ascending runs separated by a bound concatenate to an ascending run. */
  lemma ConcatAscending(prefix: seq<int>, last: seq<int>, bound: int)
    requires Ascending(prefix) && Ascending(last)
    requires forall x :: x in prefix ==> x < bound
    requires forall y :: y in last ==> bound <= y
    ensures Ascending(prefix + last)
  {
    var all := prefix + last;
    forall i, j | 0 <= i < j < |all| ensures all[i] < all[j] {
      if i < |prefix| {
        assert all[i] == prefix[i];
        if j >= |prefix| {
          assert all[j] == last[j - |prefix|];
          assert prefix[i] in prefix && last[j - |prefix|] in last;
        } else {
          assert all[j] == prefix[j];
        }
      } else {
        assert all[i] == last[i - |prefix|] && all[j] == last[j - |prefix|];
      }
    }
  }

  /** Filtering keeps the order: an ascending sequence stays ascending. */
  lemma {:induction false} FilterAscending(slots: seq<int>, now: int, booked: set<int>)
    requires Ascending(slots)
    ensures Ascending(FilterSlots(slots, now, booked))
  {
    if slots != [] {
      var init := slots[..|slots| - 1];
      var last := slots[|slots| - 1];
      FilterAscending(init, now, booked);
      FilterSound(init, now, booked);
      var rest := FilterSlots(init, now, booked);
      forall x | x in rest ensures x < last {
        var k :| 0 <= k < |init| && init[k] == x;
        assert slots[k] == x;
      }
      if Keep(last, now, booked) {
        var all := rest + [last];
        forall i, j | 0 <= i < j < |all| ensures all[i] < all[j] {
          if j == |rest| {
            assert all[i] in rest;
          }
        }
      }
    }
  }

  /** A single slot passes the filter exactly when it is kept. */
  lemma FilterOne(x: int, now: int, booked: set<int>)
    ensures FilterSlots([x], now, booked) == if Keep(x, now, booked) then [x] else []
  {
    assert [x][..0] == [];
  }

  /**
   * The filter distributes over concatenation: together with FilterOne it
   * fixes the output as the kept slots in generation order, never
   * reordered and with repeated slots kept.
   */
  lemma {:induction false} FilterAppend(a: seq<int>, b: seq<int>, now: int, booked: set<int>)
    ensures FilterSlots(a + b, now, booked) == FilterSlots(a, now, booked) + FilterSlots(b, now, booked)
    decreases |b|
  {
    if b == [] {
      assert a + b == a;
    } else {
      FilterAppend(a, b[..|b| - 1], now, booked);
      assert (a + b)[..|a + b| - 1] == a + b[..|b| - 1] && (a + b)[|a + b| - 1] == b[|b| - 1];
    }
  }

  /** A slot generated twice by overlapping windows is offered twice: nothing deduplicates. */
  lemma RepeatedSlotKept(x: int, now: int, booked: set<int>)
    requires Keep(x, now, booked)
    ensures FilterSlots([x, x], now, booked) == [x, x]
  {
    FilterAppend([x], [x], now, booked);
    FilterOne(x, now, booked);
    assert [x] + [x] == [x, x];
  }

  /** A later slot generated before an earlier one stays in front: nothing sorts. */
  lemma UnsortedSlotsKeepOrder(x: int, y: int, now: int, booked: set<int>)
    requires Keep(x, now, booked) && Keep(y, now, booked)
    ensures FilterSlots([x, y], now, booked) == [x, y]
  {
    FilterAppend([x], [y], now, booked);
    FilterOne(x, now, booked);
    FilterOne(y, now, booked);
    assert [x] + [y] == [x, y];
  }

  /**
   * The output of getAvailableSlots is ascending when the day's windows
   * are sorted and non-overlapping (for other windows FilterAppend gives
   * the generation order, which the hook does not sort).
   */
  lemma SortedWindowsGiveAscendingSlots(doctorId: string, date: int, now: int,
                                        avail: Fetch<AvailabilityRow>, appts: Fetch<AppointmentRow>)
    requires SortedDisjoint(ReadWindows(DayStart(date), DayWindows(doctorId, date, avail)))
    ensures Ascending(AvailableSlots(doctorId, date, now, avail, appts))
  {
    var spans := ReadWindows(DayStart(date), DayWindows(doctorId, date, avail));
    SortedWindowsAscending(spans);
    FilterAscending(AllSlots(spans), now, DayBooked(doctorId, date, appts));
  }

  // ---------------------------------------------------------------------
  // upsertSchedule: the local list update
  // ---------------------------------------------------------------------

  /** A row of `doctor_schedules` as the hook keeps it. */
  datatype DoctorSchedule = DoctorSchedule(
    id: string,
    doctorId: string,
    dayOfWeek: int,
    startTime: string,
    endTime: string,
    isAvailable: bool)

  /** `prev.map(s => s.day_of_week === day ? saved : s)`. */
  function ReplaceDay(prev: seq<DoctorSchedule>, day: int, saved: DoctorSchedule): (r: seq<DoctorSchedule>)
    ensures |r| == |prev|
    ensures forall i :: 0 <= i < |prev| ==> r[i] == (if prev[i].dayOfWeek == day then saved else prev[i])
  {
    if prev == [] then []
    else [if prev[0].dayOfWeek == day then saved else prev[0]] + ReplaceDay(prev[1..], day, saved)
  }

  /**
   * The state update after a successful upsert: every entry for the saved
   * day is replaced when one exists, otherwise the saved row is appended.
   */
  function UpsertLocal(prev: seq<DoctorSchedule>, day: int, saved: DoctorSchedule): seq<DoctorSchedule>
  {
    if exists i :: 0 <= i < |prev| && prev[i].dayOfWeek == day
    then ReplaceDay(prev, day, saved)
    else prev + [saved]
  }

  /**
   * After the update the saved row is present, the length grows only when
   * the day was new, every entry for another day is kept in place, and no
   * old entry for the saved day survives.
   */
  lemma UpsertLocalEffect(prev: seq<DoctorSchedule>, day: int, saved: DoctorSchedule)
    ensures saved in UpsertLocal(prev, day, saved)
    ensures (exists i :: 0 <= i < |prev| && prev[i].dayOfWeek == day) ==> |UpsertLocal(prev, day, saved)| == |prev|
    ensures (forall i :: 0 <= i < |prev| ==> prev[i].dayOfWeek != day) ==> |UpsertLocal(prev, day, saved)| == |prev| + 1
    ensures forall i :: 0 <= i < |prev| && prev[i].dayOfWeek != day ==> UpsertLocal(prev, day, saved)[i] == prev[i]
    ensures forall s :: s in UpsertLocal(prev, day, saved) ==> s == saved || (s in prev && s.dayOfWeek != day)
  {
    var r := UpsertLocal(prev, day, saved);
    if exists i :: 0 <= i < |prev| && prev[i].dayOfWeek == day {
      var i :| 0 <= i < |prev| && prev[i].dayOfWeek == day;
      assert r[i] == saved;
    } else {
      assert r[|prev|] == saved;
    }
  }

  /** Upserting the same row for its own day twice is the same as once. */
  lemma UpsertLocalIdempotent(prev: seq<DoctorSchedule>, saved: DoctorSchedule)
    ensures UpsertLocal(UpsertLocal(prev, saved.dayOfWeek, saved), saved.dayOfWeek, saved)
         == UpsertLocal(prev, saved.dayOfWeek, saved)
  {
    var day := saved.dayOfWeek;
    var once := UpsertLocal(prev, day, saved);
    UpsertLocalEffect(prev, day, saved);
    var k :| 0 <= k < |once| && once[k] == saved;
    assert once[k].dayOfWeek == day;
    var twice := UpsertLocal(once, day, saved);
    assert |twice| == |once|;
    forall i | 0 <= i < |once| ensures twice[i] == once[i] {
      if once[i].dayOfWeek == day {
        assert once[i] in once;
      }
    }
  }
}
