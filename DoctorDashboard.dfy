/**
 * The pure helpers of the doctor dashboard (src/pages/DoctorDashboard.tsx):
 * the YYYY-MM-DD date keys, the per-day appointment list with its sort by
 * time, the relative-time buckets of the notification list, the avatar
 * initials, the status-to-notification mapping with its unread count, and
 * the month calendar (month length, weekday of the 1st, month navigation).
 *
 * A calendar date is given by its local fields: a year, a 0-based month
 * (0 is January, as Date.getMonth returns it) and a day of the month.
 */
module DoctorDashboard {
  import opened Common
  import Slots

  // ---------------------------------------------------------------------
  // getDateString
  // ---------------------------------------------------------------------

  /** `getDateString(s)` on a string: `s.split('T')[0]`. */
  function DatePart(s: string): string
  {
    Split(s, 'T')[0]
  }

  /** `String(n).padStart(2, '0')`. */
  function Pad2(n: int): string
  {
    var s := IntToString(n);
    if |s| < 2 then "0" + s else s
  }

  /** `getDateString(date)` on a Date: `${year}-${pad(month + 1)}-${pad(day)}`. */
  function DateString(year: int, month: int, day: int): string
  {
    IntToString(year) + "-" + Pad2(month + 1) + "-" + Pad2(day)
  }

  /**
   * On a string the key is the text before the first 'T', or the whole
   * string when there is no 'T'.
   */
  lemma DatePartPrefix(s: string)
    ensures DatePart(s) <= s && 'T' !in DatePart(s)
    ensures |DatePart(s)| < |s| ==> s[|DatePart(s)|] == 'T'
    ensures 'T' !in s ==> DatePart(s) == s
  {
    SplitHead(s, 'T');
  }

  /** Two-digit padding of 0..99 gives two digits. */
  lemma Pad2Digits(n: int)
    requires 0 <= n < 100
    ensures |Pad2(n)| == 2 && IsDigit(Pad2(n)[0]) && IsDigit(Pad2(n)[1])
  {
    NatToStringDigits(n);
    if n >= 10 {
      NatToStringDigits(n / 10);
    }
  }

  /** Two-digit padding reads back as the number it pads. */
  lemma Pad2Value(n: int)
    requires 0 <= n < 100
    ensures Pad2DigitsOk(n) && DigitsValue(Pad2(n)) == n
  {
    Pad2Digits(n);
    NatToStringRoundTrip(n);
    if n < 10 {
      var s := Pad2(n);
      assert s[..1] == "0" && s[1] == NatToString(n)[0];
      assert DigitsValue(s[..1]) == 0;
    }
  }

  predicate Pad2DigitsOk(n: int)
  {
    forall i :: 0 <= i < |Pad2(n)| ==> IsDigit(Pad2(n)[i])
  }

  /** Two-digit padding is injective on 0..99. */
  lemma Pad2Injective(a: int, b: int)
    requires 0 <= a < 100 && 0 <= b < 100
    requires Pad2(a) == Pad2(b)
    ensures a == b
  {
    Pad2Value(a);
    Pad2Value(b);
  }

  /** A key of a date with a non-negative year is its three fields joined by '-'. */
  lemma DateStringFields(year: int, month: int, day: int)
    requires year >= 0 && 0 <= month < 12 && 1 <= day <= 31
    ensures Split(DateString(year, month, day), '-') == [IntToString(year), Pad2(month + 1), Pad2(day)]
  {
    var parts := [IntToString(year), Pad2(month + 1), Pad2(day)];
    DateFieldsFree(year, month, day, '-');
    assert Join(parts[1..], "-") == Pad2(month + 1) + "-" + Pad2(day) by {
      assert parts[1..][1..] == [Pad2(day)];
    }
    assert Join(parts, "-") == DateString(year, month, day);
    SplitJoin(parts, '-');
  }

  /** The year and the padded fields hold digits only. */
  lemma DateFieldsFree(year: int, month: int, day: int, c: char)
    requires year >= 0 && 0 <= month < 12 && 1 <= day <= 31 && !IsDigit(c)
    ensures c !in IntToString(year) && c !in Pad2(month + 1) && c !in Pad2(day)
  {
    NatToStringDigits(year);
    Pad2Digits(month + 1);
    Pad2Digits(day);
  }

  /**
   * Distinct dates (non-negative years, valid months and days) get
   * distinct keys, so comparing keys compares calendar days.
   */
  lemma DateStringInjective(y1: int, m1: int, d1: int, y2: int, m2: int, d2: int)
    requires y1 >= 0 && 0 <= m1 < 12 && 1 <= d1 <= 31
    requires y2 >= 0 && 0 <= m2 < 12 && 1 <= d2 <= 31
    requires DateString(y1, m1, d1) == DateString(y2, m2, d2)
    ensures y1 == y2 && m1 == m2 && d1 == d2
  {
    DateStringFields(y1, m1, d1);
    DateStringFields(y2, m2, d2);
    NatToStringInjective(y1, y2);
    Pad2Injective(m1 + 1, m2 + 1);
    Pad2Injective(d1, d2);
  }

  /** The key of an ISO timestamp "YYYY-MM-DDT..." is the date's key. */
  lemma DatePartOfTimestamp(year: int, month: int, day: int, rest: string)
    requires year >= 0 && 0 <= month < 12 && 1 <= day <= 31
    ensures DatePart(DateString(year, month, day) + "T" + rest) == DateString(year, month, day)
  {
    var key := DateString(year, month, day);
    DateFieldsFree(year, month, day, 'T');
    assert key + "T" + rest == key + ['T'] + rest;
    SplitNoSep(key, 'T', rest);
  }

  // ---------------------------------------------------------------------
  // getAppointmentsForDate
  // ---------------------------------------------------------------------

  /**
   * An appointment as the calendar reads it: its scheduled_at text (which
   * may be missing) and the instant `new Date(scheduled_at).getTime()`.
   */
  datatype Appointment = Appointment(id: string, scheduledAt: Option<string>, instant: int, status: string)

  /** The filter of lines 352-370: a scheduled_at is present and its key is the target's. */
  predicate OnDay(a: Appointment, target: string)
  {
    Truthy(a.scheduledAt) && DatePart(a.scheduledAt.value) == target
  }

  function Matches(appointments: seq<Appointment>, target: string): seq<Appointment>
  {
    if appointments == [] then []
    else
      var a := appointments[|appointments| - 1];
      Matches(appointments[..|appointments| - 1], target) + (if OnDay(a, target) then [a] else [])
  }

  /** Ascending by instant. */
  predicate SortedByInstant(s: seq<Appointment>)
  {
    forall i, j :: 0 <= i < j < |s| ==> s[i].instant <= s[j].instant
  }

  /** Inserts x after every element whose instant is not later than x's. */
  function Insert(sorted: seq<Appointment>, x: Appointment): seq<Appointment>
  {
    if sorted == [] then [x]
    else if sorted[|sorted| - 1].instant > x.instant then Insert(sorted[..|sorted| - 1], x) + [sorted[|sorted| - 1]]
    else sorted + [x]
  }

  /**
   * `matches.sort((a, b) => timeA - timeB)`: a stable sort by instant
   * (Array.prototype.sort is stable), specified as insertion sort.
   */
  function SortByInstant(s: seq<Appointment>): seq<Appointment>
  {
    if s == [] then [] else Insert(SortByInstant(s[..|s| - 1]), s[|s| - 1])
  }

  lemma {:induction false} InsertPermutation(sorted: seq<Appointment>, x: Appointment)
    ensures multiset(Insert(sorted, x)) == multiset(sorted) + multiset{x}
  {
    if sorted != [] && sorted[|sorted| - 1].instant > x.instant {
      var init := sorted[..|sorted| - 1];
      InsertPermutation(init, x);
      assert sorted == init + [sorted[|sorted| - 1]];
    }
  }

  lemma {:induction false} InsertSorted(sorted: seq<Appointment>, x: Appointment)
    requires SortedByInstant(sorted)
    ensures SortedByInstant(Insert(sorted, x))
  {
    if sorted != [] && sorted[|sorted| - 1].instant > x.instant {
      var init := sorted[..|sorted| - 1];
      var last := sorted[|sorted| - 1];
      InsertSorted(init, x);
      InsertBound(init, x, last.instant);
      var r := Insert(init, x);
      assert forall k :: 0 <= k < |r| ==> r[k].instant <= last.instant;
      assert Insert(sorted, x) == r + [last];
    }
  }

  /** Inserting below a bound keeps every instant below it. */
  lemma {:induction false} InsertBound(sorted: seq<Appointment>, x: Appointment, bound: int)
    requires forall k :: 0 <= k < |sorted| ==> sorted[k].instant <= bound
    requires x.instant <= bound
    ensures forall k :: 0 <= k < |Insert(sorted, x)| ==> Insert(sorted, x)[k].instant <= bound
  {
    if sorted != [] && sorted[|sorted| - 1].instant > x.instant {
      InsertBound(sorted[..|sorted| - 1], x, bound);
    }
  }

  /** The sort returns its input ascending by instant... */
  lemma {:induction false} SortByInstantSorted(s: seq<Appointment>)
    ensures SortedByInstant(SortByInstant(s))
  {
    if s != [] {
      SortByInstantSorted(s[..|s| - 1]);
      InsertSorted(SortByInstant(s[..|s| - 1]), s[|s| - 1]);
    }
  }

  /** ... and as a permutation of it. */
  lemma {:induction false} SortByInstantPermutation(s: seq<Appointment>)
    ensures multiset(SortByInstant(s)) == multiset(s)
  {
    if s != [] {
      var init, last := s[..|s| - 1], s[|s| - 1];
      SortByInstantPermutation(init);
      InsertPermutation(SortByInstant(init), last);
      LastSplit(s);
    }
  }

  /** A non-empty sequence is its prefix and its last element. */
  lemma LastSplit(s: seq<Appointment>)
    requires s != []
    ensures multiset(s) == multiset(s[..|s| - 1]) + multiset{s[|s| - 1]}
  {
    assert s == s[..|s| - 1] + [s[|s| - 1]];
  }

  /** The in-place sort of `matches`: insertion sort shifting later appointments right. */
  method SortInPlace(a: array<Appointment>)
    modifies a
    ensures a[..] == SortByInstant(old(a[..]))
  {
    ghost var orig := a[..];
    var i := 0;
    while i < a.Length
      invariant 0 <= i <= a.Length
      invariant a[..i] == SortByInstant(orig[..i])
      invariant a[i..] == orig[i..]
    {
      ghost var before := a[..];
      TailStep(before, orig, i);
      InsertAt(a, i);
      SortStep(orig, i);
      i := i + 1;
    }
    assert a[..] == a[..a.Length] && orig == orig[..a.Length];
  }

  /** Equal suffixes from i agree at i and from i + 1. */
  lemma TailStep(s: seq<Appointment>, t: seq<Appointment>, i: nat)
    requires i < |s| == |t| && s[i..] == t[i..]
    ensures s[i] == t[i] && s[i + 1..] == t[i + 1..]
  {
    assert s[i] == s[i..][0] && t[i] == t[i..][0];
    assert s[i + 1..] == s[i..][1..] && t[i + 1..] == t[i..][1..];
  }

  /** Sorting one more element inserts it into the sorted prefix. */
  lemma SortStep(s: seq<Appointment>, i: nat)
    requires i < |s|
    ensures SortByInstant(s[..i + 1]) == Insert(SortByInstant(s[..i]), s[i])
  {
    assert s[..i + 1][..i] == s[..i] && s[..i + 1][i] == s[i];
  }

  /** Moves a[i] left past the later appointments before it. */
  method InsertAt(a: array<Appointment>, i: nat)
    requires i < a.Length
    modifies a
    ensures a[..i + 1] == Insert(old(a[..i]), old(a[i]))
    ensures a[i + 1..] == old(a[i + 1..])
  {
    var x := a[i];
    ghost var orig := a[..];
    ghost var sorted := orig[..i];
    var j := i;
    while j > 0 && a[j - 1].instant > x.instant
      invariant 0 <= j <= i
      invariant forall k :: 0 <= k < j ==> a[k] == sorted[k]
      invariant forall k :: j < k <= i ==> a[k] == sorted[k - 1]
      invariant forall k :: i < k < a.Length ==> a[k] == orig[k]
      invariant forall k :: j <= k < i ==> sorted[k].instant > x.instant
    {
      a[j] := a[j - 1];
      j := j - 1;
    }
    a[j] := x;
    InsertSplit(sorted, x, j);
    Assemble(a[..], orig, x, i, j);
  }

  /** The array after the insertion: the kept prefix, x, the shifted elements, the untouched rest. */
  lemma Assemble(b: seq<Appointment>, orig: seq<Appointment>, x: Appointment, i: nat, j: nat)
    requires j <= i < |b| == |orig|
    requires forall k :: 0 <= k < j ==> b[k] == orig[k]
    requires b[j] == x
    requires forall k :: j < k <= i ==> b[k] == orig[k - 1]
    requires forall k :: i < k < |b| ==> b[k] == orig[k]
    ensures b[..i + 1] == orig[..j] + [x] + orig[j..i]
    ensures b[i + 1..] == orig[i + 1..]
  {
  }

  /** x goes after the elements not later than it, before the later ones at the end. */
  lemma {:induction false} InsertSplit(sorted: seq<Appointment>, x: Appointment, j: nat)
    requires j <= |sorted|
    requires j > 0 ==> sorted[j - 1].instant <= x.instant
    requires forall k :: j <= k < |sorted| ==> sorted[k].instant > x.instant
    ensures Insert(sorted, x) == sorted[..j] + [x] + sorted[j..]
    decreases |sorted|
  {
    if j < |sorted| {
      var init := sorted[..|sorted| - 1];
      InsertSplit(init, x, j);
      assert init[..j] == sorted[..j];
      assert sorted[j..] == init[j..] + [sorted[|sorted| - 1]];
    }
  }

  /** Matching keeps exactly the appointments of the target day, of any status. */
  lemma {:induction false} MatchesSpec(appointments: seq<Appointment>, target: string)
    ensures multiset(Matches(appointments, target)) <= multiset(appointments)
    ensures forall a :: a in Matches(appointments, target) <==> a in appointments && OnDay(a, target)
  {
    if appointments != [] {
      var init := appointments[..|appointments| - 1];
      MatchesSpec(init, target);
      assert appointments == init + [appointments[|appointments| - 1]];
    }
  }

  /**
   * The day list holds exactly the appointments whose scheduled_at falls
   * on the date, whatever their status, ascending by time.
   */
  lemma AppointmentsForDateSpec(appointments: seq<Appointment>, year: int, month: int, day: int)
    ensures SortedByInstant(SortByInstant(Matches(appointments, DateString(year, month, day))))
    ensures forall a :: a in SortByInstant(Matches(appointments, DateString(year, month, day))) <==>
      a in appointments && OnDay(a, DateString(year, month, day))
  {
    var m := Matches(appointments, DateString(year, month, day));
    SortByInstantSorted(m);
    SortByInstantPermutation(m);
    MatchesSpec(appointments, DateString(year, month, day));
    forall a ensures a in SortByInstant(m) <==> a in m {
      assert a in SortByInstant(m) <==> a in multiset(SortByInstant(m));
    }
  }

  // ---------------------------------------------------------------------
  // formatRelativeTime
  // ---------------------------------------------------------------------

  /** The relative-time label, with the date form left to the locale formatter. */
  datatype RelativeTime = JustNow | MinutesAgo(minutes: int) | HoursAgo(hours: int) | DaysAgo(days: int) | OnDate(instant: int)

  /** `Math.floor((now - past) / 1000)`, then the four thresholds of lines 289-293. */
  function FormatRelativeTime(now: int, past: int): RelativeTime
  {
    var diff := (now - past) / 1000;
    if diff < 60 then JustNow
    else if diff < 3600 then MinutesAgo(diff / 60)
    else if diff < 86400 then HoursAgo(diff / 3600)
    else if diff < 604800 then DaysAgo(diff / 86400)
    else OnDate(past)
  }

  /** The label as displayed, for all but the date form. */
  function RelativeText(r: RelativeTime): string
  {
    match r
    case JustNow => "Just now"
    case MinutesAgo(n) => IntToString(n) + " minutes ago"
    case HoursAgo(n) => IntToString(n) + " hours ago"
    case DaysAgo(n) => IntToString(n) + " days ago"
    case OnDate(_) => ""
  }

  /**
   * Each label covers one band of elapsed whole seconds: less than a
   * minute (including a timestamp in the future) is 'Just now'; the counts
   * are floors, 1..59 minutes, 1..23 hours, 1..6 days; a week or more is a
   * date.
   */
  lemma RelativeTimeBands(now: int, past: int)
    ensures var s := (now - past) / 1000;
      match FormatRelativeTime(now, past)
      case JustNow => s < 60
      case MinutesAgo(n) => 60 <= s < 3600 && 1 <= n <= 59 && n * 60 <= s < (n + 1) * 60
      case HoursAgo(n) => 3600 <= s < 86400 && 1 <= n <= 23 && n * 3600 <= s < (n + 1) * 3600
      case DaysAgo(n) => 86400 <= s < 604800 && 1 <= n <= 6 && n * 86400 <= s < (n + 1) * 86400
      case OnDate(t) => s >= 604800 && t == past
  {
  }

  /** A rank of the bands, coarser as time passes. */
  function Band(r: RelativeTime): int
  {
    match r
    case JustNow => 0
    case MinutesAgo(_) => 1
    case HoursAgo(_) => 2
    case DaysAgo(_) => 3
    case OnDate(_) => 4
  }

  /** As the clock advances, a notification's label never moves back to a finer band. */
  lemma RelativeTimeMonotone(now1: int, now2: int, past: int)
    requires now1 <= now2
    ensures Band(FormatRelativeTime(now1, past)) <= Band(FormatRelativeTime(now2, past))
  {
    assert (now1 - past) / 1000 <= (now2 - past) / 1000;
  }

  // ---------------------------------------------------------------------
  // initials
  // ---------------------------------------------------------------------

  /** The longest prefix without whitespace. */
  function TakeWord(s: string): (w: string)
    ensures w <= s
    ensures forall i :: 0 <= i < |w| ==> !IsSpace(w[i])
    ensures |w| < |s| ==> IsSpace(s[|w|])
  {
    if s == [] || IsSpace(s[0]) then [] else [s[0]] + TakeWord(s[1..])
  }

  /** `s.trim().split(/\s+/)` without the single "" an empty string splits into. */
  function Words(s: string): (r: seq<string>)
    ensures forall k :: 0 <= k < |r| ==> |r[k]| >= 1 && forall i :: 0 <= i < |r[k]| ==> !IsSpace(r[k][i])
    decreases |s|
  {
    var t := TrimStart(s);
    if t == [] then []
    else
      var w := TakeWord(t);
      assert |w| >= 1 by { assert !IsSpace(t[0]); }
      [w] + Words(t[|w|..])
  }

  /** `toUpperCase` on one character, for the ASCII letters. */
  function Upper(c: char): char
  {
    if 'a' <= c <= 'z' then (c as int - 32) as char else c
  }

  /** The upper-cased first letters of the first two words. */
  function FirstLetters(words: seq<string>): (r: string)
    requires forall k :: 0 <= k < |words| ==> |words[k]| >= 1
    ensures |r| <= 2
  {
    if |words| == 0 then ""
    else if |words| == 1 then [Upper(words[0][0])]
    else [Upper(words[0][0]), Upper(words[1][0])]
  }

  /** The initials of the avatar: the upper-cased first letters of the first two words. */
  function Initials(fullName: Option<string>): (r: string)
    ensures |r| <= 2
    ensures fullName.None? ==> r == ""
  {
    if !Truthy(fullName) then "" else FirstLetters(Words(fullName.value))
  }

  /** Words are found only where there is something other than whitespace. */
  lemma {:induction false} WordsOfBlank(s: string)
    ensures Words(s) == [] <==> Blank(s)
    decreases |s|
  {
    var t := TrimStart(s);
    if t != [] {
      assert !IsSpace(s[|s| - |t|]);
    }
  }

  /** A missing, empty or blank name has no initials. */
  lemma InitialsOfBlank(name: string)
    ensures Blank(name) <==> Initials(Some(name)) == ""
  {
    WordsOfBlank(name);
    InitialsEmpty(name);
  }

  /** The initials are empty only when there is no word to take a letter from. */
  lemma InitialsEmpty(name: string)
    ensures Initials(Some(name)) == "" <==> name == "" || Words(name) == []
  {
  }

  /** A word: non-empty and free of whitespace. */
  predicate IsWord(w: string)
  {
    |w| >= 1 && forall i :: 0 <= i < |w| ==> !IsSpace(w[i])
  }

  /** Leading whitespace is what TrimStart drops. */
  lemma {:induction false} TrimStartBlank(lead: string, rest: string)
    requires Blank(lead) && (rest == [] || !IsSpace(rest[0]))
    ensures TrimStart(lead + rest) == rest
    decreases |lead|
  {
    if lead == [] {
      assert lead + rest == rest;
    } else {
      assert IsSpace(lead[0]);
      assert (lead + rest)[1..] == lead[1..] + rest;
      TrimStartBlank(lead[1..], rest);
    }
  }

  /** A run of non-whitespace followed by whitespace or nothing is what TakeWord takes. */
  lemma {:induction false} TakeWordRun(w: string, rest: string)
    requires forall i :: 0 <= i < |w| ==> !IsSpace(w[i])
    requires rest == [] || IsSpace(rest[0])
    ensures TakeWord(w + rest) == w
    decreases |w|
  {
    if w == [] {
      assert w + rest == rest;
    } else {
      assert (w + rest)[1..] == w[1..] + rest;
      TakeWordRun(w[1..], rest);
      assert [w[0]] + w[1..] == w;
    }
  }

  /**
   * Words splits a name at its whitespace runs: after leading whitespace,
   * a maximal run of non-whitespace is the first word, and the remaining
   * words are those of the rest of the name, in order.
   */
  lemma WordsCons(lead: string, w: string, rest: string)
    requires Blank(lead) && IsWord(w) && (rest == [] || IsSpace(rest[0]))
    ensures Words(lead + w + rest) == [w] + Words(rest)
  {
    assert lead + w + rest == lead + (w + rest);
    TrimStartBlank(lead, w + rest);
    TakeWordRun(w, rest);
    assert (w + rest)[|w|..] == rest;
  }

  /** A name of one word has the upper-cased first letter of that word as its initials. */
  lemma InitialsOneWord(lead: string, w: string, trail: string)
    requires Blank(lead) && IsWord(w) && Blank(trail)
    ensures Initials(Some(lead + w + trail)) == [Upper(w[0])]
  {
    WordsCons(lead, w, trail);
    WordsOfBlank(trail);
  }

  /**
   * A name whose second word starts with rest[0] has the upper-cased first
   * letters of its first two words as its initials; later words are ignored.
   */
  lemma InitialsTwoWords(lead: string, w: string, gap: string, rest: string)
    requires Blank(lead) && IsWord(w) && gap != [] && Blank(gap) && rest != [] && !IsSpace(rest[0])
    ensures Initials(Some(lead + w + gap + rest)) == [Upper(w[0]), Upper(rest[0])]
  {
    assert lead + w + gap + rest == lead + w + (gap + rest);
    WordsCons(lead, w, gap + rest);
    WordsFirstLetter(gap, rest);
    InitialsOfWordList(lead + w + (gap + rest), w, Words(gap + rest));
  }

  /** The initials read the first letters off the word list. */
  lemma InitialsOfWordList(s: string, w: string, tail: seq<string>)
    requires s != [] && |w| >= 1 && tail != [] && |tail[0]| >= 1 && Words(s) == [w] + tail
    ensures Initials(Some(s)) == [Upper(w[0]), Upper(tail[0][0])]
  {
  }

  /** After whitespace, the first word starts at the first other character. */
  lemma WordsFirstLetter(gap: string, rest: string)
    requires Blank(gap) && rest != [] && !IsSpace(rest[0])
    ensures Words(gap + rest) != [] && Words(gap + rest)[0][0] == rest[0]
  {
    TrimStartBlank(gap, rest);
  }

  // ---------------------------------------------------------------------
  // Notifications
  // ---------------------------------------------------------------------

  datatype NotificationType = NewAppointment | Confirmed | Cancelled | Completed

  /** The switch of lines 239-260 (its default keeps 'new_appointment'). */
  function TypeOf(status: string): NotificationType
  {
    if status == "pending" then NewAppointment
    else if status == "confirmed" then Confirmed
    else if status == "cancelled" then Cancelled
    else if status == "completed" then Completed
    else NewAppointment
  }

  function Types(statuses: seq<string>): (r: seq<NotificationType>)
    ensures |r| == |statuses|
    ensures forall k :: 0 <= k < |statuses| ==> r[k] == TypeOf(statuses[k])
  {
    if statuses == [] then [] else [TypeOf(statuses[0])] + Types(statuses[1..])
  }

  /** `notifications.filter(n => n.type === 'new_appointment').length`. */
  function UnreadCount(types: seq<NotificationType>): nat
  {
    if types == [] then 0 else (if types[0] == NewAppointment then 1 else 0) + UnreadCount(types[1..])
  }

  /** Settled statuses: the three that have a notification type of their own. */
  predicate Settled(status: string)
  {
    status == "confirmed" || status == "cancelled" || status == "completed"
  }

  function CountUnsettled(statuses: seq<string>): nat
  {
    if statuses == [] then 0 else (if Settled(statuses[0]) then 0 else 1) + CountUnsettled(statuses[1..])
  }

  /**
   * The unread badge counts every recent appointment whose status is not
   * confirmed, cancelled or completed: pending ones and any unknown status.
   */
  lemma {:induction false} UnreadCountsUnsettled(statuses: seq<string>)
    ensures UnreadCount(Types(statuses)) == CountUnsettled(statuses)
    ensures UnreadCount(Types(statuses)) <= |statuses|
  {
    if statuses != [] {
      UnreadCountsUnsettled(statuses[1..]);
      assert Types(statuses)[1..] == Types(statuses[1..]);
    }
  }

  // ---------------------------------------------------------------------
  // The month calendar
  // ---------------------------------------------------------------------

  /** Leap years of the proleptic Gregorian calendar that Date uses. */
  predicate Leap(year: int)
  {
    year % 4 == 0 && (year % 100 != 0 || year % 400 == 0)
  }

  /** `new Date(year, month + 1, 0).getDate()`: the last day of the month. */
  function DaysInMonth(year: int, month: int): (r: int)
    requires 0 <= month < 12
    ensures 28 <= r <= 31
  {
    if month == 1 then (if Leap(year) then 29 else 28)
    else if month == 3 || month == 5 || month == 8 || month == 10 then 30
    else 31
  }

  /** Days in the months of the year before `month`. */
  function DaysBeforeMonth(year: int, month: int): int
    requires 0 <= month <= 12
  {
    if month == 0 then 0 else DaysBeforeMonth(year, month - 1) + DaysInMonth(year, month - 1)
  }

  /** Days from 0001-01-01 to January 1st of the year (floor divisions count the leap days). */
  function DaysBeforeYear(year: int): int
  {
    365 * (year - 1) + (year - 1) / 4 - (year - 1) / 100 + (year - 1) / 400
  }

  /** The serial day number of a date, 0 for 0001-01-01 (a Monday). */
  function DayIndex(year: int, month: int, day: int): int
    requires 0 <= month < 12
  {
    DaysBeforeYear(year) + DaysBeforeMonth(year, month) + day - 1
  }

  /** Date.getDay: 0 is Sunday. */
  function WeekdayOf(year: int, month: int, day: int): int
    requires 0 <= month < 12
  {
    (DayIndex(year, month, day) + 1) % 7
  }

  /** getDaysInMonth(date): the length of the month and the weekday of its 1st. */
  datatype MonthInfo = MonthInfo(daysInMonth: int, startingDayOfWeek: int, year: int, month: int)

  function GetDaysInMonth(year: int, month: int): (r: MonthInfo)
    requires 0 <= month < 12
    ensures 28 <= r.daysInMonth <= 31 && 0 <= r.startingDayOfWeek < 7
  {
    MonthInfo(DaysInMonth(year, month), WeekdayOf(year, month, 1), year, month)
  }

  /** `new Date(year, month, 1)` normalises a month outside 0..11 into the neighbouring years. */
  function Normalize(year: int, month: int): (r: (int, int))
    ensures 0 <= r.1 < 12
  {
    (year + month / 12, month % 12)
  }

  /** goToPreviousMonth / goToNextMonth: day 1 of the adjacent month. */
  function PreviousMonth(year: int, month: int): (int, int)
  {
    Normalize(year, month - 1)
  }

  function NextMonth(year: int, month: int): (int, int)
  {
    Normalize(year, month + 1)
  }

  /**
   * Month navigation rolls over the year: January goes back to December
   * of the year before, December on to January of the year after, and the
   * two moves undo each other.
   */
  lemma MonthNavigation(year: int, month: int)
    requires 0 <= month < 12
    ensures PreviousMonth(year, month) == (if month == 0 then (year - 1, 11) else (year, month - 1))
    ensures NextMonth(year, month) == (if month == 11 then (year + 1, 0) else (year, month + 1))
    ensures NextMonth(PreviousMonth(year, month).0, PreviousMonth(year, month).1) == (year, month)
    ensures PreviousMonth(NextMonth(year, month).0, NextMonth(year, month).1) == (year, month)
  {
    if month == 0 {
      assert (month - 1) / 12 == -1 && (month - 1) % 12 == 11;
    }
    if month == 11 {
      assert (month + 1) / 12 == 1 && (month + 1) % 12 == 0;
    }
  }

  /** The year's months add up to 365 days, 366 in a leap year. */
  lemma YearLength(year: int)
    ensures DaysBeforeMonth(year, 12) == if Leap(year) then 366 else 365
  {
    assert DaysBeforeMonth(year, 1) == 31;
    assert DaysBeforeMonth(year, 2) == 31 + DaysInMonth(year, 1);
    assert DaysBeforeMonth(year, 3) == 62 + DaysInMonth(year, 1);
    assert DaysBeforeMonth(year, 4) == 92 + DaysInMonth(year, 1);
    assert DaysBeforeMonth(year, 5) == 123 + DaysInMonth(year, 1);
    assert DaysBeforeMonth(year, 6) == 153 + DaysInMonth(year, 1);
    assert DaysBeforeMonth(year, 7) == 184 + DaysInMonth(year, 1);
    assert DaysBeforeMonth(year, 8) == 215 + DaysInMonth(year, 1);
    assert DaysBeforeMonth(year, 9) == 245 + DaysInMonth(year, 1);
    assert DaysBeforeMonth(year, 10) == 276 + DaysInMonth(year, 1);
    assert DaysBeforeMonth(year, 11) == 306 + DaysInMonth(year, 1);
  }

  /** Consecutive years' starts are a year's length apart. */
  lemma YearStep(year: int)
    ensures DaysBeforeYear(year + 1) - DaysBeforeYear(year) == if Leap(year) then 366 else 365
  {
    var y := year - 1;
    DivStep(y, 4);
    DivStep(y, 100);
    DivStep(y, 400);
    LeapDivisors(year);
    assert DaysBeforeYear(year + 1) - DaysBeforeYear(year) ==
      365 + ((y + 1) / 4 - y / 4) - ((y + 1) / 100 - y / 100) + ((y + 1) / 400 - y / 400);
  }

  /** A multiple of 400 is one of 100, and a multiple of 100 one of 4. */
  lemma LeapDivisors(year: int)
    ensures year % 400 == 0 ==> year % 100 == 0
    ensures year % 100 == 0 ==> year % 4 == 0
  {
  }

  /** Floor division by 4, 100 or 400 steps up by one exactly at the multiples. */
  lemma DivStep(y: int, d: int)
    requires d == 4 || d == 100 || d == 400
    ensures (y + 1) / d - y / d == if (y + 1) % d == 0 then 1 else 0
  {
    if d == 4 {
    } else if d == 100 {
    } else {
    }
  }

  /**
   * The 1st of the next month falls `daysInMonth` days after the 1st of
   * this month, and day 0 of the next month is this month's last day.
   */
  lemma NextMonthDays(year: int, month: int)
    requires 0 <= month < 12
    ensures var (ny, nm) := NextMonth(year, month);
      DayIndex(ny, nm, 1) == DayIndex(year, month, 1) + DaysInMonth(year, month) &&
      DayIndex(ny, nm, 0) == DayIndex(year, month, DaysInMonth(year, month))
  {
    MonthNavigation(year, month);
    if month == 11 {
      YearStep(year);
      YearLength(year);
    }
  }

  /** So the next month's first weekday is this month's advanced by the month's length. */
  lemma NextMonthStartWeekday(year: int, month: int)
    requires 0 <= month < 12
    ensures var (ny, nm) := NextMonth(year, month);
      GetDaysInMonth(ny, nm).startingDayOfWeek ==
        (GetDaysInMonth(year, month).startingDayOfWeek + GetDaysInMonth(year, month).daysInMonth) % 7
  {
    NextMonthDays(year, month);
    ModSevenShift(DayIndex(year, month, 1) + 1, DaysInMonth(year, month));
  }

  /** The serial day number of 1970-01-01, day 0 of the instant axis. */
  const EpochDayIndex: int := 719162

  /** January 1970 starts on a Thursday, as the epoch of the instant axis does. */
  lemma EpochMonthThursday()
    ensures DayIndex(1970, 0, 1) == EpochDayIndex
    ensures GetDaysInMonth(1970, 0).startingDayOfWeek == 4
  {
  }

  /**
   * The calendar's weekday of a date is the weekday of every instant on
   * that date, the one the slot computation names the availability day by.
   */
  lemma WeekdayOfInstant(year: int, month: int, day: int, t: int)
    requires 0 <= month < 12
    requires Slots.DayOf(t) == DayIndex(year, month, day) - EpochDayIndex
    ensures WeekdayOf(year, month, day) == Slots.Weekday(t)
  {
    var n := DayIndex(year, month, day);
    assert n + 1 == (Slots.DayOf(t) + 4) + 7 * 102737;
  }

  /** So the calendar's first column for October 2026 is Thursday. */
  lemma October2026()
    ensures GetDaysInMonth(2026, 9) == MonthInfo(31, 4, 2026, 9)
  {
  }

  lemma ModSevenShift(d: int, n: int)
    ensures (d % 7 + n) % 7 == (d + n) % 7
  {
    assert d == 7 * (d / 7) + d % 7;
  }
}
