# Hospital portal core logic, modelled in Dafny

This project models the logic at the heart of a hospital appointment portal. The portal is a React front end over a hosted Postgres back end. The model covers:

- **Slot availability** (`Slots`): the hook that computes a doctor's bookable 30-minute slots on a day. It reads the doctor's availability windows for that weekday. It walks a half-hour grid across each window, buckets existing appointments down to :00 or :30, and drops booked slots and slots already past on today's date. The same module models the local replace-or-append update of the schedule list.
- **Schedule report** (`ScheduleReport`): grouping flat schedule rows into one group per doctor, with day names and totals.
- **Schedules page** (`SchedulesPage`): the doctors × profiles × schedules join, and the page's loading and error state.
- **Doctor dashboard** (`DoctorDashboard`):
  - `YYYY-MM-DD` date strings;
  - the appointments of a calendar day, sorted in place;
  - relative-time labels and initials;
  - the notification type mapping and the unread count;
  - month lengths, first weekdays and month navigation.
- **Admin dashboard** (`AdminDashboard`):
  - the doctor filter options and the three-way table filter;
  - today and status counts;
  - online revenue with its default fee;
  - the date-range filter and CSV assembly;
  - the specialty-delete and new-admin guards, the local status update and the campaign toggle.
- **Booking wizard** (`Booking`): the step machine and its required fields, slot loading and selection, date and clinic selection, and the scheduled time.
- **Sign-in page** (`Auth`): where a signed-in user is sent, the register and login guards, and what follows the sign-up and sign-in calls (the role row, the error messages and the navigation).
- **Route guard** (`ProtectedRoute`): spinner, redirect to /auth, redirect to the user's own dashboard, or render.
- **Add-doctor dialog** (`AddDoctor`): the form's field rules, the specialty choices, and the submission sequence. Submission resolves the specialty by id or by upserted name and stops quietly when a table is missing.

## Modelling choices

- **Time.** An instant is an integer number of milliseconds on the local time axis. Its calendar day is `t / 86400000` and its weekday counts from a Thursday epoch. The clock (`now`) is a parameter.
- **Slot keys.** Slot and booking keys are instants, because the ISO rendering the source keys on is injective.
- **Queries.** Every database query, RPC and authentication call becomes a parameter. Its answer is rows, data or an error.
- **Loops become methods.** Code that loops or mutates is written as methods proved equal to specification functions:
  - the slot grid and the booked set;
  - the doctor Map of the schedule report;
  - the in-place sort of a day's appointments;
  - the revenue sum.
- **Stateful pages become classes.** The schedules page, revenue stats, booking wizard, sign-in page and add-doctor dialog are classes whose methods update their fields.
- **JavaScript behaviour.** Truthiness, `||` fallbacks, a Map's last-wins construction and a Set's first-appearance order are written out explicitly.
- **Slot order.** The slot hook's output is never sorted or deduplicated. It comes out in the order the windows were returned, then in time order within each window. The model follows the code: the filter distributes over concatenation (`Slots.FilterAppend`), and the output is proved ascending only when the windows arrive sorted and non-overlapping (`Slots.SortedWindowsGiveAscendingSlots`).
- **Whitespace.** Trimming, splitting on `\s+` and parseInt's leading-space skip use JavaScript's whitespace set: the space separators, tab, the line terminators, no-break space and the byte-order mark.
- **String length.** The password guards compare `length`, which counts UTF-16 code units, so the model measures passwords with `Common.Utf16Length`: a character above U+FFFF counts twice.

## Model

| member | source | states |
|---|---|---|
| Slots.Weekday | src/hooks/useDoctorSchedules.ts:109-110 | The weekday index used to pick the day's name lies in 0..6. |
| Slots.AvailabilityQuery | src/hooks/useDoctorSchedules.ts:113-117 | The availability query returns exactly the rows of that doctor for that weekday name. |
| Slots.AppointmentQuery | src/hooks/useDoctorSchedules.ts:169-180 | The appointment query returns exactly that doctor's non-cancelled appointments from 00:00:00.000 to 23:59:59.999 of the day. |
| Slots.ReadWindow | src/hooks/useDoctorSchedules.ts:136-156 | A window is unreadable (the forEach throws) exactly when one of its time columns is null. |
| Slots.ReadWindows | src/hooks/useDoctorSchedules.ts:134-156 | Each window is read on its own, in the order the store returned them. |
| Slots.ThrowsIffNullTime | src/hooks/useDoctorSchedules.ts:134-219 | Generating slots throws exactly when some window of the day has a null start or end time. |
| Slots.FilterSlots | src/hooks/useDoctorSchedules.ts:201-211 | The filter never adds slots. |
| Slots.AvailableSlots | src/hooks/useDoctorSchedules.ts:104-220 | A failed or empty availability fetch gives no slots. No returned slot is booked. A returned slot on today's date is strictly after now. |
| Slots.PushGrid | src/hooks/useDoctorSchedules.ts:159-164 | The while loop appends exactly the window's 30-minute grid to the slot list. |
| Slots.PushWindows | src/hooks/useDoctorSchedules.ts:132-165 | The forEach yields the concatenation of all window grids, or throws when a window has a null time. |
| Slots.CollectBooked | src/hooks/useDoctorSchedules.ts:186-197 | The booked set built by the forEach is the set of bucketed appointment instants. |
| Slots.GetAvailableSlots | src/hooks/useDoctorSchedules.ts:104-220 | The imperative hook returns what the slot specification function says, including the empty list after a throw. |
| Slots.FilterSound | src/hooks/useDoctorSchedules.ts:201-211 | A slot survives the filter exactly when it was generated, is not booked, and is not at or before now on today's date. |
| Slots.GridShape | src/hooks/useDoctorSchedules.ts:148-164 | A window with start ≥ end yields no slots. Otherwise it yields ceil((end−start)/30 min) slots, the k-th at start + k·30 min. |
| Slots.GridMembership | src/hooks/useDoctorSchedules.ts:161-164 | An instant is a window slot exactly when it lies at a multiple of 30 min from the start and strictly before the end. |
| Slots.GridIncreasing | src/hooks/useDoctorSchedules.ts:161-164 | A window's slots are strictly increasing. |
| Slots.ParseIntDigits | src/hooks/useDoctorSchedules.ts:137 | parseInt of a digit string followed by anything gives the digits' value. |
| Slots.DigitField | src/hooks/useDoctorSchedules.ts:136-137 | A digit field contains no ':' and parses to its value. |
| Slots.ParseClockSeconds | src/hooks/useDoctorSchedules.ts:136-143 | "HH:MM:SS" reads as hour HH and minute MM; the seconds are ignored. |
| Slots.ParseClockMinutes | src/hooks/useDoctorSchedules.ts:136-143 | "HH:MM" reads as hour HH and minute MM. |
| Slots.ParseClockHourOnly | src/hooks/useDoctorSchedules.ts:138-143 | A time without a minute field reads as minute 0. |
| Slots.BucketFloor | src/hooks/useDoctorSchedules.ts:190-194 | The booked key is the appointment instant rounded down to :00 or :30, with seconds and milliseconds dropped. |
| Slots.AppointmentBlocks | src/hooks/useDoctorSchedules.ts:174-196 | An instant is booked exactly when some non-cancelled appointment of that doctor on that day rounds down to it. |
| Slots.OffGridSlotNeverBooked | src/hooks/useDoctorSchedules.ts:189-209 | A slot not on a half-hour boundary (from a window starting at, say, 09:15) can never be blocked. |
| Slots.AvailableSlotsExactly | src/hooks/useDoctorSchedules.ts:104-220 | With a null time the result is empty. Otherwise a slot is returned exactly when some window generates it, it is not booked, and it is not at or before now on today's date. |
| Slots.AllSlotsMembership | src/hooks/useDoctorSchedules.ts:132-165 | A generated slot is a slot of some window of the day, and every window slot is generated. |
| Slots.SortedWindowsAscending | src/hooks/useDoctorSchedules.ts:132-165 | Windows that are sorted and non-overlapping generate strictly ascending slots. |
| Slots.FilterAscending | src/hooks/useDoctorSchedules.ts:201-211 | An ascending list of slots stays ascending after the filter. |
| Slots.FilterOne | src/hooks/useDoctorSchedules.ts:201-211 | A single slot passes exactly when it is kept: not booked and not at or before now on today's date. |
| Slots.FilterAppend | src/hooks/useDoctorSchedules.ts:201-211 | Filtering a concatenation is the concatenation of the filtered parts. With FilterOne this fixes the output as the kept slots in generation order, neither sorted nor deduplicated. |
| Slots.RepeatedSlotKept | src/hooks/useDoctorSchedules.ts:201-211 | A kept slot generated twice (overlapping windows) is offered twice. |
| Slots.UnsortedSlotsKeepOrder | src/hooks/useDoctorSchedules.ts:201-211 | Two kept slots come out in the order they were generated, whatever their times. |
| Slots.SortedWindowsGiveAscendingSlots | src/hooks/useDoctorSchedules.ts:104-220 | The hook's output is ascending when the day's windows arrive sorted and non-overlapping. |
| Slots.ReplaceDay | src/hooks/useDoctorSchedules.ts:66-68 | The map keeps the length and replaces exactly the entries of the saved day. |
| Slots.UpsertLocalEffect | src/hooks/useDoctorSchedules.ts:63-71 | After the update the saved row is present. The length grows by one exactly when the day was new. Other days' entries are untouched and no old entry for the day survives. |
| Slots.UpsertLocalIdempotent | src/hooks/useDoctorSchedules.ts:63-71 | Applying the same update twice equals applying it once. |
| ScheduleReport.CheckDoctorSchedules | src/utils/checkDoctorSchedules.ts:3-51 | The imperative function returns exactly the specified report for every answer of the details call. |
| ScheduleReport.GroupRows | src/utils/checkDoctorSchedules.ts:15-35 | The forEach leaves a Map whose insertion order is the distinct doctor ids and which maps each id to its group. |
| ScheduleReport.ReadOut | src/utils/checkDoctorSchedules.ts:37 | Reading the Map's values out gives one group per key, in insertion order. |
| ScheduleReport.ReadOutGroups | src/utils/checkDoctorSchedules.ts:15-37 | The groups read out of the forEach's Map are the groups of the rows. |
| ScheduleReport.GroupedStep | src/utils/checkDoctorSchedules.ts:17-35 | One forEach iteration keeps the Map equal to the grouping of the rows seen so far. |
| ScheduleReport.GroupAppend | src/utils/checkDoctorSchedules.ts:18-34 | A new row adds its doctor id when unseen, and changes only its own doctor's group. |
| ScheduleReport.DistinctIdsMembership | src/utils/checkDoctorSchedules.ts:18-25 | A doctor id gets a group exactly when some row carries it. |
| ScheduleReport.EntriesAbsent | src/utils/checkDoctorSchedules.ts:27-34 | A doctor without rows has no schedule entries. |
| ScheduleReport.DistinctIdsCover | src/utils/checkDoctorSchedules.ts:15-25 | Every row's doctor id has a group, and every group's id comes from some row. |
| ScheduleReport.DistinctIdsUnique | src/utils/checkDoctorSchedules.ts:18-25 | There is exactly one group per doctor id. |
| ScheduleReport.DistinctIdsOrder | src/utils/checkDoctorSchedules.ts:15-37 | Groups come in the order of their doctors' first rows. |
| ScheduleReport.EntriesComplete | src/utils/checkDoctorSchedules.ts:27-34 | Every row with a schedule id contributes its entry to its doctor's group. |
| ScheduleReport.EntriesSound | src/utils/checkDoctorSchedules.ts:27-34 | Every entry of a group comes from a row of that doctor that has a schedule id. |
| ScheduleReport.SummaryTotals | src/utils/checkDoctorSchedules.ts:39-43 | totalDoctors is the number of groups, and totalSchedules is the sum of the groups' schedule counts. |
| ScheduleReport.CountIsSum | src/utils/checkDoctorSchedules.ts:40-41 | The count of rows with a schedule id equals the sum of the groups' schedule lengths. |
| ScheduleReport.SumStep | src/utils/checkDoctorSchedules.ts:27-41 | One more row raises both counts by one when it has a schedule id, and neither count otherwise. |
| ScheduleReport.DayLabelHead | src/utils/checkDoctorSchedules.ts:29 | Indices 0..6 get weekday names; any other index gets a "Day N" label. |
| ScheduleReport.DayLabelInjective | src/utils/checkDoctorSchedules.ts:29 | Different day indices get different labels. |
| ScheduleReport.IntToStringHead | src/utils/checkDoctorSchedules.ts:29 | A rendered index starts with '-' exactly when it is negative. |
| ScheduleReport.IntToStringInjective | src/utils/checkDoctorSchedules.ts:29 | Different indices render differently. |
| ScheduleReport.ReportCases | src/utils/checkDoctorSchedules.ts:8-49 | Null or empty data gives the "no schedules" message with no schedules. A thrown error gives an error report; a non-Error value reads "Unknown error". Otherwise the report holds the groups. |
| SchedulesPage.Combine | src/pages/DoctorSchedulesPage.tsx:66-81 | The join has one entry per doctor row, each the join of that doctor. |
| SchedulesPage.DoctorSchedulesPage.constructor | src/pages/DoctorSchedulesPage.tsx:22-24 | The page starts with no schedules, loading, and no error. |
| SchedulesPage.DoctorSchedulesPage.FetchSchedules | src/pages/DoctorSchedulesPage.tsx:26-90 | A successful fetch replaces the list and clears the error. A failure keeps the old list and sets a non-empty error. Loading ends false either way. |
| SchedulesPage.NoDoctorsNoEntries | src/pages/DoctorSchedulesPage.tsx:39-42 | No available doctors gives the empty list, whatever the later queries answer. |
| SchedulesPage.FailureMessageNonEmpty | src/pages/DoctorSchedulesPage.tsx:37-86 | A failure carries a non-empty message, and a doctors-query error always fails. |
| SchedulesPage.CombineShape | src/pages/DoctorSchedulesPage.tsx:66-71 | There is one entry per doctor row, in doctor order, carrying the doctor's id. A missing profile reads 'Unknown' / 'No email'. |
| SchedulesPage.SchedulesOfSound | src/pages/DoctorSchedulesPage.tsx:72-80 | Every schedule listed for a doctor comes from a schedule row carrying its id. |
| SchedulesPage.SchedulesOfComplete | src/pages/DoctorSchedulesPage.tsx:72-80 | Every schedule row carrying a doctor's id is listed for that doctor. |
| SchedulesPage.SchedulesOfLength | src/pages/DoctorSchedulesPage.tsx:72-80 | A doctor lists exactly as many schedules as there are rows carrying its id. |
| SchedulesPage.SchedulesOfAppend | src/pages/DoctorSchedulesPage.tsx:72-80 | Selecting a doctor's schedules from a concatenation concatenates the selections, so they keep the query's row order. |
| SchedulesPage.SchedulesOfOne | src/pages/DoctorSchedulesPage.tsx:72-80 | One row gives its entry exactly when it carries the doctor's id. |
| SchedulesPage.ProfileMapLastWins | src/pages/DoctorSchedulesPage.tsx:54 | The profile Map holds, for each id, the last profile carrying it. |
| SchedulesPage.ProfileMapKeys | src/pages/DoctorSchedulesPage.tsx:54 | The profile Map's keys are exactly the profiles' ids. |
| DoctorDashboard.DatePartPrefix | src/pages/DoctorDashboard.tsx:337-339 | The date part of a string is its prefix before the first 'T', or the whole string when there is none. |
| DoctorDashboard.Pad2Value | src/pages/DoctorDashboard.tsx:343-344 | padStart(2, '0') of 0..99 gives two digits that read back as the number. |
| DoctorDashboard.Pad2Injective | src/pages/DoctorDashboard.tsx:343-344 | Different numbers pad to different strings. |
| DoctorDashboard.DateStringFields | src/pages/DoctorDashboard.tsx:341-346 | A formatted date splits at '-' into the year, the 1-based two-digit month and the two-digit day. |
| DoctorDashboard.DateStringInjective | src/pages/DoctorDashboard.tsx:341-346 | Different calendar dates get different date strings. |
| DoctorDashboard.DatePartOfTimestamp | src/pages/DoctorDashboard.tsx:336-347 | The date part of an ISO timestamp whose date is a formatted date is that date string. |
| DoctorDashboard.InsertPermutation | src/pages/DoctorDashboard.tsx:378-382 | Inserting an appointment into a list only adds that appointment. |
| DoctorDashboard.InsertSorted | src/pages/DoctorDashboard.tsx:378-382 | Inserting into a list sorted by instant keeps it sorted. |
| DoctorDashboard.SortByInstantSorted | src/pages/DoctorDashboard.tsx:378-382 | The sort yields a list ascending by instant. |
| DoctorDashboard.SortByInstantPermutation | src/pages/DoctorDashboard.tsx:378-382 | The sort yields a permutation of its input. |
| DoctorDashboard.SortInPlace | src/pages/DoctorDashboard.tsx:378-382 | Sorting the matches array in place leaves the stable by-instant sort of its old contents. |
| DoctorDashboard.InsertAt | src/pages/DoctorDashboard.tsx:378-382 | One pass of the in-place sort inserts the next element into the sorted prefix and leaves the rest alone. |
| DoctorDashboard.MatchesSpec | src/pages/DoctorDashboard.tsx:352-375 | The matches are exactly the appointments with a scheduled_at whose date part equals the target, of any status, drawn from the list. |
| DoctorDashboard.AppointmentsForDateSpec | src/pages/DoctorDashboard.tsx:349-389 | A day's appointments are sorted by instant and are exactly the appointments on that date, of any status. |
| DoctorDashboard.RelativeTimeBands | src/pages/DoctorDashboard.tsx:285-299 | Under 60 s reads "Just now". Below 3600 s, 86400 s and 604800 s it reads ⌊s/60⌋ minutes, ⌊s/3600⌋ hours and ⌊s/86400⌋ days. Beyond that it shows a date. |
| DoctorDashboard.RelativeTimeMonotone | src/pages/DoctorDashboard.tsx:288-298 | As time passes, a label only moves to a coarser band. |
| DoctorDashboard.Words | src/pages/DoctorDashboard.tsx:319 | Every word is non-empty and free of whitespace; WordsCons says which words they are. |
| DoctorDashboard.WordsCons | src/pages/DoctorDashboard.tsx:319 | After leading whitespace, a maximal run of non-whitespace is the first word and the rest of the name gives the remaining words, in order. |
| DoctorDashboard.Initials | src/pages/DoctorDashboard.tsx:317-321 | Initials have at most two letters, and a missing name gives "". |
| DoctorDashboard.InitialsOneWord | src/pages/DoctorDashboard.tsx:317-321 | A one-word name, whatever whitespace surrounds it, has the upper-cased first letter of that word as initials. |
| DoctorDashboard.InitialsTwoWords | src/pages/DoctorDashboard.tsx:317-321 | A name of two or more words has the upper-cased first letters of its first two words as initials. |
| DoctorDashboard.WordsOfBlank | src/pages/DoctorDashboard.tsx:319 | A name has no words exactly when it is blank. |
| DoctorDashboard.InitialsOfBlank | src/pages/DoctorDashboard.tsx:317-321 | The initials are empty exactly when the name is blank. |
| DoctorDashboard.Types | src/pages/DoctorDashboard.tsx:239-260 | Each appointment yields one notification whose type is its status's type: pending→new_appointment; confirmed, cancelled and completed→themselves; other→new_appointment. |
| DoctorDashboard.UnreadCountsUnsettled | src/pages/DoctorDashboard.tsx:239-274 | The unread count is the number of appointments whose status is not confirmed, cancelled or completed, and never exceeds the number of notifications. |
| DoctorDashboard.DaysInMonth | src/pages/DoctorDashboard.tsx:328-329 | A month has 28 to 31 days. |
| DoctorDashboard.GetDaysInMonth | src/pages/DoctorDashboard.tsx:324-333 | A month's length is 28..31 and its first weekday is in 0..6; the lemmas below fix the weekday's value. |
| DoctorDashboard.EpochMonthThursday | src/pages/DoctorDashboard.tsx:324-333 | January 1970 starts on a Thursday (weekday 4). |
| DoctorDashboard.WeekdayOfInstant | src/pages/DoctorDashboard.tsx:324-333 | A date's calendar weekday equals the getDay weekday of every instant on that date, as the slot computation counts it. |
| DoctorDashboard.October2026 | src/pages/DoctorDashboard.tsx:324-333 | October 2026 has 31 days and starts on a Thursday. |
| DoctorDashboard.Normalize | src/pages/DoctorDashboard.tsx:392-396 | An out-of-range month rolls into the adjacent year, like the Date constructor. |
| DoctorDashboard.MonthNavigation | src/pages/DoctorDashboard.tsx:391-397 | Previous and next month roll over the year at January and December, and each undoes the other. |
| DoctorDashboard.YearLength | src/pages/DoctorDashboard.tsx:324-333 | The month lengths of a year add up to 365, or 366 in a leap year. |
| DoctorDashboard.YearStep | src/pages/DoctorDashboard.tsx:324-333 | Consecutive years start 365 or 366 days apart. |
| DoctorDashboard.NextMonthDays | src/pages/DoctorDashboard.tsx:324-333 | The next month starts exactly one month length after this one. |
| DoctorDashboard.NextMonthStartWeekday | src/pages/DoctorDashboard.tsx:324-333 | The next month's first weekday is this month's shifted by its length mod 7. |
| AdminDashboard.DoctorNames | src/pages/AdminDashboard.tsx:405-408 | There is one doctor name per appointment, in order. |
| AdminDashboard.NonEmptyMembership | src/pages/AdminDashboard.tsx:405-408 | The boolean filter keeps exactly the non-empty names. |
| AdminDashboard.DistinctMembership | src/pages/AdminDashboard.tsx:405-408 | The Set keeps exactly the names it was given. |
| AdminDashboard.ListedOnceMembership | src/pages/AdminDashboard.tsx:405-408 | A name is an option exactly when it occurs and is neither empty nor "—". |
| AdminDashboard.PipelineIsListedOnce | src/pages/AdminDashboard.tsx:405-408 | The filter→Set→filter pipeline equals the reference list of first occurrences of listed names. |
| AdminDashboard.ListedOnceUnique | src/pages/AdminDashboard.tsx:405-408 | The options are pairwise distinct. |
| AdminDashboard.ListedOnceOrder | src/pages/AdminDashboard.tsx:405-408 | The options come in the order of the names' first appearances. |
| AdminDashboard.DoctorFilterOptionsSpec | src/pages/AdminDashboard.tsx:405-408 | The options are the distinct doctor names of the appointments, minus "" and "—", in first-appearance order. |
| AdminDashboard.FilteredMembership | src/pages/AdminDashboard.tsx:410-417 | An appointment is shown exactly when it passes the doctor, type and status filters, each "all" acting as a wildcard. |
| AdminDashboard.FilteredAppend | src/pages/AdminDashboard.tsx:410-417 | The filter distributes over concatenation, so it keeps order. |
| AdminDashboard.FilteredAllIsIdentity | src/pages/AdminDashboard.tsx:410-417 | With all three filters at "all" the table shows every appointment. |
| AdminDashboard.CountsPartition | src/pages/AdminDashboard.tsx:458-525 | The four status counts and the other-status count add up to the total. confirmedToday plus completedToday is at most the today count, and each is at most its status count. |
| AdminDashboard.SumFees | src/pages/AdminDashboard.tsx:575-579 | The forEach accumulates exactly the revenue of the paid appointments. |
| AdminDashboard.FeeMapLastWins | src/pages/AdminDashboard.tsx:572 | The fee Map holds each doctor's last row's fee, with a null fee read as 0. |
| AdminDashboard.FeeMapKeys | src/pages/AdminDashboard.tsx:572 | The fee Map's keys are exactly the doctors' user ids. |
| AdminDashboard.FeeOfDoctor | src/pages/AdminDashboard.tsx:572-578 | A paid appointment's fee is its doctor's fee, or 50 when that fee is null or 0. |
| AdminDashboard.FeeOfMissing | src/pages/AdminDashboard.tsx:576-578 | A missing doctor id, or a doctor without a row, counts 50. |
| AdminDashboard.RevenueAppend | src/pages/AdminDashboard.tsx:575-579 | Revenue is additive over the paid appointments. |
| AdminDashboard.RevenueAllDefault | src/pages/AdminDashboard.tsx:575-579 | Without any fee rows, revenue is 50 per paid appointment. |
| AdminDashboard.RevenueStats.constructor | src/pages/AdminDashboard.tsx:541-585 | The stats start at zero. |
| AdminDashboard.RevenueStats.CalculateOnlineRevenue | src/pages/AdminDashboard.tsx:541-585 | A failed paid query changes nothing. Otherwise the paid count is the number of rows. Revenue is 0 without doctor ids, is kept on a failed fee query, and is otherwise the sum of fees. |
| AdminDashboard.KeepWithinMembership | src/pages/AdminDashboard.tsx:626-634 | An item is kept exactly when its date lies within the bounds. |
| AdminDashboard.KeepWithinAppend | src/pages/AdminDashboard.tsx:626-634 | The range filter keeps order. |
| AdminDashboard.OnDay | src/pages/AdminDashboard.tsx:626-634 | An instant falls on a day exactly when it lies from that day's midnight through its last millisecond. |
| AdminDashboard.InclusiveRangeByDay | src/pages/AdminDashboard.tsx:626-634 | With the end of day taken as the end bound, an item is kept exactly when its date falls on a day from start to end inclusive. |
| AdminDashboard.DateRangeBounds | src/pages/AdminDashboard.tsx:626-634 | With no bounds both the as-written and the corrected filter return the items unchanged. With a bound, only items with a parsable date survive. |
| AdminDashboard.EndDayExcluded | src/pages/AdminDashboard.tsx:626-634 | As written, an item at 09:00 on the end day is dropped from a one-day range. |
| AdminDashboard.Cells | src/pages/AdminDashboard.tsx:708-710 | A row yields one cell per header, in header order. |
| AdminDashboard.Lines | src/pages/AdminDashboard.tsx:706-711 | There is one CSV line per data row, made of its cells joined by ','. |
| AdminDashboard.CellSingleLine | src/pages/AdminDashboard.tsx:708-710 | A cell whose value has no newline is a single line. |
| AdminDashboard.CsvLines | src/pages/AdminDashboard.tsx:697-711 | Non-empty data gives a CSV that starts with the first row's keys joined by ',' and, for single-line values, has exactly one line per row plus the header. |
| AdminDashboard.CsvHeader | src/pages/AdminDashboard.tsx:706-707 | Comma-free keys are recovered from the header line. |
| AdminDashboard.CellQuoted | src/pages/AdminDashboard.tsx:708-710 | Every cell is wrapped in '"'. Missing and falsy values give the empty quoted cell. |
| AdminDashboard.DeleteSpecialtySpec | src/pages/AdminDashboard.tsx:935-970 | A specialty with doctors is refused without a confirmation or a delete request. Otherwise it is deleted exactly when the admin confirms and the delete succeeds, and a failure carries a non-empty message. |
| AdminDashboard.CheckNewAdminSpec | src/pages/AdminDashboard.tsx:973-990 | Admin creation proceeds exactly when first name, last name, email and password are non-blank and the password has at least 6 UTF-16 code units. Blank fields are reported first. |
| AdminDashboard.AstralAdminPassword | src/pages/AdminDashboard.tsx:983-990 | A password of three emoji above U+FFFF (six code units) passes the length guard. |
| AdminDashboard.IdeographicSpaceRefused | src/pages/AdminDashboard.tsx:973-990 | A first name made of ideographic spaces is blank and refused. |
| AdminDashboard.UpdateStatus | src/pages/AdminDashboard.tsx:1199-1210 | The local status update keeps the list's length. |
| AdminDashboard.UpdateStatusSpec | src/pages/AdminDashboard.tsx:1199-1210 | Only the appointment with the matching id changes, and only its status. Applying the update twice equals applying it once. |
| AdminDashboard.ToggleCampaign | src/pages/AdminDashboard.tsx:2688-2697 | The toggled status is "active" or "scheduled" and always differs from the old one. |
| AdminDashboard.ToggleCampaignInvolution | src/pages/AdminDashboard.tsx:2688-2697 | Toggling twice restores the status exactly when it was "active" or "scheduled". |
| Booking.NextStepRules | src/pages/BookAppointment.tsx:208-226 | The wizard advances by exactly one step or stays. Step 1 needs name, phone and email; step 2 needs clinic, symptoms and, online, a doctor; online step 3 needs a date and a time. |
| Booking.OfflineStepThreeFree | src/pages/BookAppointment.tsx:221-225 | The step-3 date-and-time guard does not apply to hospital and home visits. |
| Booking.ReconciledSelectionOffered | src/pages/BookAppointment.tsx:111-126 | After loading, a selection exists exactly when slots exist and is one of them. A still-offered selection is kept, and the first slot is selected when there was none. |
| Booking.SelectionRulesAgree | src/pages/BookAppointment.tsx:111-126 | The corrected and the as-written rules agree except when the old selection is not offered. |
| Booking.StaleSelectionAfterDoctorChange | src/pages/BookAppointment.tsx:111-126 | As written, 09:00 stays selected after a doctor change whose list offers only 10:00. |
| Booking.ScheduledAtChoice | src/pages/BookAppointment.tsx:231-251 | The selected slot is booked exactly for online visits with a date and a time. Otherwise the submission time is used. |
| Booking.BookingWizard.constructor | src/pages/BookAppointment.tsx:25-35 | The wizard starts at step 1 with no date, time or slots. |
| Booking.BookingWizard.HandleNext | src/pages/BookAppointment.tsx:208-226 | Next, offered only before the last step, applies the step rules and changes nothing else. |
| Booking.BookingWizard.Back | src/pages/BookAppointment.tsx:690-691 | Back, offered only after step 1, moves one step back. |
| Booking.BookingWizard.HandleDateSelect | src/pages/BookAppointment.tsx:142-168 | Clearing the date clears date and time. A new date is taken at noon and resets the time. |
| Booking.BookingWizard.SelectClinic | src/pages/BookAppointment.tsx:477 | Choosing a clinic resets the doctor. |
| Booking.BookingWizard.SelectDoctor | src/pages/BookAppointment.tsx:502 | Choosing a doctor changes only the doctor. |
| Booking.BookingWizard.SelectTime | src/pages/BookAppointment.tsx:590 | A slot button selects that listed slot. |
| Booking.BookingWizard.LoadAvailableSlots | src/pages/BookAppointment.tsx:99-140 | A missing date or doctor clears slots and time without a query. An answer replaces the list and reconciles the selection. A failure clears both. The selected time stays among the offered slots. |
| Auth.RedirectTarget | src/pages/Auth.tsx:17 | The redirect parameter falls back to "/" when absent or empty. |
| Auth.HonoursRedirectIsBookingLink | src/pages/Auth.tsx:47-48 | The redirect is honoured exactly when it contains "/book/": non-empty and not "/" then hold automatically. |
| Auth.DashboardPathCases | src/pages/Auth.tsx:47-57 | A booking link is followed whatever the role. Otherwise doctor and admin get their dashboards and any other or missing role the patient one. The default "/" is never followed. |
| Auth.BookingLinkFollowed | src/pages/Auth.tsx:47-48 | "/book/online" is followed. |
| Auth.AutoRedirectWaits | src/pages/Auth.tsx:44-61 | The automatic redirect fires exactly when a user id is set, the role has loaded and the role is non-empty, and it goes to the dashboard path. |
| Auth.CheckRegisterSpec | src/pages/Auth.tsx:82-90 | Registration proceeds exactly for equal passwords of at least 6 UTF-16 code units. A mismatch is reported before the length. |
| Auth.AstralPasswordLongEnough | src/pages/Auth.tsx:87-90 | A password of three emoji above U+FFFF is six code units long and passes the length guard. |
| Auth.RegisterResultSpec | src/pages/Auth.tsx:113-142 | Registration succeeds exactly when the sign-up returns a user id and the role row is stored. A missing id gives "User creation failed", and an empty error message falls back to "Failed to register. Please try again.". |
| Auth.LoginResultSpec | src/pages/Auth.tsx:165-197 | A login succeeds exactly when sign-in reports no error. It then navigates to the dashboard path, the same target as the automatic redirect. An empty error message falls back to "Invalid credentials. Please try again.". |
| Auth.AuthPage.constructor | src/pages/Auth.tsx:79-199 | The page starts idle with no calls made. |
| Auth.AuthPage.HandleRegister | src/pages/Auth.tsx:79-145 | A failed guard returns its message before any sign-up call and without touching the busy flag. Otherwise one sign-up is made, a role row insert is requested exactly when a user id came back, whether or not it then fails, the outcome is RegisterResult's, and loading ends false. |
| Auth.AuthPage.HandleLogin | src/pages/Auth.tsx:147-199 | An empty email or password is rejected before any sign-in call. Otherwise one sign-in is made, the outcome is LoginResult's toast or navigation, and loading ends false. |
| ProtectedRoute.GuardSpec | src/components/ProtectedRoute.tsx:16-46 | While loading, only the spinner shows and nothing navigates. Loaded without a user, the guard goes to /auth. The page renders exactly for a user with a non-empty allowed role, and then nothing navigates. |
| ProtectedRoute.NoRoleNoRedirect | src/components/ProtectedRoute.tsx:23-46 | A signed-in user with a null or empty role sees nothing and is not redirected. |
| ProtectedRoute.RedirectMatchesSignIn | src/components/ProtectedRoute.tsx:23-30 | A role outside the allowed ones is sent to its own dashboard, the same one the sign-in page chooses. |
| AddDoctor.FormErrorsSpec | src/components/admin/AddDoctorDialog.tsx:34-46 | The form is valid exactly for a valid email, a password of 6+, names of 2+, a phone of 10+, and non-empty specialty, licence, experience and fee. Other name and gender never matter. |
| AddDoctor.EmptyFormRejected | src/components/admin/AddDoctorDialog.tsx:75-88 | The default (empty) form breaks every required rule. |
| AddDoctor.SpecialtyOptions | src/components/admin/AddDoctorDialog.tsx:344 | The dropdown is never empty and lists the fetched specialties whenever there are any. |
| AddDoctor.DefaultChoiceUpsertsName | src/components/admin/AddDoctorDialog.tsx:65-133 | With nothing fetched, a chosen default has its name as id, is not found, and is upserted by that name. |
| AddDoctor.ResolveSpecialtySpec | src/components/admin/AddDoctorDialog.tsx:121-160 | A fetched id is used as is, whatever the upsert would answer. Otherwise the upserted id is used. An upsert error stops quietly exactly when it is a missing-table error; any other failure carries a non-empty message. |
| AddDoctor.SubmitSpec | src/components/admin/AddDoctorDialog.tsx:90-210 | A doctor is added exactly when every step succeeds, for the created user and the resolved specialty. A quiet stop happens only for a missing specialties or doctors table. |
| AddDoctor.AddDoctorDialog.constructor | src/components/admin/AddDoctorDialog.tsx:61-88 | The dialog starts idle, open, with the empty form. |
| AddDoctor.AddDoctorDialog.OnSubmit | src/components/admin/AddDoctorDialog.tsx:90-210 | A success resets the form and closes the dialog; a stop or error leaves both. Loading is off at the end either way. |

## Left out

- Database traffic (queries, RPCs, inserts, updates, deletes, sign-up and sign-in, storage) is not executed. Each answer is a parameter: rows, data, or an error.
- Time zones, DST, ISO-string parsing and `toDateString`/`toISOString` formatting. Instants are integers on the local axis, and "now" is a parameter.
- Locale formatting: `toLocaleDateString` in relative times beyond a week, time labels, and date-fns `format`.
- Floating point: `parseFloat` of the consultation fee, percentages, `toFixed` and ages.
- Concurrency and React scheduling: `Promise.all`, effects firing, stale responses and `setTimeout` delays.
- UI: toasts, navigation side effects, icons, and the Blob download of the CSV. The handlers' outcomes name the toast's message or the navigation target instead.
- The availability RPC `checkAvailability` (src/hooks/useDoctorSchedules.ts:87-100) is only a service call.
- Whether the schedule-list update fires after a `.single()` upsert is not modelled; the list update itself is.
- The patient-profile Map filled by a forEach in the doctor dashboard (src/pages/DoctorDashboard.tsx:129-131) feeds only display names; the same last-wins Map shape is modelled as `SchedulesPage.ProfileMapLastWins` and `AdminDashboard.FeeMapLastWins`.
- Notification message texts (src/pages/DoctorDashboard.tsx:243-259) embed locale-formatted dates; only the types are modelled.
- Payment pages, the index and not-found pages, the patient dashboard, the thin fetch hooks and the admin-creation script are not part of this model.
- Slots.ParseInt: JavaScript's parseInt skips leading whitespace and accepts an optional sign and ASCII decimal digits, and so does the model; a value beyond 2^53 is not rounded.
- AddDoctor.FormErrors: the email rule is the form library's format check, entered as a flag. Lengths count characters rather than UTF-16 code units.
- AddDoctor.Submit: the sign-up's extra profile fields and the doctor row's parsed numbers are not carried; only whether each call succeeds, and its error code and message, are.
- AdminDashboard.Csv: quotes inside values are not escaped in the source, and the model renders them the same way; `CsvLines` is stated only for values without newlines.
- DoctorDashboard.Initials: upper-casing covers ASCII letters only; other scripts keep their case. A word's first letter is its first character, while `p[0]` in the source is a UTF-16 code unit, so a letter outside the Basic Multilingual Plane would give half a surrogate pair there.
- Booking.BookingWizard.LoadAvailableSlots: the wizard uses the corrected selection rule (see Findings). The rule as written is `Booking.KeptSelection`.
- AdminDashboard.FilterByDateRange: the dashboard's filter is modelled as written. The corrected end-of-day bound is `AdminDashboard.FilterByDateRangeInclusive` (see Findings).

## Findings

| source | as written | input that shows it | evidently intended | confidence | as-written member | corrected member |
|---|---|---|---|---|---|---|
| src/pages/BookAppointment.tsx:111-126 | After reloading slots, a non-empty list selects its first slot only when no time is selected, so an existing selection is kept even when the new list does not offer it | Select 09:00 with doctor A, then switch to doctor B who offers only 10:00 that day: 09:00 stays selected and can be submitted | Keep the selection only while the new list offers it; otherwise select the first slot | not executed | Booking.KeptSelection, Booking.StaleSelectionAfterDoctorChange | Booking.ReconciledSelection, Booking.ReconciledSelectionOffered |
| src/pages/AdminDashboard.tsx:626-634 | The end date is parsed as midnight at the start of the end day, so items later that day fall outside the range | Start and end both set to day 10; an appointment at 09:00 on day 10 is filtered out | Include the whole end day (up to its last millisecond) | not executed | AdminDashboard.FilterByDateRange, AdminDashboard.EndDayExcluded | AdminDashboard.FilterByDateRangeInclusive, AdminDashboard.InclusiveRangeByDay |
