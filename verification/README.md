# Ramadhan Tracker: score, streak, upsert and leaderboard in Dafny

The tracker keeps, for each of four family members, a list of daily
records. Each record holds three flags: puasa (fasting), ngaji (Qur'an
study) and olahraga (exercise). From these records it derives two values:

- a **score**: 10 points for each puasa, 5 for each ngaji and 3 for each
  olahraga;
- a **streak**: the number of consecutive days, ending today, that have a
  record with at least one flag set.

Ticking a checkbox runs `updateActivity`, an upsert on the selected date
followed by a recomputation of that member's score and streak. The
leaderboard lists members by descending score.

This project models that logic as immutable datatypes and pure functions,
and proves the properties the tracker relies on.

- `activity.dfy` (`Activity`): the `Record` and `Member` shapes, the flags,
  `find` (the first record with a date), and the set of recorded dates.
- `score.dfy` (`Score`): per-record points, the score as a sum, and
  `calculateScore` as the left-to-right `reduce` loop.
- `streak.dfy` (`Streak`): the streak as a recursive walk back from a day,
  and `calculateStreak` as the source's `while (true)` loop. The recursion
  terminates because each counted day is a recorded date, so the number of
  recorded dates not later than the current day shrinks at each step. The
  loop's termination measure is the part of the streak still ahead of it.
- `roster.dfy` (`Roster`): the upsert, the per-member and whole-roster
  update, the member invariant and the initial roster.
- `leaderboard.dfy` (`Leaderboard`): the order by descending score as a
  stable insertion sort, and the proof that this order is the only
  stable one.
- `scenarios.dfy` (`Scenarios`): small worked examples.

Modelling choices:

- Dates are integer day numbers. Two ISO date strings are equal exactly
  when their day numbers are, and "one day earlier" is `d - 1`.
- "Today" is a parameter of the streak. The source reads it from the
  wall clock.
- The selected date is a parameter of the update. The source reads it
  from UI state.

Two consequences of the code worth stating:

- The upsert is a `.map`, so it sets the flag on *every* record dated the
  selected day. The existence test and the streak lookup use `find`, which
  returns the *first* such record. The two agree whenever dates are
  unique, and `Roster.UpdatePreservesUniqueDates` proves that the update
  keeps them unique.
- Only the updated member's score and streak are recomputed. Every other
  member keeps its stored streak, even when "today" has moved on since that
  streak was computed. For this reason `Roster.UpdateRosterConsistent`
  preserves the member invariant only for an unchanged "today".

## Model

| member | source | states |
|---|---|---|
| Activity.WithFlag | src/app/page.tsx:61 | the spread `{ ...a, [activity]: value }` keeps the date, sets the named flag to `value` and leaves the other two flags as they were |
| Activity.Fresh | src/app/page.tsx:68-73 | a record created by the first tick of a day carries the selected date, has the ticked flag equal to `value`, and has the other two flags false (they are not inherited) |
| Activity.FirstIndex | src/app/page.tsx:67 | the position `find` stops at: every earlier record has another date, and the record at that position (if there is one) has the searched date |
| Activity.Find | src/app/page.tsx:103 | `find` returns nothing exactly when no record has the date; otherwise it returns the first record of the list with that date |
| Activity.DatesCardinality | src/app/page.tsx:9-14 | there are at most as many distinct recorded dates as records, and exactly as many when each date appears once |
| Score.Points | src/app/page.tsx:89-93 | a record earns between 0 and 18 points; it earns 0 exactly when no flag is set and 18 exactly when all three are set |
| Score.PointsPerFlag | src/app/page.tsx:90-92 | each flag adds its own weight (10, 5 or 3) to a record's points, whatever the other flags are |
| Score.PointsChange | src/app/page.tsx:89-93 | changing one flag of a record to `value` removes that flag's weight if it was set and adds it if `value` is true |
| Score.Total | src/app/page.tsx:87-94 | the score of n records lies between 0 and 18·n |
| Score.TotalZero | src/app/page.tsx:87-94 | the score is 0 exactly when no record has a flag set; in particular the score of no records is 0 |
| Score.TotalAppend | src/app/page.tsx:88-94 | the score of two record lists placed one after the other is the sum of their scores |
| Score.TotalRemove | src/app/page.tsx:88-94 | taking one record out of a list takes exactly its points out of the score |
| Score.TotalReplace | src/app/page.tsx:88-94 | replacing one record of a list, and leaving the others in place, changes the score by exactly the difference of that record's points |
| Score.TotalPermutation | src/app/page.tsx:88-94 | any reordering of the same records has the same score, so the score does not depend on entry order |
| Score.CalculateScore | src/app/page.tsx:87-94 | the `reduce` loop that starts at 0 and adds each record's points yields the score, bounded by 18 per record |
| Streak.DatesUpToShrinks | src/app/page.tsx:102-111 | each step of the walk past a qualifying day removes that day from the recorded dates still ahead, which is why `while (true)` stops |
| Streak.StreakFrom | src/app/page.tsx:97-114 | the streak n from a day means that this day and the n-1 days before it all qualify, and the day n days earlier does not |
| Streak.StreakStep | src/app/page.tsx:103-110 | one step of the walk: a day whose `find` result is missing or has no flag set gives streak 0; any other day gives 1 plus the streak of the day before |
| Streak.StreakUnique | src/app/page.tsx:97-114 | any count with that property is the streak, so the recursive characterisation determines it |
| Streak.StreakBound | src/app/page.tsx:102-111 | the streak is at most the number of recorded dates up to the start day, hence at most the number of distinct recorded dates and at most the number of records |
| Streak.StreakAgrees | src/app/page.tsx:103-104 | the streak depends only on whether the days it inspects qualify: two record lists that agree on those days have equal streaks |
| Streak.CalculateStreak | src/app/page.tsx:97-114 | the backward walk from today terminates; its count covers only qualifying days, stops at the first day that does not qualify, is at most the number of distinct recorded dates, and equals the recursive streak |
| Roster.UpdateActivities | src/app/page.tsx:59-74 | if a record for the selected date exists, the list keeps its length and only the named flag of the records of that date changes; otherwise exactly one record is appended, after the unchanged old records, with the selected date, the named flag equal to `value` and the other flags false |
| Roster.UpdateKeepsDates | src/app/page.tsx:59-74 | the update never moves a record to another date; any appended record carries the selected date |
| Roster.UpdateDates | src/app/page.tsx:59-74 | after the update the recorded dates are the old ones plus the selected date |
| Roster.UpdatePreservesUniqueDates | src/app/page.tsx:66-74 | the find-or-create upsert never creates a second record for a date |
| Roster.UpdateReadBack | src/app/page.tsx:59-74 | after the update, looking up the selected date finds a record whose named flag is `value`; looking up any other date finds what it found before |
| Roster.UpdateIdempotent | src/app/page.tsx:59-74 | applying the same tick twice leaves the same records as applying it once |
| Roster.UpdateReplacesOne | src/app/page.tsx:59-64 | with one record per date, updating an existing date changes exactly one record, the one `find` returns, and changes only its named flag |
| Roster.UpdateScore | src/app/page.tsx:59-79 | with one record per date, the new score is the old score minus the flag's weight if it was set, plus the weight if `value` is true |
| Roster.UpdateOutsideStreak | src/app/page.tsx:97-114 | ticking a day after today, or a day before the first gap of the streak, leaves the streak unchanged |
| Roster.UpdateMember | src/app/page.tsx:58-83 | a member with another id comes back unchanged; the matched member keeps its id, name and avatar, gets the upserted records, and gets the score and streak derived from those records |
| Roster.UpdateRoster | src/app/page.tsx:57-84 | the roster keeps its length, order and ids; members with other ids are untouched; a matched member keeps its name and avatar, gets the upserted records and shows the score and streak of those records; an unknown id leaves the whole roster unchanged |
| Roster.UpdateActivity | src/app/page.tsx:56-85 | the pass over the roster that calls the score and streak loops gives the same roster as the functional update: members with other ids unchanged, the matched member with the upserted records and the score and streak derived from them |
| Roster.UpdateRosterConsistent | src/app/page.tsx:57-84 | if every member has one record per date and shows the score and streak of its records, this stays true after an update on the same day, and ids stay unique |
| Roster.UpdateRosterIdempotent | src/app/page.tsx:57-84 | repeating a roster update with the same arguments changes nothing |
| Roster.InitialRoster | src/app/page.tsx:17-50 | the starting roster has four members with distinct ids and no records, and for every choice of today each member is consistent |
| Leaderboard.Insert | src/app/page.tsx:152 | inserting a member into a list ordered by descending score keeps the order and adds exactly that member |
| Leaderboard.InsertStable | src/app/page.tsx:152 | among the members with any one score, the inserted member comes before those already in the list |
| Leaderboard.SortByScore | src/app/page.tsx:151-152 | the leaderboard is a permutation of the roster with scores non-increasing |
| Leaderboard.SortStable | src/app/page.tsx:152 | the sort is stable: for every score, the members with that score appear in the leaderboard in their roster order |
| Leaderboard.SortedUnique | src/app/page.tsx:152 | two orders by descending score that keep the same relative order among equal scores are identical |
| Leaderboard.LeaderboardDetermined | src/app/page.tsx:151-152 | every stable order by descending score equals the leaderboard, whatever stable algorithm produces it |
| Scenarios.NoRecords | src/app/page.tsx:87-114 | a member without records has score 0 and streak 0 |
| Scenarios.OneDay | src/app/page.tsx:87-114 | fasting alone today gives 10 points and a streak of 1; all three rituals on one day give 18 points |
| Scenarios.TwoDays | src/app/page.tsx:97-114 | two qualifying days ending today give a streak of 2; an all-false day just before today cuts the streak to 1 |
| Scenarios.FirstTick | src/app/page.tsx:56-85 | the first fasting tick for the second member of the initial roster creates one fresh record, gives score 10 and streak 1, and leaves the first member untouched |
| Scenarios.TiesKeepRosterOrder | src/app/page.tsx:151-152 | for scores 30, 10 and 30, the two members on 30 come first, in roster order |

## Left out

- Rendering is not modelled: the JSX, the checkbox and date-input event wiring, and the `useState` hooks and their update semantics (src/app/page.tsx:53-54, 116-223). The checkbox's read-back of the selected day's flag corresponds to `Roster.UpdateReadBack`.
- The wall clock and date strings are not modelled: `new Date()`, `toISOString().split('T')[0]`, `setDate` and the time-zone and daylight-saving behaviour of the JavaScript runtime (src/app/page.tsx:54, 98, 108-110). Dates are day numbers, "today" is a parameter, and "the day before" is `d - 1`. This costs fidelity at an autumn daylight-saving change: `new Date(iso)` is midnight UTC while `setDate(getDate() - 1)` steps in local time, so the source's walk skips a calendar day there (in Europe/Berlin it goes from 2024-10-28 to 2024-10-26, in America/New_York from 2024-11-04 to 2024-11-02), where the model steps by exactly one day.
- The model does not show that `.sort` mutates the members state array in place (src/app/page.tsx:152). The sort is a pure function. Because of that mutation, "roster order" for ties in the source means the order left by the previous render.
- Scores and streaks are JavaScript numbers (doubles). They are modelled as unbounded integers. Every score the tracker can reach is far below 2^53, so double arithmetic is exact for them.
- src/app/layout.tsx holds only page metadata and the HTML wrapper, and is not part of this model.
