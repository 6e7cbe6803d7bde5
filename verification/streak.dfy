/**
  The streak of a member: the number of consecutive qualifying days that
  ends at "today" (src/app/page.tsx, `calculateStreak`). The source reads
  today from the wall clock; here it is a parameter.
 */
module Streak {
  import opened Activity

  /** Walking back from `day`, a qualifying day is always a recorded date,
      so stepping to the day before drops `day` from the recorded dates
      still ahead of the walk. */
  lemma DatesUpToShrinks(acts: seq<Record>, day: int)
    requires Qualifies(acts, day)
    ensures DatesUpTo(acts, day - 1) == DatesUpTo(acts, day) - {day}
    ensures day in DatesUpTo(acts, day)
    ensures |DatesUpTo(acts, day - 1)| < |DatesUpTo(acts, day)|
  {
    var i := FirstIndex(acts, day);
    assert acts[i].date == day;
  }

  /** The streak from `day` backwards: the qualifying days are exactly
      `day - n + 1 .. day`, and `day - n` does not qualify. */
  function StreakFrom(acts: seq<Record>, day: int): (n: nat)
    ensures forall d :: day - n < d <= day ==> Qualifies(acts, d)
    ensures !Qualifies(acts, day - n)
    decreases |DatesUpTo(acts, day)|
  {
    if Qualifies(acts, day) then
      DatesUpToShrinks(acts, day);
      StreakExtends(acts, day, StreakFrom(acts, day - 1));
      1 + StreakFrom(acts, day - 1)
    else 0
  }

  /** A run of qualifying days ending the day before a qualifying day
      extends to that day. */
  lemma StreakExtends(acts: seq<Record>, day: int, n: nat)
    requires Qualifies(acts, day)
    requires forall d :: day - 1 - n < d <= day - 1 ==> Qualifies(acts, d)
    requires !Qualifies(acts, day - 1 - n)
    ensures forall d :: day - (n + 1) < d <= day ==> Qualifies(acts, d)
    ensures !Qualifies(acts, day - (n + 1))
  {
  }

  /** The characterisation in `StreakFrom`'s contract determines the
      streak: a count with that property is the streak. */
  lemma StreakUnique(acts: seq<Record>, day: int, n: nat)
    requires forall d :: day - n < d <= day ==> Qualifies(acts, d)
    requires !Qualifies(acts, day - n)
    ensures n == StreakFrom(acts, day)
  {
  }

  /** Every counted day is a distinct recorded date, so the streak is at
      most the number of recorded dates up to `day`, hence at most the
      number of distinct recorded dates and of records. */
  lemma {:induction false} StreakBound(acts: seq<Record>, day: int)
    ensures StreakFrom(acts, day) <= |DatesUpTo(acts, day)|
    ensures StreakFrom(acts, day) <= |Dates(acts)| <= |acts|
    decreases |DatesUpTo(acts, day)|
  {
    if Qualifies(acts, day) {
      DatesUpToShrinks(acts, day);
      StreakBound(acts, day - 1);
    }
    DatesUpToSubset(acts, day);
    DatesCardinality(acts);
  }

  /** The recorded dates up to `day` are among all recorded dates. */
  lemma DatesUpToSubset(acts: seq<Record>, day: int)
    ensures |DatesUpTo(acts, day)| <= |Dates(acts)|
  {
    var upTo, all := DatesUpTo(acts, day), Dates(acts);
    assert upTo <= all;
    var later := all - upTo;
    assert all == upTo + later;
    assert upTo * later == {};
  }

  /** Two record lists on which the days `day - n .. day` qualify alike,
      with `n` the streak of the first, have the same streak from `day`. */
  lemma StreakAgrees(a: seq<Record>, b: seq<Record>, day: int)
    requires forall d :: day - StreakFrom(a, day) <= d <= day ==> (Qualifies(a, d) <==> Qualifies(b, d))
    ensures StreakFrom(b, day) == StreakFrom(a, day)
  {
    StreakUnique(b, day, StreakFrom(a, day));
  }

  /** One step of the walk: a day with no record, or whose record has no
      flag set, ends the streak; any other day adds one to the streak of
      the day before. */
  lemma StreakStep(acts: seq<Record>, day: int)
    ensures StreakFrom(acts, day) == match Find(acts, day)
                                     case None => 0
                                     case Some(r) => if Active(r) then 1 + StreakFrom(acts, day - 1) else 0
  {
  }

  /** `calculateStreak`: the unbounded backward walk from today. It
      terminates because the streak still ahead of the walk, finite by
      `StreakFrom`'s termination on recorded dates, drops by one per step. */
  method CalculateStreak(acts: seq<Record>, today: int) returns (streak: int)
    ensures 0 <= streak <= |Dates(acts)|
    ensures forall d :: today - streak < d <= today ==> Qualifies(acts, d)
    ensures !Qualifies(acts, today - streak)
    ensures streak == StreakFrom(acts, today)
  {
    streak := 0;
    var currentDate := today;
    while true
      invariant 0 <= streak && currentDate == today - streak
      invariant streak + StreakFrom(acts, currentDate) == StreakFrom(acts, today)
      decreases StreakFrom(acts, currentDate)
    {
      var activity := Find(acts, currentDate);
      if activity.None? || (!activity.value.puasa && !activity.value.ngaji && !activity.value.olahraga) {
        break;
      }
      StreakStep(acts, currentDate);
      streak := streak + 1;
      currentDate := currentDate - 1;
    }
    StreakBound(acts, today);
  }
}
