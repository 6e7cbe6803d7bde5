/**
  The roster of family members and the activity upsert
  (src/app/page.tsx, `familyMembers` and `updateActivity`). The date being
  edited and "today" are parameters; the source reads them from UI state
  and from the wall clock.
 */
module Roster {
  import opened Activity
  import opened Score
  import opened Streak

  /** The records after ticking flag `k` to `value` on `selected`: every
      record of that date gets the flag; if there was none, a fresh record
      is appended. */
  function UpdateActivities(acts: seq<Record>, selected: int, k: Kind, value: bool): (r: seq<Record>)
    ensures HasDate(acts, selected) ==>
      && |r| == |acts|
      && forall i :: 0 <= i < |acts| ==>
           if acts[i].date == selected then OnlyFlagChanged(acts[i], r[i], k, value) else r[i] == acts[i]
    ensures !HasDate(acts, selected) ==>
      && |r| == |acts| + 1
      && r[..|acts|] == acts
      && r[|acts|].date == selected
      && Flag(r[|acts|], k) == value
      && forall k' :: k' != k ==> !Flag(r[|acts|], k')
  {
    var updated := seq(|acts|, i requires 0 <= i < |acts| =>
      if acts[i].date == selected then WithFlag(acts[i], k, value) else acts[i]);
    if Find(acts, selected).None? then updated + [Fresh(selected, k, value)] else updated
  }

  /** The update keeps every record's date where it was. */
  lemma UpdateKeepsDates(acts: seq<Record>, selected: int, k: Kind, value: bool)
    ensures var r := UpdateActivities(acts, selected, k, value);
      && |acts| <= |r|
      && (forall i :: 0 <= i < |acts| ==> r[i].date == acts[i].date)
      && (forall i :: |acts| <= i < |r| ==> r[i].date == selected)
  {
  }

  /** The recorded dates after the update are those before plus `selected`. */
  lemma UpdateDates(acts: seq<Record>, selected: int, k: Kind, value: bool)
    ensures Dates(UpdateActivities(acts, selected, k, value)) == Dates(acts) + {selected}
  {
    var r := UpdateActivities(acts, selected, k, value);
    UpdateKeepsDates(acts, selected, k, value);
    forall d | d in Dates(r) ensures d in Dates(acts) + {selected} {
      var i :| 0 <= i < |r| && r[i].date == d;
      if i < |acts| { assert acts[i].date == d; }
    }
    forall d | d in Dates(acts) + {selected} ensures d in Dates(r) {
      if d in Dates(acts) {
        var i :| 0 <= i < |acts| && acts[i].date == d;
        assert r[i].date == d;
      } else {
        assert r[|r| - 1].date == d;
      }
    }
  }

  /** The upsert never creates a second record for a date. */
  lemma UpdatePreservesUniqueDates(acts: seq<Record>, selected: int, k: Kind, value: bool)
    requires UniqueDates(acts)
    ensures UniqueDates(UpdateActivities(acts, selected, k, value))
  {
    var r := UpdateActivities(acts, selected, k, value);
    UpdateKeepsDates(acts, selected, k, value);
    forall i, j | 0 <= i < j < |r| ensures r[i].date != r[j].date {
      if j >= |acts| {
        assert !HasDate(acts, selected);
        assert acts[i].date != selected;
      }
    }
  }

  /** Reading the selected date back after the update finds the toggled
      value; every other date reads back as before. */
  lemma UpdateReadBack(acts: seq<Record>, selected: int, k: Kind, value: bool, d: int)
    ensures var r := UpdateActivities(acts, selected, k, value);
      && Find(r, selected).Some?
      && Flag(Find(r, selected).value, k) == value
      && (d != selected ==> Find(r, d) == Find(acts, d))
  {
    var r := UpdateActivities(acts, selected, k, value);
    UpdateKeepsDates(acts, selected, k, value);
    var i := FirstIndex(acts, selected);
    FirstIndexUnique(r, selected, i);
    if d != selected {
      var j := FirstIndex(acts, d);
      if j < |acts| {
        FirstIndexUnique(r, d, j);
      } else {
        FirstIndexUnique(r, d, |r|);
      }
    }
  }

  /** Ticking the same flag to the same value twice is the same as once. */
  lemma UpdateIdempotent(acts: seq<Record>, selected: int, k: Kind, value: bool)
    ensures var once := UpdateActivities(acts, selected, k, value);
      UpdateActivities(once, selected, k, value) == once
  {
  }

  /** Editing a day the streak walk never reaches (after today, or before
      the first non-qualifying day) leaves the streak as it was. */
  lemma UpdateOutsideStreak(acts: seq<Record>, selected: int, k: Kind, value: bool, today: int)
    requires selected > today || selected < today - StreakFrom(acts, today)
    ensures StreakFrom(UpdateActivities(acts, selected, k, value), today) == StreakFrom(acts, today)
  {
    var r := UpdateActivities(acts, selected, k, value);
    forall d | today - StreakFrom(acts, today) <= d <= today
      ensures Qualifies(acts, d) <==> Qualifies(r, d)
    {
      UpdateReadBack(acts, selected, k, value, d);
    }
    StreakAgrees(acts, r, today);
  }

  /** With one record per date, an update of an existing date changes
      exactly one record, the first one of that date. */
  lemma UpdateReplacesOne(acts: seq<Record>, selected: int, k: Kind, value: bool)
    requires UniqueDates(acts) && HasDate(acts, selected)
    ensures var i := FirstIndex(acts, selected);
      var r := UpdateActivities(acts, selected, k, value);
      && i < |acts| == |r|
      && OnlyFlagChanged(acts[i], r[i], k, value)
      && forall j :: 0 <= j < |acts| && j != i ==> r[j] == acts[j]
  {
    var i := FirstIndex(acts, selected);
    forall j | 0 <= j < |acts| && j != i ensures acts[j].date != selected {
    }
  }

  /** With one record per date, ticking a flag changes the score by exactly
      that flag's weight, and clearing it takes the weight away. */
  lemma UpdateScore(acts: seq<Record>, selected: int, k: Kind, value: bool)
    requires UniqueDates(acts)
    ensures var before := match Find(acts, selected)
                          case None => false
                          case Some(x) => Flag(x, k);
      Total(UpdateActivities(acts, selected, k, value))
        == Total(acts) - (if before then Weight(k) else 0) + (if value then Weight(k) else 0)
  {
    var r := UpdateActivities(acts, selected, k, value);
    if HasDate(acts, selected) {
      var i := FirstIndex(acts, selected);
      UpdateReplacesOne(acts, selected, k, value);
      TotalReplace(acts, r, i);
      PointsChange(acts[i], r[i], k, value);
    } else {
      var added := r[|acts|];
      assert r == acts + [added];
      TotalAppend(acts, [added]);
      PointsChange(Record(selected, false, false, false), added, k, value);
    }
  }

  /** The score and the streak a member shows are the ones derived from
      its records, with the streak counted back from `today`. */
  predicate Recomputed(m: Member, today: int)
  {
    m.score == Total(m.activities) && m.streak == StreakFrom(m.activities, today)
  }

  /** The invariant of a member: one record per date and derived values
      that agree with the records. */
  predicate Consistent(m: Member, today: int)
  {
    UniqueDates(m.activities) && Recomputed(m, today)
  }

  /** No two members share an id. */
  predicate UniqueIds(members: seq<Member>)
  {
    forall i, j :: 0 <= i < j < |members| ==> members[i].id != members[j].id
  }

  /** One member's part of `updateActivity`: the member named `memberId`
      gets the upserted records and freshly derived score and streak; any
      other member is returned as it was. */
  function UpdateMember(m: Member, memberId: string, selected: int, k: Kind, value: bool, today: int): (m': Member)
    ensures m.id != memberId ==> m' == m
    ensures m.id == memberId ==>
      && m'.id == m.id && m'.name == m.name && m'.avatar == m.avatar
      && m'.activities == UpdateActivities(m.activities, selected, k, value)
      && Recomputed(m', today)
  {
    if m.id == memberId then
      var acts := UpdateActivities(m.activities, selected, k, value);
      m.(activities := acts, score := Total(acts), streak := StreakFrom(acts, today))
    else m
  }

  /** `updateActivity` over the whole roster. */
  function UpdateRoster(members: seq<Member>, memberId: string, selected: int, k: Kind, value: bool, today: int)
    : (r: seq<Member>)
    ensures |r| == |members|
    ensures forall i :: 0 <= i < |r| ==> r[i].id == members[i].id
    ensures forall i :: 0 <= i < |r| && members[i].id != memberId ==> r[i] == members[i]
    ensures forall i :: 0 <= i < |r| && members[i].id == memberId ==>
      && r[i].name == members[i].name && r[i].avatar == members[i].avatar
      && r[i].activities == UpdateActivities(members[i].activities, selected, k, value)
      && Recomputed(r[i], today)
    ensures (forall i :: 0 <= i < |members| ==> members[i].id != memberId) ==> r == members
  {
    seq(|members|, i requires 0 <= i < |members| => UpdateMember(members[i], memberId, selected, k, value, today))
  }

  /** `updateActivity` as the source runs it: a pass over the roster that
      upserts the matched member's records and recomputes its score and
      streak with the `calculateScore` and `calculateStreak` loops. */
  method UpdateActivity(members: seq<Member>, memberId: string, selected: int, k: Kind, value: bool, today: int)
    returns (r: seq<Member>)
    ensures r == UpdateRoster(members, memberId, selected, k, value, today)
    ensures |r| == |members|
    ensures forall i :: 0 <= i < |r| && members[i].id != memberId ==> r[i] == members[i]
    ensures forall i :: 0 <= i < |r| && members[i].id == memberId ==>
      && r[i].activities == UpdateActivities(members[i].activities, selected, k, value)
      && Recomputed(r[i], today)
  {
    r := [];
    var i := 0;
    while i < |members|
      invariant 0 <= i <= |members| && |r| == i
      invariant forall j :: 0 <= j < i ==> r[j] == UpdateMember(members[j], memberId, selected, k, value, today)
    {
      var member := members[i];
      if member.id == memberId {
        var updatedActivities := UpdateActivities(member.activities, selected, k, value);
        var score := CalculateScore(updatedActivities);
        var streak := CalculateStreak(updatedActivities, today);
        member := member.(activities := updatedActivities, score := score, streak := streak);
      }
      r := r + [member];
      i := i + 1;
    }
  }

  /** An update keeps every member consistent, provided "today" has not
      moved since the derived values were last computed. */
  lemma UpdateRosterConsistent(members: seq<Member>, memberId: string, selected: int, k: Kind, value: bool, today: int)
    requires forall i :: 0 <= i < |members| ==> Consistent(members[i], today)
    ensures var r := UpdateRoster(members, memberId, selected, k, value, today);
      && UniqueIds(r) == UniqueIds(members)
      && forall i :: 0 <= i < |r| ==> Consistent(r[i], today)
  {
    var r := UpdateRoster(members, memberId, selected, k, value, today);
    forall i | 0 <= i < |r| ensures Consistent(r[i], today) {
      if members[i].id == memberId {
        UpdatePreservesUniqueDates(members[i].activities, selected, k, value);
      }
    }
  }

  /** Repeating an update on the roster it produced changes nothing. */
  lemma UpdateRosterIdempotent(members: seq<Member>, memberId: string, selected: int, k: Kind, value: bool, today: int)
    ensures var once := UpdateRoster(members, memberId, selected, k, value, today);
      UpdateRoster(once, memberId, selected, k, value, today) == once
  {
    var once := UpdateRoster(members, memberId, selected, k, value, today);
    var twice := UpdateRoster(once, memberId, selected, k, value, today);
    forall i | 0 <= i < |once| ensures twice[i] == once[i] {
      if members[i].id == memberId {
        UpdateIdempotent(members[i].activities, selected, k, value);
      }
    }
  }

  /** The roster the page starts with. */
  function InitialRoster(): (r: seq<Member>)
    ensures |r| == 4 && UniqueIds(r)
    ensures forall i :: 0 <= i < |r| ==> r[i].activities == []
    ensures forall today, i :: 0 <= i < |r| ==> Consistent(r[i], today)
  {
    [
      Member("1", "Ihsan", "/ihsan.jpg", 0, 0, []),
      Member("2", "Muti", "/muti.jpg", 0, 0, []),
      Member("3", "Hafizh", "/hafizh.jpg", 0, 0, []),
      Member("4", "Hasna", "/hasna.jpg", 0, 0, [])
    ]
  }
}
