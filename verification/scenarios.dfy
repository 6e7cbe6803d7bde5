/**
  Worked examples of the tracker's rules on small, concrete rosters.
 */
module Scenarios {
  import opened Activity
  import opened Score
  import opened Streak
  import opened Roster
  import opened Leaderboard

  /** A member with no records has no score and no streak. */
  lemma NoRecords(today: int)
    ensures Total([]) == 0 && StreakFrom([], today) == 0
  {
  }

  /** Fasting alone today: 10 points and a one-day streak; all three
      rituals on one day: 18 points. */
  lemma OneDay(today: int)
    ensures Total([Record(today, true, false, false)]) == 10
    ensures StreakFrom([Record(today, true, false, false)], today) == 1
    ensures Total([Record(today, true, true, true)]) == 18
  {
    var acts := [Record(today, true, false, false)];
    assert Qualifies(acts, today);
    assert !Qualifies(acts, today - 1);
  }

  /** Two consecutive qualifying days ending today give a streak of two;
      a blank day in between cuts the streak back to today alone. */
  lemma TwoDays(today: int)
    ensures StreakFrom([Record(today - 1, false, true, false), Record(today, false, false, true)], today) == 2
    ensures StreakFrom([Record(today - 2, true, true, true), Record(today - 1, false, false, false),
                        Record(today, true, false, false)], today) == 1
  {
    var run := [Record(today - 1, false, true, false), Record(today, false, false, true)];
    FirstIndexUnique(run, today, 1);
    FirstIndexUnique(run, today - 1, 0);
    FirstIndexUnique(run, today - 2, 2);
    StreakUnique(run, today, 2);
    var gap := [Record(today - 2, true, true, true), Record(today - 1, false, false, false),
                Record(today, true, false, false)];
    FirstIndexUnique(gap, today, 2);
    FirstIndexUnique(gap, today - 1, 1);
    StreakUnique(gap, today, 1);
  }

  /** Ticking fasting on a day with no record creates a record whose other
      two flags are false, and the member's score becomes 10. */
  lemma FirstTick(today: int)
    ensures var r := UpdateRoster(InitialRoster(), "2", today, Puasa, true, today);
      && r[1].activities == [Record(today, true, false, false)]
      && r[1].score == 10
      && r[1].streak == 1
      && r[0] == InitialRoster()[0]
  {
    OneDay(today);
    var members := InitialRoster();
    var acts := [Record(today, true, false, false)];
    assert members[1].activities == [] && members[1].id == "2" && members[0].id != "2";
    assert UpdateActivities([], today, Puasa, true) == acts by {
      assert !HasDate([], today);
    }
    var r := UpdateRoster(members, "2", today, Puasa, true, today);
    assert r[1].activities == acts;
  }

  /** Scores 30, 30 and 10: the two members on 30 keep their roster order. */
  lemma TiesKeepRosterOrder()
    ensures var a := Member("1", "Ihsan", "/ihsan.jpg", 30, 0, []);
      var b := Member("2", "Muti", "/muti.jpg", 10, 0, []);
      var c := Member("3", "Hafizh", "/hafizh.jpg", 30, 0, []);
      SortByScore([a, b, c]) == [a, c, b]
  {
    var a := Member("1", "Ihsan", "/ihsan.jpg", 30, 0, []);
    var b := Member("2", "Muti", "/muti.jpg", 10, 0, []);
    var c := Member("3", "Hafizh", "/hafizh.jpg", 30, 0, []);
    assert SortByScore([c, b][1..]) == [b];
    assert SortByScore([b, c][1..]) == [c];
    assert [a, b, c][1..] == [b, c];
  }
}
