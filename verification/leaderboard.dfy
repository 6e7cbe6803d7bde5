/**
  The leaderboard order: members by descending score
  (src/app/page.tsx, `members.sort((a, b) => b.score - a.score)`).
  `Array.prototype.sort` is stable, so members with equal scores keep
  their roster order; the order is modelled as a stable insertion sort.
 */
module Leaderboard {
  import opened Activity

  /** Scores never increase along `ms`. */
  predicate ByScoreDesc(ms: seq<Member>)
  {
    forall i, j :: 0 <= i < j < |ms| ==> ms[i].score >= ms[j].score
  }

  /** The members of `ms` whose score is `s`, in their order in `ms`. */
  function WithScore(ms: seq<Member>, s: int): (r: seq<Member>)
    ensures |r| <= |ms|
    ensures forall i :: 0 <= i < |r| ==> r[i].score == s
    ensures forall m :: m in r ==> m in ms
  {
    if |ms| == 0 then []
    else (if ms[0].score == s then [ms[0]] else []) + WithScore(ms[1..], s)
  }

  /** Puts `m` in front of the first member of `ms` that does not score
      more than it. */
  function Insert(m: Member, ms: seq<Member>): (r: seq<Member>)
    requires ByScoreDesc(ms)
    ensures ByScoreDesc(r)
    ensures multiset(r) == multiset(ms) + multiset{m}
  {
    if |ms| == 0 || ms[0].score <= m.score then
      [m] + ms
    else
      var rest := Insert(m, ms[1..]);
      assert ms == [ms[0]] + ms[1..];
      ConsSorted(ms[0], rest, ms[1..] + [m]);
      [ms[0]] + rest
  }

  /** A member that scores at least as much as every member of an ordered
      list can go in front of it. */
  lemma ConsSorted(x: Member, rest: seq<Member>, pool: seq<Member>)
    requires ByScoreDesc(rest)
    requires multiset(rest) == multiset(pool)
    requires forall i :: 0 <= i < |pool| ==> pool[i].score <= x.score
    ensures ByScoreDesc([x] + rest)
  {
    forall j | 0 <= j < |rest| ensures rest[j].score <= x.score {
      assert rest[j] in multiset(pool);
    }
  }

  /** Filtering a list with `m` in front filters `m`, then the rest. */
  lemma WithScoreCons(m: Member, ms: seq<Member>, s: int)
    ensures WithScore([m] + ms, s) == (if m.score == s then [m] else []) + WithScore(ms, s)
  {
    assert ([m] + ms)[1..] == ms;
  }

  /** Among the members with any one score, the inserted member comes
      before those already there. */
  lemma {:induction false} InsertStable(m: Member, ms: seq<Member>, s: int)
    requires ByScoreDesc(ms)
    ensures WithScore(Insert(m, ms), s) == (if m.score == s then [m] else []) + WithScore(ms, s)
  {
    if |ms| == 0 || ms[0].score <= m.score {
      WithScoreCons(m, ms, s);
    } else {
      var x, tail := ms[0], ms[1..];
      var rest := Insert(m, tail);
      assert ms == [x] + tail;
      InsertStable(m, tail, s);
      WithScoreCons(x, rest, s);
      WithScoreCons(x, tail, s);
      if m.score == s {
        assert WithScore([x] + rest, s) == WithScore(rest, s);
        assert WithScore(ms, s) == WithScore(tail, s);
      } else if x.score == s {
        assert WithScore(rest, s) == WithScore(tail, s);
      } else {
        assert WithScore(rest, s) == WithScore(tail, s);
        assert WithScore([x] + rest, s) == WithScore(rest, s);
        assert WithScore(ms, s) == WithScore(tail, s);
      }
    }
  }

  /** The leaderboard: the roster sorted by descending score. */
  function SortByScore(ms: seq<Member>): (r: seq<Member>)
    ensures ByScoreDesc(r)
    ensures multiset(r) == multiset(ms)
    ensures |r| == |ms|
  {
    if |ms| == 0 then []
    else
      assert ms == [ms[0]] + ms[1..];
      Insert(ms[0], SortByScore(ms[1..]))
  }

  /** The sort is stable: the members with any one score appear in the
      leaderboard in their roster order. */
  lemma {:induction false} SortStable(ms: seq<Member>, s: int)
    ensures WithScore(SortByScore(ms), s) == WithScore(ms, s)
  {
    if |ms| > 0 {
      SortStable(ms[1..], s);
      InsertStable(ms[0], SortByScore(ms[1..]), s);
      WithScoreCons(ms[0], ms[1..], s);
      assert ms == [ms[0]] + ms[1..];
    }
  }

  /** The filter of the tail is the filter of the whole, less the head
      when the head has the score filtered for. */
  lemma WithScoreTail(ms: seq<Member>, s: int)
    requires |ms| > 0
    ensures WithScore(ms[1..], s) == if ms[0].score == s then WithScore(ms, s)[1..] else WithScore(ms, s)
  {
  }

  /** The head of a list shows up in the filter for its own score. */
  lemma HeadFilter(ms: seq<Member>)
    requires |ms| > 0
    ensures WithScore(ms, ms[0].score) != []
  {
  }

  /** Two non-empty orders by descending score with the same filters start
      with the same member. */
  lemma SameHead(a: seq<Member>, b: seq<Member>)
    requires |a| > 0 && |b| > 0
    requires ByScoreDesc(a) && ByScoreDesc(b)
    requires forall s :: WithScore(a, s) == WithScore(b, s)
    ensures a[0] == b[0]
  {
    var sa, sb := a[0].score, b[0].score;
    assert WithScore(a, sa)[0] == a[0];
    assert WithScore(b, sb)[0] == b[0];
    assert WithScore(b, sa)[0] in b;
    assert WithScore(a, sb)[0] in a;
  }

  /** Two orders by descending score that keep the same relative order
      among equal scores are the same order: whatever stable sort the
      runtime uses, the leaderboard it shows is `SortByScore`'s. */
  lemma {:induction false} SortedUnique(a: seq<Member>, b: seq<Member>)
    requires ByScoreDesc(a) && ByScoreDesc(b)
    requires forall s :: WithScore(a, s) == WithScore(b, s)
    ensures a == b
    decreases |a|
  {
    if |a| > 0 {
      HeadFilter(a);
    }
    if |b| > 0 {
      HeadFilter(b);
    }
    if |a| > 0 && |b| > 0 {
      SameHead(a, b);
      forall s ensures WithScore(a[1..], s) == WithScore(b[1..], s) {
        WithScoreTail(a, s);
        WithScoreTail(b, s);
      }
      SortedUnique(a[1..], b[1..]);
      assert a == [a[0]] + a[1..] && b == [b[0]] + b[1..];
    }
  }

  /** The leaderboard is the only order by descending score that keeps
      roster order among equal scores. */
  lemma LeaderboardDetermined(ms: seq<Member>, order: seq<Member>)
    requires ByScoreDesc(order)
    requires forall s :: WithScore(order, s) == WithScore(ms, s)
    ensures order == SortByScore(ms)
  {
    forall s ensures WithScore(order, s) == WithScore(SortByScore(ms), s) {
      SortStable(ms, s);
    }
    SortedUnique(order, SortByScore(ms));
  }
}
