/**
  The score of a member: every record earns 10 points for puasa, 5 for
  ngaji and 3 for olahraga (src/app/page.tsx, `calculateScore`).
 */
module Score {
  import opened Activity

  /** The weight of one ritual. */
  function Weight(k: Kind): nat
  {
    match k
    case Puasa => 10
    case Ngaji => 5
    case Olahraga => 3
  }

  /** The points one record earns. */
  function Points(r: Record): (p: nat)
    ensures p <= 18
    ensures p == 0 <==> !Active(r)
    ensures p == 18 <==> r.puasa && r.ngaji && r.olahraga
  {
    (if r.puasa then 10 else 0) + (if r.ngaji then 5 else 0) + (if r.olahraga then 3 else 0)
  }

  /** Each flag contributes its own weight, whatever the other two are. */
  lemma PointsPerFlag(r: Record, k: Kind)
    ensures Points(WithFlag(r, k, true)) == Points(WithFlag(r, k, false)) + Weight(k)
    ensures Points(r) == Points(WithFlag(r, k, false)) + (if Flag(r, k) then Weight(k) else 0)
  {
  }

  /** Changing one flag of a record moves its points by that flag's
      weight. */
  lemma PointsChange(x: Record, y: Record, k: Kind, value: bool)
    requires OnlyFlagChanged(x, y, k, value)
    ensures Points(y) == Points(x) - (if Flag(x, k) then Weight(k) else 0) + (if value then Weight(k) else 0)
  {
    assert Flag(y, Puasa) == y.puasa && Flag(y, Ngaji) == y.ngaji && Flag(y, Olahraga) == y.olahraga;
  }

  /** The total over a record list, as a sum from the front. */
  function Total(acts: seq<Record>): (s: nat)
    ensures s <= 18 * |acts|
  {
    if |acts| == 0 then 0 else Points(acts[0]) + Total(acts[1..])
  }

  /** A member scores nothing exactly when no record has a flag set. */
  lemma {:induction false} TotalZero(acts: seq<Record>)
    ensures Total(acts) == 0 <==> forall i :: 0 <= i < |acts| ==> !Active(acts[i])
  {
    if |acts| > 0 {
      TotalZero(acts[1..]);
      assert forall i :: 1 <= i < |acts| ==> acts[i] == acts[1..][i - 1];
    }
  }

  /** The score is additive over concatenation. */
  lemma {:induction false} TotalAppend(a: seq<Record>, b: seq<Record>)
    ensures Total(a + b) == Total(a) + Total(b)
  {
    if |a| == 0 {
      assert a + b == b;
    } else {
      assert (a + b)[1..] == a[1..] + b;
      TotalAppend(a[1..], b);
    }
  }

  /** Taking one record out of a list takes its points out of the score. */
  lemma TotalRemove(pre: seq<Record>, x: Record, post: seq<Record>)
    ensures Total(pre + [x] + post) == Points(x) + Total(pre + post)
  {
    TotalAppend(pre + [x], post);
    TotalAppend(pre, [x]);
    TotalAppend(pre, post);
  }

  /** Replacing the record at position `i`, and nothing else, replaces its
      points in the score. */
  lemma {:induction false} TotalReplace(a: seq<Record>, b: seq<Record>, i: nat)
    requires |a| == |b| && i < |a|
    requires forall j :: 0 <= j < |a| && j != i ==> a[j] == b[j]
    ensures Total(b) == Total(a) - Points(a[i]) + Points(b[i])
  {
    if i == 0 {
      assert a[1..] == b[1..];
    } else {
      TotalReplace(a[1..], b[1..], i - 1);
    }
  }

  /** A record that is also in `b` splits `b` around one of its
      occurrences, and the rest of `a` is a rearrangement of what remains. */
  lemma SplitAt(a: seq<Record>, b: seq<Record>, i: nat)
    requires multiset(a) == multiset(b)
    requires |a| > 0 && i < |b| && b[i] == a[0]
    ensures b == b[..i] + [a[0]] + b[i + 1..]
    ensures multiset(a[1..]) == multiset(b[..i] + b[i + 1..])
  {
    assert b == b[..i] + [a[0]] + b[i + 1..];
    assert a == [a[0]] + a[1..];
    var rest := b[..i] + b[i + 1..];
    assert multiset(a) == multiset{a[0]} + multiset(a[1..]);
    assert multiset(b) == multiset{a[0]} + multiset(rest);
    assert multiset(a[1..]) == multiset(a) - multiset{a[0]};
    assert multiset(rest) == multiset(b) - multiset{a[0]};
  }

  /** The score does not depend on the order of the records: any
      rearrangement of the same records has the same score. */
  lemma {:induction false} TotalPermutation(a: seq<Record>, b: seq<Record>)
    requires multiset(a) == multiset(b)
    ensures Total(a) == Total(b)
  {
    if |a| == 0 {
      assert |b| == |multiset(b)| == 0;
    } else {
      assert a[0] in multiset(b) by { assert a[0] in multiset(a); }
      var i :| 0 <= i < |b| && b[i] == a[0];
      SplitAt(a, b, i);
      TotalPermutation(a[1..], b[..i] + b[i + 1..]);
      TotalRemove(b[..i], a[0], b[i + 1..]);
      assert Total(a) == Points(a[0]) + Total(a[1..]);
    }
  }

  /** `calculateScore`: `reduce` from the left, adding each record's points
      to the running total. */
  method CalculateScore(acts: seq<Record>) returns (total: int)
    ensures total == Total(acts)
    ensures 0 <= total <= 18 * |acts|
  {
    total := 0;
    var i := 0;
    while i < |acts|
      invariant 0 <= i <= |acts|
      invariant total == Total(acts[..i])
    {
      var score := 0;
      if acts[i].puasa { score := score + 10; }
      if acts[i].ngaji { score := score + 5; }
      if acts[i].olahraga { score := score + 3; }
      assert acts[..i + 1] == acts[..i] + [acts[i]];
      TotalAppend(acts[..i], [acts[i]]);
      total := total + score;
      i := i + 1;
    }
    assert acts[..i] == acts;
  }
}
