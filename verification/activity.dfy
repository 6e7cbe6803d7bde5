/**
  The shape of a family member and of one day's activity record
  (src/app/page.tsx, the `FamilyMember` interface), together with the
  lookups the tracker performs on a member's record list.

  Calendar dates are modelled as integer day numbers: two ISO date strings
  are equal exactly when their day numbers are, and "the day before" is
  `d - 1`.
 */
module Activity {

  datatype Option<+T> = None | Some(value: T)

  /** The three daily rituals a member can tick off. */
  datatype Kind = Puasa | Ngaji | Olahraga

  /** One day's record: the date and one completion flag per ritual. */
  datatype Record = Record(date: int, puasa: bool, ngaji: bool, olahraga: bool)

  /** A member of the household. `score` and `streak` are derived values
      stored next to the records they are derived from. */
  datatype Member = Member(
    id: string,
    name: string,
    avatar: string,
    score: int,
    streak: int,
    activities: seq<Record>
  )

  /** The flag of `r` that `k` names. */
  function Flag(r: Record, k: Kind): bool
  {
    match k
    case Puasa => r.puasa
    case Ngaji => r.ngaji
    case Olahraga => r.olahraga
  }

  /** A record counts towards a streak when at least one ritual is done. */
  predicate Active(r: Record)
  {
    r.puasa || r.ngaji || r.olahraga
  }

  /** `after` is `before` with only the flag `k` set to `value`. */
  predicate OnlyFlagChanged(before: Record, after: Record, k: Kind, value: bool)
  {
    && after.date == before.date
    && Flag(after, k) == value
    && forall k' :: k' != k ==> Flag(after, k') == Flag(before, k')
  }

  /** The record `r` with the flag `k` replaced by `value` (the object
      spread `{ ...a, [activity]: value }`). */
  function WithFlag(r: Record, k: Kind, value: bool): (r': Record)
    ensures OnlyFlagChanged(r, r', k, value)
  {
    match k
    case Puasa => r.(puasa := value)
    case Ngaji => r.(ngaji := value)
    case Olahraga => r.(olahraga := value)
  }

  /** The record created on the first toggle of a day: the toggled flag
      holds `value`, the other two are false. */
  function Fresh(date: int, k: Kind, value: bool): (r: Record)
    ensures r.date == date
    ensures Flag(r, k) == value
    ensures forall k' :: k' != k ==> !Flag(r, k')
  {
    Record(date, k == Puasa && value, k == Ngaji && value, k == Olahraga && value)
  }

  /** Some record of `acts` is dated `d`. */
  predicate HasDate(acts: seq<Record>, d: int)
  {
    exists i :: 0 <= i < |acts| && acts[i].date == d
  }

  /** The position of the first record dated `d`, or `|acts|` when there
      is none. */
  function FirstIndex(acts: seq<Record>, d: int): (i: nat)
    ensures i <= |acts|
    ensures i < |acts| ==> acts[i].date == d
    ensures forall j :: 0 <= j < i ==> acts[j].date != d
  {
    if |acts| == 0 || acts[0].date == d then 0
    else 1 + FirstIndex(acts[1..], d)
  }

  /** The position characterised in `FirstIndex`'s contract is unique. */
  lemma FirstIndexUnique(acts: seq<Record>, d: int, i: nat)
    requires i <= |acts|
    requires i < |acts| ==> acts[i].date == d
    requires forall j :: 0 <= j < i ==> acts[j].date != d
    ensures i == FirstIndex(acts, d)
  {
  }

  /** The first record dated `d`, as `Array.prototype.find` returns it. */
  function Find(acts: seq<Record>, d: int): (o: Option<Record>)
    ensures o.None? <==> !HasDate(acts, d)
    ensures o.Some? ==> o.value.date == d && o.value in acts
    ensures o.Some? ==> exists i :: 0 <= i < |acts| && acts[i] == o.value && forall j :: 0 <= j < i ==> acts[j].date != d
  {
    var i := FirstIndex(acts, d);
    if i < |acts| then Some(acts[i]) else None
  }

  /** The day `d` qualifies for a streak: the record `Find` returns for it
      exists and has at least one flag set. */
  predicate Qualifies(acts: seq<Record>, d: int)
  {
    var i := FirstIndex(acts, d);
    i < |acts| && Active(acts[i])
  }

  /** At most one record per date. */
  predicate UniqueDates(acts: seq<Record>)
  {
    forall i, j :: 0 <= i < j < |acts| ==> acts[i].date != acts[j].date
  }

  /** The distinct dates that have a record. */
  function Dates(acts: seq<Record>): set<int>
  {
    set i | 0 <= i < |acts| :: acts[i].date
  }

  /** The distinct recorded dates no later than `day`. */
  function DatesUpTo(acts: seq<Record>, day: int): set<int>
  {
    set i | 0 <= i < |acts| && acts[i].date <= day :: acts[i].date
  }

  /** The recorded dates of a non-empty list: its head's date and those of
      its tail. */
  lemma DatesCons(acts: seq<Record>)
    requires |acts| > 0
    ensures Dates(acts) == {acts[0].date} + Dates(acts[1..])
  {
    var rest := acts[1..];
    forall d | d in Dates(acts) ensures d in {acts[0].date} + Dates(rest) {
      var i :| 0 <= i < |acts| && acts[i].date == d;
      if i > 0 { assert rest[i - 1].date == d; }
    }
    forall d | d in Dates(rest) ensures d in Dates(acts) {
      var i :| 0 <= i < |rest| && rest[i].date == d;
      assert acts[i + 1].date == d;
    }
  }

  /** There are no more distinct recorded dates than records, and exactly
      as many when the dates are unique. */
  lemma {:induction false} DatesCardinality(acts: seq<Record>)
    ensures |Dates(acts)| <= |acts|
    ensures UniqueDates(acts) ==> |Dates(acts)| == |acts|
  {
    if |acts| > 0 {
      var rest := acts[1..];
      DatesCardinality(rest);
      DatesCons(acts);
      if UniqueDates(acts) {
        forall i | 0 <= i < |rest| ensures rest[i].date != acts[0].date {
          assert rest[i] == acts[i + 1];
        }
        assert acts[0].date !in Dates(rest);
        assert UniqueDates(rest) by {
          forall i, j | 0 <= i < j < |rest| ensures rest[i].date != rest[j].date {
            assert rest[i] == acts[i + 1] && rest[j] == acts[j + 1];
          }
        }
      }
    }
  }
}
