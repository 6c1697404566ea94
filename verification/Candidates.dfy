/** Validator candidates, ranked by stake: an incrementally maintained ranking and head sum. */
module Candidates {
  import opened Wrappers

  const U128_LIMIT: nat := 0x1_0000_0000_0000_0000_0000_0000_0000_0000

  // Amounts of stake are 128-bit.
  type Amount = n: nat | n < U128_LIMIT

  // Public keys, of which only the order matters.
  type PubKey = nat

  datatype Candidate = Candidate(pubkey: PubKey, stake: nat)

  datatype Limits = Limits(
    minValidators: nat,
    minValidatorStake: nat,
    minTotalStake: Amount)

  datatype UpdateError = NotEnoughValidatorStake | NotEnoughTotalStake | NotEnoughValidators | Refused(code: nat)

  /** More stake ranks first; equal stakes are ordered by public key. */
  predicate Before(a: Candidate, b: Candidate) {
    a.stake > b.stake || (a.stake == b.stake && a.pubkey < b.pubkey)
  }

  predicate Ranked(s: seq<Candidate>) {
    forall i, j | 0 <= i < j < |s| :: Before(s[i], s[j])
  }

  predicate DistinctKeys(s: seq<Candidate>) {
    forall i, j | 0 <= i < j < |s| :: s[i].pubkey != s[j].pubkey
  }

  function Sum(s: seq<Candidate>): nat {
    if s == [] then 0 else s[0].stake + Sum(s[1..])
  }

  function Head(s: seq<Candidate>, max: nat): seq<Candidate> {
    if max <= |s| then s[..max] else s
  }

  function HeadSum(s: seq<Candidate>, max: nat): nat {
    Sum(Head(s, max))
  }

  // ----- what an update is meant to do

  function Without(s: seq<Candidate>, pk: PubKey): seq<Candidate> {
    if s == [] then []
    else if s[0].pubkey == pk then Without(s[1..], pk)
    else [s[0]] + Without(s[1..], pk)
  }

  function Insert(s: seq<Candidate>, c: Candidate): seq<Candidate> {
    if s == [] || Before(c, s[0]) then [c] + s else [s[0]] + Insert(s[1..], c)
  }

  /** The ranking once `pk` has the given stake; without any stake it is not a candidate. */
  function Wanted(s: seq<Candidate>, pk: PubKey, stake: nat): seq<Candidate> {
    if stake == 0 then Without(s, pk) else Insert(Without(s, pk), Candidate(pk, stake))
  }

  predicate Has(s: seq<Candidate>, pk: PubKey) {
    exists i | 0 <= i < |s| :: s[i].pubkey == pk
  }

  /** Whether the update takes stake or a member away from the head: only then the minimum total stake
      is enforced. */
  predicate Weakens(s: seq<Candidate>, max: nat, pk: PubKey, stake: nat) {
    && Has(Head(s, max), pk)
    && (!Has(Head(Wanted(s, pk, stake), max), pk)
        || exists i | 0 <= i < |s| :: s[i].pubkey == pk && stake < s[i].stake)
  }

  /** The error an update must be refused with, if any. */
  function Refusal(s: seq<Candidate>, max: nat, limits: Limits, pk: PubKey, stake: nat): Option<UpdateError> {
    if stake != 0 && stake < limits.minValidatorStake then Some(NotEnoughValidatorStake)
    else if stake == 0 && Has(s, pk) && |s| <= limits.minValidators then Some(NotEnoughValidators)
    else if Weakens(s, max, pk, stake) && HeadSum(Wanted(s, pk, stake), max) < limits.minTotalStake
      then Some(NotEnoughTotalStake)
    else None
  }

  // ----- positions

  function InsertAt(s: seq<Candidate>, p: nat, c: Candidate): seq<Candidate>
    requires p <= |s|
  {
    s[..p] + [c] + s[p..]
  }

  function RemoveAt(s: seq<Candidate>, p: nat): seq<Candidate>
    requires p < |s|
  {
    s[..p] + s[p + 1..]
  }

  /** `p` is where `c` belongs. */
  predicate Belongs(s: seq<Candidate>, p: nat, c: Candidate) {
    && p <= |s|
    && (forall i | 0 <= i < p :: Before(s[i], c))
    && (forall i | p <= i < |s| :: !Before(s[i], c))
  }

  lemma {:induction false} InsertIsInsertAt(s: seq<Candidate>, p: nat, c: Candidate)
    requires Belongs(s, p, c) && c !in s
    requires forall i | 0 <= i < |s| :: s[i].pubkey != c.pubkey
    ensures Insert(s, c) == InsertAt(s, p, c)
  {
    if p == 0 {
      assert s != [] ==> !Before(s[0], c) && s[0].pubkey != c.pubkey;
    } else {
      InsertIsInsertAt(s[1..], p - 1, c);
      assert s == [s[0]] + s[1..];
    }
  }

  lemma {:induction false} WithoutIsRemoveAt(s: seq<Candidate>, p: nat)
    requires p < |s| && DistinctKeys(s)
    ensures Without(s, s[p].pubkey) == RemoveAt(s, p)
  {
    if p == 0 {
      WithoutAbsent(s[1..], s[0].pubkey);
    } else {
      WithoutIsRemoveAt(s[1..], p - 1);
      assert s == [s[0]] + s[1..];
    }
  }

  lemma {:induction false} WithoutAbsent(s: seq<Candidate>, pk: PubKey)
    requires !Has(s, pk)
    ensures Without(s, pk) == s
  {
    if s != [] {
      assert forall i | 0 <= i < |s[1..]| :: s[1..][i] == s[i + 1];
      assert s[0].pubkey != pk;
      WithoutAbsent(s[1..], pk);
    }
  }

  lemma {:induction false} SumConcat(a: seq<Candidate>, b: seq<Candidate>)
    ensures Sum(a + b) == Sum(a) + Sum(b)
  {
    if a == [] {
      assert a + b == b;
    } else {
      SumConcat(a[1..], b);
      assert (a + b)[1..] == a[1..] + b;
    }
  }

  lemma SumOne(c: Candidate)
    ensures Sum([c]) == c.stake
  {
    assert [c][1..] == [];
  }

  function StakeAt(s: seq<Candidate>, i: nat): nat {
    if i < |s| then s[i].stake else 0
  }

  /** How the head sum moves when a candidate comes in: its stake replaces that of the one pushed out. */
  lemma {:induction false} HeadSumInsert(s: seq<Candidate>, p: nat, c: Candidate, max: nat)
    requires p <= |s| && 0 < max
    ensures p < max ==> HeadSum(InsertAt(s, p, c), max) == HeadSum(s, max) + c.stake - StakeAt(InsertAt(s, p, c), max)
    ensures p >= max ==> Head(InsertAt(s, p, c), max) == Head(s, max)
  {
    var t := InsertAt(s, p, c);
    if p < max {
      var m := if max <= |s| then max - 1 else |s|;
      assert Head(t, max) == s[..p] + [c] + s[p..m];
      assert Head(s, max) == s[..p] + s[p..m] + (if max <= |s| then [s[max - 1]] else []);
      assert max <= |s| ==> t[max] == s[max - 1];
      SumConcat(s[..p] + [c], s[p..m]);
      SumConcat(s[..p], [c]);
      SumOne(c);
      SumConcat(s[..p] + s[p..m], if max <= |s| then [s[max - 1]] else []);
      SumConcat(s[..p], s[p..m]);
      if max <= |s| {
        SumOne(s[max - 1]);
      }
    }
  }

  lemma {:induction false} HeadSumRemove(s: seq<Candidate>, p: nat, max: nat)
    requires p < |s| && 0 < max
    ensures p < max ==> HeadSum(RemoveAt(s, p), max) == HeadSum(s, max) - s[p].stake + StakeAt(s, max)
    ensures p >= max ==> Head(RemoveAt(s, p), max) == Head(s, max)
  {
    var t := RemoveAt(s, p);
    assert InsertAt(t, p, s[p]) == s;
    HeadSumInsert(t, p, s[p], max);
  }

  // ----- rankings are unique

  lemma {:induction false} RankedIsUnique(a: seq<Candidate>, b: seq<Candidate>)
    requires Ranked(a) && Ranked(b) && (forall c :: c in a <==> c in b)
    ensures a == b
  {
    if a == [] || b == [] {
      HasMember(a);
      HasMember(b);
    } else {
      assert a[0] in b;
      assert b[0] in a;
      var i :| 0 <= i < |a| && a[i] == b[0];
      var j :| 0 <= j < |b| && b[j] == a[0];
      assert i == 0;
      RankedRest(a, b);
      RankedIsUnique(a[1..], b[1..]);
      assert a == [a[0]] + a[1..] && b == [b[0]] + b[1..];
    }
  }

  lemma HasMember(s: seq<Candidate>)
    ensures s != [] ==> exists c :: c in s
  {
    if s != [] {
      assert s[0] in s;
    }
  }

  lemma RankedRest(a: seq<Candidate>, b: seq<Candidate>)
    requires Ranked(a) && Ranked(b) && a != [] && b != [] && a[0] == b[0] && (forall c :: c in a <==> c in b)
    ensures Ranked(a[1..]) && Ranked(b[1..]) && (forall c :: c in a[1..] <==> c in b[1..])
  {
    assert a == [a[0]] + a[1..] && b == [b[0]] + b[1..];
    assert a[0] !in a[1..] && b[0] !in b[1..];
    forall c ensures c in a[1..] <==> c in b[1..] {
      assert c in a[1..] <==> c in a && c != a[0];
      assert c in b[1..] <==> c in b && c != b[0];
    }
  }

  lemma InsertKeepsRank(s: seq<Candidate>, p: nat, c: Candidate)
    requires Ranked(s) && DistinctKeys(s) && Belongs(s, p, c) && !Has(s, c.pubkey)
    ensures Ranked(InsertAt(s, p, c)) && DistinctKeys(InsertAt(s, p, c))
  {
    assert forall i | p <= i < |s| :: s[i].pubkey != c.pubkey;
    assert forall i | p <= i < |s| :: Before(c, s[i]);
  }

  lemma RemoveKeepsRank(s: seq<Candidate>, p: nat)
    requires Ranked(s) && DistinctKeys(s) && p < |s|
    ensures Ranked(RemoveAt(s, p)) && DistinctKeys(RemoveAt(s, p)) && !Has(RemoveAt(s, p), s[p].pubkey)
  {
  }

  /** Rotates a stretch of the list so that the element at `oldPos` comes to stand at `newPos`. */
  function Rotated(s: seq<Candidate>, oldPos: nat, newPos: nat): seq<Candidate>
    requires oldPos < |s| && newPos < |s|
  {
    if oldPos < newPos then s[..oldPos] + s[oldPos + 1..newPos + 1] + [s[oldPos]] + s[newPos + 1..]
    else if oldPos == newPos then s
    else s[..newPos] + [s[oldPos]] + s[newPos..oldPos] + s[oldPos + 1..]
  }

  lemma {:induction false} RotatedIsMove(s: seq<Candidate>, oldPos: nat, newPos: nat, c: Candidate)
    requires oldPos < |s| && newPos < |s|
    ensures Rotated(s, oldPos, newPos)[newPos := c] == InsertAt(RemoveAt(s, oldPos), newPos, c)
  {
    var a, b := Rotated(s, oldPos, newPos)[newPos := c], InsertAt(RemoveAt(s, oldPos), newPos, c);
    assert |a| == |b| == |s|;
    forall i | 0 <= i < |s| ensures a[i] == b[i] {
    }
  }

  /** Where a candidate belongs once its old entry has been taken out. */
  lemma BelongsWithout(s: seq<Candidate>, oldPos: nat, p: nat, c: Candidate)
    requires oldPos < |s| && Belongs(s, p, c)
    ensures Belongs(RemoveAt(s, oldPos), if p > oldPos then p - 1 else p, c)
  {
  }

  /** The position an update moves a known candidate to, and what the update wants. */
  lemma MoveIsWanted(s: seq<Candidate>, oldPos: nat, newPos: nat, c: Candidate)
    requires Ranked(s) && DistinctKeys(s) && oldPos < |s| && s[oldPos].pubkey == c.pubkey && 0 < c.stake
    requires Belongs(RemoveAt(s, oldPos), newPos, c) && (forall x | x in s :: 0 < x.stake)
    ensures newPos < |s|
    ensures var t := InsertAt(RemoveAt(s, oldPos), newPos, c);
      && t == Wanted(s, c.pubkey, c.stake) && Ranked(t) && DistinctKeys(t)
      && forall x | x in t :: 0 < x.stake
  {
    WithoutIsRemoveAt(s, oldPos);
    RemoveKeepsRank(s, oldPos);
    InsertIsInsertAt(RemoveAt(s, oldPos), newPos, c);
    InsertKeepsRank(RemoveAt(s, oldPos), newPos, c);
  }

  lemma HeadHas(s: seq<Candidate>, max: nat, p: nat)
    requires p < |s| && DistinctKeys(s)
    ensures Has(s, s[p].pubkey)
    ensures Has(Head(s, max), s[p].pubkey) <==> p < max
  {
    if p < max {
      assert Head(s, max)[p] == s[p];
    } else {
      assert forall i | 0 <= i < |Head(s, max)| :: Head(s, max)[i] == s[i];
    }
  }

  lemma BelongsOnce(s: seq<Candidate>, p: nat, q: nat, c: Candidate)
    requires Belongs(s, p, c) && Belongs(s, q, c)
    ensures p == q
  {
    assert p < |s| ==> !Before(s[p], c);
    assert q < |s| ==> !Before(s[q], c);
  }

  /** Giving a candidate the stake it has moves nothing. */
  lemma MoveNowhere(s: seq<Candidate>, oldPos: nat, newPos: nat)
    requires Ranked(s) && oldPos < |s| && Belongs(RemoveAt(s, oldPos), newPos, s[oldPos])
    ensures newPos == oldPos && InsertAt(RemoveAt(s, oldPos), newPos, s[oldPos]) == s
  {
    BelongsOnce(RemoveAt(s, oldPos), oldPos, newPos, s[oldPos]);
  }

  lemma StakeBelow(s: seq<Candidate>, oldPos: nat, newPos: nat, c: Candidate, max: nat)
    requires newPos < max <= oldPos < |s| && Belongs(RemoveAt(s, oldPos), newPos, c)
    ensures s[max - 1].stake <= c.stake
  {
    assert RemoveAt(s, oldPos)[max - 1] == s[max - 1];
  }

  /** What moving a candidate does to the head sum, by where it comes from and where it goes. */
  lemma MoveHeadSum(s: seq<Candidate>, oldPos: nat, newPos: nat, c: Candidate, max: nat)
    requires oldPos < |s| && newPos < |s| && 0 < max
    ensures var t := InsertAt(RemoveAt(s, oldPos), newPos, c);
      if newPos >= max then Head(t, max) == Head(RemoveAt(s, oldPos), max)
      else if oldPos >= max then max <= |s| && HeadSum(t, max) == HeadSum(s, max) + c.stake - s[max - 1].stake
      else HeadSum(t, max) == HeadSum(s, max) + c.stake - s[oldPos].stake
  {
    var rest := RemoveAt(s, oldPos);
    HeadSumRemove(s, oldPos, max);
    HeadSumInsert(rest, newPos, c, max);
  }

  /** Which moves show in the head. */
  lemma HeadMoves(s: seq<Candidate>, oldPos: nat, newPos: nat, c: Candidate, max: nat)
    requires DistinctKeys(s) && oldPos < |s| && newPos < |s| && s[oldPos].pubkey == c.pubkey && 0 < max
    requires DistinctKeys(InsertAt(RemoveAt(s, oldPos), newPos, c))
    ensures var t := InsertAt(RemoveAt(s, oldPos), newPos, c);
      if oldPos >= max && newPos >= max then Head(t, max) == Head(s, max)
      else oldPos >= max || newPos >= max || c.stake != s[oldPos].stake ==> Head(t, max) != Head(s, max)
  {
    var t := InsertAt(RemoveAt(s, oldPos), newPos, c);
    HeadHas(s, max, oldPos);
    HeadHas(t, max, newPos);
    HeadSumRemove(s, oldPos, max);
    HeadSumInsert(RemoveAt(s, oldPos), newPos, c, max);
    if oldPos < max && newPos < max && Head(t, max) == Head(s, max) {
      assert s[newPos] == Head(s, max)[newPos] == Head(t, max)[newPos] == c;
    }
  }

  lemma WeakensAt(s: seq<Candidate>, oldPos: nat, newPos: nat, c: Candidate, max: nat)
    requires DistinctKeys(s) && oldPos < |s| && newPos < |s| && s[oldPos].pubkey == c.pubkey
    requires Wanted(s, c.pubkey, c.stake) == InsertAt(RemoveAt(s, oldPos), newPos, c)
    requires DistinctKeys(Wanted(s, c.pubkey, c.stake))
    ensures Weakens(s, max, c.pubkey, c.stake) <==> oldPos < max && (newPos >= max || c.stake < s[oldPos].stake)
  {
    HeadHas(s, max, oldPos);
    HeadHas(Wanted(s, c.pubkey, c.stake), max, newPos);
  }

  function Sorted(s: seq<Candidate>): seq<Candidate> {
    if s == [] then [] else Insert(Sorted(s[1..]), s[0])
  }

  lemma {:induction false} InsertMultiset(s: seq<Candidate>, c: Candidate)
    ensures multiset(Insert(s, c)) == multiset(s) + multiset{c}
  {
    if s != [] && !Before(c, s[0]) {
      InsertMultiset(s[1..], c);
      assert s == [s[0]] + s[1..];
    }
  }

  lemma {:induction false} WhereItBelongs(s: seq<Candidate>, c: Candidate) returns (p: nat)
    requires Ranked(s)
    ensures Belongs(s, p, c)
  {
    if s == [] || !Before(s[0], c) {
      p := 0;
      if s != [] {
        assert forall i | 0 < i < |s| :: Before(s[0], s[i]);
      }
    } else {
      var q := WhereItBelongs(s[1..], c);
      p := q + 1;
      assert forall i | 0 < i < |s| :: s[i] == s[1..][i - 1];
    }
  }

  lemma SameMembers(a: seq<Candidate>, b: seq<Candidate>)
    requires multiset(a) == multiset(b)
    ensures |a| == |b| && forall c :: c in a <==> c in b
  {
    assert |a| == |multiset(a)| && |b| == |multiset(b)|;
    forall c ensures c in a <==> c in b {
      assert c in a <==> c in multiset(a);
      assert c in b <==> c in multiset(b);
    }
  }

  lemma {:induction false} SortedIsRanked(s: seq<Candidate>)
    requires DistinctKeys(s)
    ensures Ranked(Sorted(s)) && DistinctKeys(Sorted(s)) && multiset(Sorted(s)) == multiset(s)
    ensures |Sorted(s)| == |s| && forall c :: c in Sorted(s) <==> c in s
  {
    hide Insert;
    hide InsertAt;
    hide Belongs;
    if s != [] {
      var rest := Sorted(s[1..]);
      SortedIsRanked(s[1..]);
      var p := WhereItBelongs(rest, s[0]);
      forall c | c in rest ensures c.pubkey != s[0].pubkey {
        assert c in s[1..];
      }
      assert forall i | 0 <= i < |rest| :: rest[i] in rest;
      assert s[0] !in rest;
      InsertIsInsertAt(rest, p, s[0]);
      InsertKeepsRank(rest, p, s[0]);
      InsertMultiset(rest, s[0]);
      assert s == [s[0]] + s[1..];
      SameMembers(Sorted(s), s);
    }
  }

  // ----- the limits

  /** The stake a candidate brings to the head. */
  lemma StakeInHead(s: seq<Candidate>, max: nat, p: nat)
    requires p < |s| && DistinctKeys(s) && 0 < s[p].stake
    ensures StakeOf(Head(s, max), s[p].pubkey) == if p < max then s[p].stake else 0
  {
    HeadHas(s, max, p);
    if p < max {
      assert Head(s, max)[p] == s[p];
      StakeOfMember(Head(s, max), s[p]);
    } else {
      NoStake(Head(s, max), s[p].pubkey);
    }
  }

  /** Where a known candidate stands and where an update moves it to. */
  lemma Moves(s: seq<Candidate>, oldPos: nat, c: Candidate) returns (newPos: nat)
    requires Ranked(s) && DistinctKeys(s) && oldPos < |s| && s[oldPos].pubkey == c.pubkey && 0 < c.stake
    requires forall x | x in s :: 0 < x.stake
    ensures newPos < |s| && newPos <= |RemoveAt(s, oldPos)| && Belongs(RemoveAt(s, oldPos), newPos, c)
    ensures Wanted(s, c.pubkey, c.stake) == InsertAt(RemoveAt(s, oldPos), newPos, c)
    ensures DistinctKeys(Wanted(s, c.pubkey, c.stake)) && Ranked(Wanted(s, c.pubkey, c.stake))
  {
    RemoveKeepsRank(s, oldPos);
    newPos := WhereItBelongs(RemoveAt(s, oldPos), c);
    MoveIsWanted(s, oldPos, newPos, c);
  }

  /** An update weakens the head when the stake its candidate brings to the head falls. */
  lemma {:induction false} WeakensMeans(s: seq<Candidate>, max: nat, pk: PubKey, stake: nat)
    requires Ranked(s) && DistinctKeys(s) && 0 < max && (forall x | x in s :: 0 < x.stake)
    ensures Weakens(s, max, pk, stake) <==> StakeOf(Head(Wanted(s, pk, stake), max), pk) < StakeOf(Head(s, max), pk)
  {
    hide Insert;
    hide Without;
    hide StakeOf;
    if !Has(s, pk) {
      HeadLacks(s, max, pk);
      NoStake(Head(s, max), pk);
    } else {
      var p :| 0 <= p < |s| && s[p].pubkey == pk;
      HeadHas(s, max, p);
      StakeInHead(s, max, p);
      if stake == 0 {
        WithoutIsRemoveAt(s, p);
        RemoveKeepsRank(s, p);
        HeadLacks(RemoveAt(s, p), max, pk);
        NoStake(Head(RemoveAt(s, p), max), pk);
      } else {
        var c := Candidate(pk, stake);
        var q := Moves(s, p, c);
        WeakensAt(s, p, q, c, max);
        StakeInHead(Wanted(s, pk, stake), max, q);
      }
    }
  }

  /** Why an update is refused: a stake below the minimum, a removal that leaves too few candidates, or one that
      brings less stake to the head and takes the head below the minimum.  Everything else is accepted. */
  lemma {:induction false} RefusalMeans(s: seq<Candidate>, max: nat, limits: Limits, pk: PubKey, stake: nat)
    requires Ranked(s) && DistinctKeys(s) && 0 < max && (forall x | x in s :: 0 < x.stake)
    ensures var low := 0 < stake < limits.minValidatorStake;
      var few := stake == 0 && 0 < StakeOf(s, pk) && |s| <= limits.minValidators;
      var weak :=
        && StakeOf(Head(Wanted(s, pk, stake), max), pk) < StakeOf(Head(s, max), pk)
        && HeadSum(Wanted(s, pk, stake), max) < limits.minTotalStake;
      Refusal(s, max, limits, pk, stake) ==
      if low then Some(NotEnoughValidatorStake)
      else if few then Some(NotEnoughValidators)
      else if weak then Some(NotEnoughTotalStake)
      else None
  {
    hide Wanted;
    hide Weakens;
    hide StakeOf;
    WeakensMeans(s, max, pk, stake);
    if p :| 0 <= p < |s| && s[p].pubkey == pk {
      StakeOfMember(s, s[p]);
    } else {
      NoStake(s, pk);
    }
  }

  /** The limits are met. */
  ghost predicate Meets(s: seq<Candidate>, max: nat, limits: Limits) {
    && (forall c | c in s :: limits.minValidatorStake <= c.stake)
    && limits.minValidators <= |s|
    && limits.minTotalStake <= HeadSum(s, max)
  }

  /** Without weakening the head an update does not lower its stake. */
  lemma {:induction false} HeadSumHolds(s: seq<Candidate>, max: nat, pk: PubKey, stake: nat)
    requires Ranked(s) && DistinctKeys(s) && 0 < max && (forall x | x in s :: 0 < x.stake)
    requires !Weakens(s, max, pk, stake)
    ensures HeadSum(s, max) <= HeadSum(Wanted(s, pk, stake), max)
  {
    hide Sum;
    hide Insert;
    hide Without;
    if !Has(s, pk) {
      WithoutAbsent(s, pk);
      if stake != 0 {
        var c := Candidate(pk, stake);
        var p := WhereItBelongs(s, c);
        AddOutcome(s, p, c, max);
      }
    } else {
      var p :| 0 <= p < |s| && s[p].pubkey == pk;
      HeadHas(s, max, p);
      HeadSumRemove(s, p, max);
      if stake == 0 {
        WithoutIsRemoveAt(s, p);
        RemoveKeepsRank(s, p);
        HeadLacks(RemoveAt(s, p), max, pk);
      } else {
        var c := Candidate(pk, stake);
        var q := Moves(s, p, c);
        WeakensAt(s, p, q, c, max);
        MoveHeadSum(s, p, q, c, max);
        if q < max <= p {
          StakeBelow(s, p, q, c, max);
        }
      }
    }
  }

  lemma {:induction false} WantedMembers(s: seq<Candidate>, pk: PubKey, stake: nat)
    requires Ranked(s) && DistinctKeys(s) && (forall x | x in s :: 0 < x.stake)
    ensures |Wanted(s, pk, stake)| == |s| + (if stake == 0 then 0 else 1) - if Has(s, pk) then 1 else 0
    ensures forall c | c in Wanted(s, pk, stake) :: c in s || (c == Candidate(pk, stake) && 0 < stake)
    ensures Ranked(Wanted(s, pk, stake)) && DistinctKeys(Wanted(s, pk, stake))
  {
    hide Insert;
    hide Without;
    hide Belongs;
    hide Ranked;
    hide InsertAt;
    hide RemoveAt;
    if !Has(s, pk) {
      WithoutAbsent(s, pk);
      if stake != 0 {
        var c := Candidate(pk, stake);
        var p := WhereItBelongs(s, c);
        AddIsWanted(s, p, c);
        InsertMembers(s, p, c);
      }
    } else {
      var p :| 0 <= p < |s| && s[p].pubkey == pk;
      RemoveMembers(s, p);
      if stake == 0 {
        WithoutIsRemoveAt(s, p);
        RemoveKeepsRank(s, p);
      } else {
        var q := Moves(s, p, Candidate(pk, stake));
        InsertMembers(RemoveAt(s, p), q, Candidate(pk, stake));
      }
    }
  }

  lemma InsertMembers(s: seq<Candidate>, p: nat, c: Candidate)
    requires p <= |s|
    ensures |InsertAt(s, p, c)| == |s| + 1 && forall x | x in InsertAt(s, p, c) :: x in s || x == c
  {
  }

  lemma RemoveMembers(s: seq<Candidate>, p: nat)
    requires p < |s|
    ensures |RemoveAt(s, p)| == |s| - 1 && forall x | x in RemoveAt(s, p) :: x in s
  {
  }

  /** A stake asked for a candidate. */
  datatype Request = Request(pk: PubKey, stake: nat)

  function Granted(s: seq<Candidate>, max: nat, limits: Limits, r: Request): seq<Candidate> {
    if Refusal(s, max, limits, r.pk, r.stake) == None then Wanted(s, r.pk, r.stake) else s
  }

  function AllGranted(s: seq<Candidate>, max: nat, limits: Limits, rs: seq<Request>): seq<Candidate>
    decreases |rs|
  {
    if rs == [] then s else AllGranted(Granted(s, max, limits, rs[0]), max, limits, rs[1..])
  }

  /** Limits that are met stay met whatever updates are asked for. */
  lemma {:induction false} LimitsHold(s: seq<Candidate>, max: nat, limits: Limits, rs: seq<Request>)
    requires Ranked(s) && DistinctKeys(s) && 0 < max && (forall x | x in s :: 0 < x.stake)
    requires Meets(s, max, limits)
    ensures Meets(AllGranted(s, max, limits, rs), max, limits)
    decreases |rs|
  {
    hide Wanted;
    hide Weakens;
    hide HeadSum;
    if rs != [] {
      var r := rs[0];
      if Refusal(s, max, limits, r.pk, r.stake) == None {
        WantedMembers(s, r.pk, r.stake);
        if !Weakens(s, max, r.pk, r.stake) {
          HeadSumHolds(s, max, r.pk, r.stake);
        }
      }
      LimitsHold(Granted(s, max, limits, r), max, limits, rs[1..]);
    }
  }

  // ----- the map from keys to stakes

  /** Stake of a key; keys without stake are not candidates. */
  function StakeOf(s: seq<Candidate>, pk: PubKey): nat {
    if s == [] then 0 else if s[0].pubkey == pk then s[0].stake else StakeOf(s[1..], pk)
  }

  lemma {:induction false} StakeInserted(s: seq<Candidate>, c: Candidate, pk: PubKey)
    requires !Has(s, c.pubkey)
    ensures StakeOf(Insert(s, c), pk) == if pk == c.pubkey then c.stake else StakeOf(s, pk)
  {
    if s != [] && !Before(c, s[0]) {
      assert s[0].pubkey != c.pubkey;
      assert forall i | 0 <= i < |s[1..]| :: s[1..][i] == s[i + 1];
      StakeInserted(s[1..], c, pk);
    }
  }

  lemma {:induction false} StakeWithout(s: seq<Candidate>, pk: PubKey, other: PubKey)
    ensures StakeOf(Without(s, pk), other) == if other == pk then 0 else StakeOf(s, other)
    ensures !Has(Without(s, pk), pk)
  {
    if s != [] {
      StakeWithout(s[1..], pk, other);
    }
  }

  /** The ranking wanted is that of the map with one entry changed. */
  lemma {:induction false} WantedStakes(s: seq<Candidate>, pk: PubKey, stake: nat, other: PubKey)
    ensures StakeOf(Wanted(s, pk, stake), other) == if other == pk then stake else StakeOf(s, other)
  {
    StakeWithout(s, pk, other);
    if stake != 0 {
      StakeInserted(Without(s, pk), Candidate(pk, stake), other);
    }
  }

  lemma {:induction false} NoStake(s: seq<Candidate>, pk: PubKey)
    requires !Has(s, pk)
    ensures StakeOf(s, pk) == 0
  {
    if s != [] {
      assert s[0].pubkey != pk;
      assert forall i | 0 <= i < |s[1..]| :: s[1..][i] == s[i + 1];
      NoStake(s[1..], pk);
    }
  }

  lemma {:induction false} StakeOfMember(s: seq<Candidate>, c: Candidate)
    requires DistinctKeys(s) && 0 < c.stake
    ensures c in s <==> StakeOf(s, c.pubkey) == c.stake
  {
    if s != [] {
      assert s == [s[0]] + s[1..];
      if s[0].pubkey == c.pubkey {
        assert forall i | 0 <= i < |s[1..]| :: s[1..][i] == s[i + 1] && s[1..][i].pubkey != c.pubkey;
      } else {
        StakeOfMember(s[1..], c);
      }
    }
  }

  /** A ranking is determined by the stakes: whatever the history, equal stakes give equal rankings. */
  lemma {:induction false} StakesDetermineRanking(a: seq<Candidate>, b: seq<Candidate>)
    requires Ranked(a) && DistinctKeys(a) && Ranked(b) && DistinctKeys(b)
    requires (forall c | c in a :: 0 < c.stake) && (forall c | c in b :: 0 < c.stake)
    requires forall pk :: StakeOf(a, pk) == StakeOf(b, pk)
    ensures a == b
  {
    forall c ensures c in a <==> c in b {
      if 0 < c.stake {
        StakeOfMember(a, c);
        StakeOfMember(b, c);
      }
    }
    RankedIsUnique(a, b);
  }

  /** What taking a new candidate in does. */
  lemma AddOutcome(s: seq<Candidate>, p: nat, c: Candidate, max: nat)
    requires Ranked(s) && DistinctKeys(s) && (forall x | x in s :: 0 < x.stake) && 0 < c.stake && 0 < max
    requires Belongs(s, p, c) && !Has(s, c.pubkey)
    ensures p <= |s|
    ensures var t := InsertAt(s, p, c);
      && t == Wanted(s, c.pubkey, c.stake) && Ranked(t) && DistinctKeys(t) && (forall x | x in t :: 0 < x.stake)
      && (if p < max
          then StakeAt(t, max) <= c.stake && HeadSum(t, max) == HeadSum(s, max) + c.stake - StakeAt(t, max)
          else Head(t, max) == Head(s, max) && HeadSum(t, max) == HeadSum(s, max))
  {
    hide Sum;
    hide Insert;
    hide Ranked;
    AddIsWanted(s, p, c);
    InsertMembers(s, p, c);
    HeadSumInsert(s, p, c, max);
    if p < max {
      PushedOut(s, p, c, max);
    }
  }

  lemma PushedOut(s: seq<Candidate>, p: nat, c: Candidate, max: nat)
    requires Belongs(s, p, c) && p < max
    ensures StakeAt(InsertAt(s, p, c), max) <= c.stake
  {
    var t := InsertAt(s, p, c);
    assert max < |t| ==> t[max] == s[max - 1];
  }

  lemma AddIsWanted(s: seq<Candidate>, p: nat, c: Candidate)
    requires Ranked(s) && DistinctKeys(s) && 0 < c.stake && Belongs(s, p, c) && !Has(s, c.pubkey)
    ensures p <= |s| && InsertAt(s, p, c) == Wanted(s, c.pubkey, c.stake)
    ensures Ranked(InsertAt(s, p, c)) && DistinctKeys(InsertAt(s, p, c))
  {
    WithoutAbsent(s, c.pubkey);
    assert c !in s;
    InsertIsInsertAt(s, p, c);
    InsertKeepsRank(s, p, c);
  }

  class Ranking {
    var maxValidators: nat
    // Candidates with most stake first.
    var candidates: seq<Candidate>
    // Whether the head changed since the flag was last cleared.
    var changed: bool
    // Sum of the stakes of the first `maxValidators` candidates.
    var headStake: nat

    ghost predicate Valid()
      reads this
    {
      && 0 < maxValidators
      && Ranked(candidates) && DistinctKeys(candidates)
      && (forall c | c in candidates :: 0 < c.stake)
      && headStake == HeadSum(candidates, maxValidators)
    }

    /** Starts from the validators of an epoch; when there are more of them than may validate, the head
        counts as changed. */
    constructor (maxValidators: nat, validators: seq<Candidate>)
      requires 0 < maxValidators && DistinctKeys(validators)
      requires forall c | c in validators :: 0 < c.stake
      ensures Valid() && this.maxValidators == maxValidators
      ensures multiset(candidates) == multiset(validators)
      ensures changed <==> maxValidators < |validators|
      ensures !changed ==> multiset(CurrentHead()) == multiset(validators)
    {
      SortedIsRanked(validators);
      this.maxValidators := maxValidators;
      candidates := Sorted(validators);
      changed := |Sorted(validators)| > maxValidators;
      headStake := HeadSum(Sorted(validators), maxValidators);
      new;
      assert |multiset(candidates)| == |multiset(validators)|;
      assert !changed ==> CurrentHead() == candidates;
    }

    ghost function CurrentHead(): seq<Candidate>
      reads this
    {
      Head(candidates, maxValidators)
    }

    method AddHeadStake(stake: nat)
      requires headStake + stake < U128_LIMIT
      modifies this`headStake, this`changed
      ensures headStake == old(headStake) + stake && changed
    {
      headStake := headStake + stake;
      changed := true;
    }

    method SubHeadStake(limits: Limits, stake: nat) returns (r: Result<(), UpdateError>)
      requires stake <= headStake
      modifies this`headStake, this`changed
      ensures r.Err? <==> old(headStake) - stake < limits.minTotalStake
      ensures r.Err? ==> r.error == NotEnoughTotalStake && unchanged(this)
      ensures r.Ok? ==> headStake == old(headStake) - stake && changed
    {
      var left := headStake - stake;
      if left < limits.minTotalStake {
        return Err(NotEnoughTotalStake);
      }
      headStake := left;
      changed := true;
      return Ok(());
    }

    /** Position at which a candidate is, or would have to be inserted. */
    method BinarySearch(c: Candidate) returns (p: nat)
      requires Ranked(candidates)
      ensures Belongs(candidates, p, c)
    {
      var lo, hi := 0, |candidates|;
      while lo < hi
        invariant 0 <= lo <= hi <= |candidates|
        invariant forall i | 0 <= i < lo :: Before(candidates[i], c)
        invariant forall i | hi <= i < |candidates| :: !Before(candidates[i], c)
      {
        var mid := (lo + hi) / 2;
        if Before(candidates[mid], c) {
          lo := mid + 1;
        } else {
          hi := mid;
        }
      }
      return lo;
    }

    method Position(pk: PubKey) returns (r: Option<nat>)
      ensures r.None? ==> !Has(candidates, pk)
      ensures r.Some? ==> r.value < |candidates| && candidates[r.value].pubkey == pk
    {
      for i := 0 to |candidates|
        invariant forall j | 0 <= j < i :: candidates[j].pubkey != pk
      {
        if candidates[i].pubkey == pk {
          return Some(i);
        }
      }
      return None;
    }

    /** Adjusts the head sum as if the candidate at `pos` were gone; the candidate behind the head moves up. */
    method UpdateStakeForRemove(limits: Limits, pos: nat) returns (r: Result<(), UpdateError>)
      requires Valid() && pos < |candidates|
      modifies this`headStake, this`changed
      ensures r.Err? <==> pos < maxValidators && HeadSum(RemoveAt(candidates, pos), maxValidators) < limits.minTotalStake
      ensures r.Err? ==> r.error == NotEnoughTotalStake && unchanged(this)
      ensures r.Ok? ==>
        && headStake == HeadSum(RemoveAt(candidates, pos), maxValidators)
        && changed == (old(changed) || pos < maxValidators)
    {
      HeadSumRemove(candidates, pos, maxValidators);
      if pos >= maxValidators {
        return Ok(());
      }
      var oldStake := candidates[pos].stake;
      var newStake := if maxValidators < |candidates| then candidates[maxValidators].stake else 0;
      assert newStake <= oldStake;
      HeadStakeOf(candidates, pos, maxValidators);
      r := SubHeadStake(limits, oldStake - newStake);
    }

    method AddImpl(newPos: nat, candidate: Candidate)
      requires Valid() && Belongs(candidates, newPos, candidate) && !Has(candidates, candidate.pubkey)
      requires 0 < candidate.stake
      requires HeadSum(Wanted(candidates, candidate.pubkey, candidate.stake), maxValidators) < U128_LIMIT
      modifies this
      ensures Valid() && maxValidators == old(maxValidators)
      ensures candidates == Wanted(old(candidates), candidate.pubkey, candidate.stake)
      ensures changed <==> old(changed) || CurrentHead() != old(CurrentHead())
    {
      hide Wanted;
      hide Belongs;
      hide HeadSum;
      hide Has;
      AddOutcome(candidates, newPos, candidate, maxValidators);
      candidates := InsertAt(candidates, newPos, candidate);
      if newPos < maxValidators {
        var out := StakeAt(candidates, maxValidators);
        AddHeadStake(candidate.stake - out);
      }
    }

    /** Brings the head sum in line with a candidate's move; `false` when there is nothing to move. */
    method AdjustHeadStake(limits: Limits, oldPos: nat, newPos: nat, candidate: Candidate)
      returns (r: Result<bool, UpdateError>)
      requires Valid() && oldPos < |candidates| && newPos < |candidates|
      requires Belongs(RemoveAt(candidates, oldPos), newPos, candidate)
      requires HeadSum(InsertAt(RemoveAt(candidates, oldPos), newPos, candidate), maxValidators) < U128_LIMIT
      modifies this`headStake, this`changed
      ensures var moved := InsertAt(RemoveAt(candidates, oldPos), newPos, candidate);
        && (r.Err? <==>
              && oldPos < maxValidators
              && (newPos >= maxValidators || candidate.stake < candidates[oldPos].stake)
              && HeadSum(moved, maxValidators) < limits.minTotalStake)
        && (r.Ok? ==> headStake == HeadSum(moved, maxValidators))
        && (r == Ok(false) ==> oldPos < maxValidators && newPos < maxValidators && candidate.stake == candidates[oldPos].stake)
      ensures r.Ok? ==>
        changed == (old(changed) || (r == Ok(true) && (oldPos < maxValidators || newPos < maxValidators)))
      ensures r == Ok(true) && oldPos < maxValidators && newPos < maxValidators ==>
        candidate.stake != candidates[oldPos].stake
      ensures r.Err? ==> r.error == NotEnoughTotalStake && unchanged(this)
      ensures r == Ok(false) ==> unchanged(this)
    {
      var max := maxValidators;
      MoveHeadSum(candidates, oldPos, newPos, candidate, max);
      HeadSumRemove(candidates, oldPos, max);
      if newPos >= max {
        var res := UpdateStakeForRemove(limits, oldPos);
        return match res case Ok(_) => Ok(true) case Err(e) => Err(e);
      }
      if oldPos >= max {
        StakeBelow(candidates, oldPos, newPos, candidate, max);
        AddHeadStake(candidate.stake - candidates[max - 1].stake);
        return Ok(true);
      }
      var oldStake := candidates[oldPos].stake;
      if oldStake < candidate.stake {
        AddHeadStake(candidate.stake - oldStake);
        return Ok(true);
      } else if oldStake > candidate.stake {
        HeadStakeOf(candidates, oldPos, max);
        var res := SubHeadStake(limits, oldStake - candidate.stake);
        return match res case Ok(_) => Ok(true) case Err(e) => Err(e);
      } else {
        return Ok(false);
      }
    }

    method UpdateImpl(limits: Limits, oldPos: nat, newPos: nat, candidate: Candidate) returns (r: Result<(), UpdateError>)
      requires Valid() && oldPos < |candidates| && candidates[oldPos].pubkey == candidate.pubkey
      requires 0 < candidate.stake && Belongs(RemoveAt(candidates, oldPos), newPos, candidate)
      requires HeadSum(Wanted(candidates, candidate.pubkey, candidate.stake), maxValidators) < U128_LIMIT
      modifies this
      ensures Valid() && maxValidators == old(maxValidators)
      ensures var wanted := Wanted(old(candidates), candidate.pubkey, candidate.stake);
        && (r.Err? <==> Weakens(old(candidates), maxValidators, candidate.pubkey, candidate.stake)
                        && HeadSum(wanted, maxValidators) < limits.minTotalStake)
        && (r.Ok? ==> candidates == wanted)
      ensures r.Err? ==> r.error == NotEnoughTotalStake && unchanged(this)
      ensures changed <==> old(changed) || CurrentHead() != old(CurrentHead())
    {
      MoveIsWanted(candidates, oldPos, newPos, candidate);
      MoveHeadSum(candidates, oldPos, newPos, candidate, maxValidators);
      HeadSumRemove(candidates, oldPos, maxValidators);
      WeakensAt(candidates, oldPos, newPos, candidate, maxValidators);
      RotatedIsMove(candidates, oldPos, newPos, candidate);
      HeadMoves(candidates, oldPos, newPos, candidate, maxValidators);
      if candidates[oldPos].stake == candidate.stake {
        MoveNowhere(candidates, oldPos, newPos);
      }
      hide Wanted;
      hide Weakens;
      hide InsertAt;
      hide RemoveAt;
      hide Rotated;
      hide Sum;
      hide Belongs;
      var move := AdjustHeadStake(limits, oldPos, newPos, candidate);
      if move.Err? {
        return Err(move.error);
      }
      if move.value {
        candidates := Rotated(candidates, oldPos, newPos)[newPos := candidate];
      }
      return Ok(());
    }

    method DoUpdate(limits: Limits, oldPos: Option<nat>, candidate: Candidate) returns (r: Result<(), UpdateError>)
      requires Valid() && 0 < candidate.stake
      requires oldPos.Some? ==> oldPos.value < |candidates| && candidates[oldPos.value].pubkey == candidate.pubkey
      requires oldPos.None? ==> !Has(candidates, candidate.pubkey)
      requires HeadSum(Wanted(candidates, candidate.pubkey, candidate.stake), maxValidators) < U128_LIMIT
      modifies this
      ensures Valid() && maxValidators == old(maxValidators)
      ensures var wanted := Wanted(old(candidates), candidate.pubkey, candidate.stake);
        && (r.Err? <==> Weakens(old(candidates), maxValidators, candidate.pubkey, candidate.stake)
                        && HeadSum(wanted, maxValidators) < limits.minTotalStake)
        && (r.Ok? ==> candidates == wanted)
      ensures r.Err? ==> r.error == NotEnoughTotalStake && unchanged(this)
      ensures changed <==> old(changed) || CurrentHead() != old(CurrentHead())
    {
      var newPos := BinarySearch(candidate);
      if oldPos.Some? {
        BelongsWithout(candidates, oldPos.value, newPos, candidate);
        if newPos > oldPos.value {
          newPos := newPos - 1;
        }
        r := UpdateImpl(limits, oldPos.value, newPos, candidate);
      } else {
        assert !Has(Head(candidates, maxValidators), candidate.pubkey) by {
          assert forall i | 0 <= i < |Head(candidates, maxValidators)| :: Head(candidates, maxValidators)[i] == candidates[i];
        }
        AddImpl(newPos, candidate);
        r := Ok(());
      }
    }

    method DoRemove(limits: Limits, pos: nat) returns (r: Result<(), UpdateError>)
      requires Valid() && pos < |candidates|
      modifies this
      ensures Valid() && maxValidators == old(maxValidators)
      ensures match Refusal(old(candidates), maxValidators, limits, old(candidates[pos].pubkey), 0)
              case Some(e) => r == Err(e) && unchanged(this)
              case None => r.Ok? && candidates == Wanted(old(candidates), old(candidates[pos].pubkey), 0)
      ensures changed <==> old(changed) || CurrentHead() != old(CurrentHead())
    {
      WithoutIsRemoveAt(candidates, pos);
      RemoveKeepsRank(candidates, pos);
      HeadHas(candidates, maxValidators, pos);
      HeadLacks(RemoveAt(candidates, pos), maxValidators, candidates[pos].pubkey);
      HeadSumRemove(candidates, pos, maxValidators);
      if |candidates| <= limits.minValidators {
        return Err(NotEnoughValidators);
      }
      r := UpdateStakeForRemove(limits, pos);
      if r.Err? {
        return;
      }
      candidates := candidates[..pos] + candidates[pos + 1..];
    }

    /** Sets a candidate's stake as the callback decides; no stake removes the candidate.  The ranking, the head
        sum and the refusals are those of the ranking wanted, and a refused call changes nothing. */
    method Update(limits: Limits, pk: PubKey, newStake: Option<Candidate> -> Result<nat, UpdateError>)
      returns (r: Result<(), UpdateError>)
      requires Valid()
      requires newStake(Existing(candidates, pk)).Ok? ==>
        var stake := newStake(Existing(candidates, pk)).value;
        Refusal(candidates, maxValidators, limits, pk, stake) == None ==>
          HeadSum(Wanted(candidates, pk, stake), maxValidators) < U128_LIMIT
      modifies this
      ensures Valid() && maxValidators == old(maxValidators)
      ensures match newStake(Existing(old(candidates), pk))
              case Err(e) => r == Err(e) && unchanged(this)
              case Ok(stake) =>
                match Refusal(old(candidates), maxValidators, limits, pk, stake)
                case Some(e) => r == Err(e) && unchanged(this)
                case None => r.Ok? && candidates == Wanted(old(candidates), pk, stake)
      ensures changed <==> old(changed) || CurrentHead() != old(CurrentHead())
    {
      var pos := Position(pk);
      if pos.Some? {
        ExistingAt(candidates, pos.value);
      } else {
        ExistingNone(candidates, pk);
        WithoutAbsent(candidates, pk);
        HeadLacks(candidates, maxValidators, pk);
      }
      var stake := newStake(if pos.Some? then Some(candidates[pos.value]) else None);
      if stake.Err? {
        return Err(stake.error);
      }
      if stake.value != 0 {
        if stake.value < limits.minValidatorStake {
          return Err(NotEnoughValidatorStake);
        }
        r := DoUpdate(limits, pos, Candidate(pk, stake.value));
      } else if pos.Some? {
        r := DoRemove(limits, pos.value);
      } else {
        return Ok(());
      }
    }

    method UpdateMaxValidators(max: nat)
      requires Valid() && 0 < max && HeadSum(candidates, max) < U128_LIMIT
      modifies this
      ensures Valid() && maxValidators == max && candidates == old(candidates)
      ensures changed <==> old(changed) || CurrentHead() != old(CurrentHead())
    {
      var total := |candidates|;
      var oldCount := if maxValidators <= total then maxValidators else total;
      var newCount := if max <= total then max else total;
      maxValidators := max;
      if oldCount != newCount {
        changed := true;
        headStake := HeadSum(candidates, max);
      }
      assert oldCount == newCount ==> Head(candidates, max) == Head(candidates, old(maxValidators));
    }

    /** The head if it changed since the flag was last cleared. */
    method MaybeGetHead() returns (r: Option<seq<Candidate>>)
      requires Valid()
      ensures r == if changed then Some(CurrentHead()) else None
    {
      if changed {
        return Some(Head(candidates, maxValidators));
      }
      return None;
    }

    method ClearChangedFlag()
      requires Valid()
      modifies this`changed
      ensures Valid() && !changed && CurrentHead() == old(CurrentHead())
    {
      changed := false;
    }
  }

  function Existing(s: seq<Candidate>, pk: PubKey): Option<Candidate> {
    if s == [] then None else if s[0].pubkey == pk then Some(s[0]) else Existing(s[1..], pk)
  }

  lemma {:induction false} ExistingAt(s: seq<Candidate>, p: nat)
    requires DistinctKeys(s) && p < |s|
    ensures Existing(s, s[p].pubkey) == Some(s[p])
  {
    if p > 0 {
      ExistingAt(s[1..], p - 1);
    }
  }

  lemma {:induction false} ExistingNone(s: seq<Candidate>, pk: PubKey)
    requires !Has(s, pk)
    ensures Existing(s, pk) == None
  {
    if s != [] {
      assert s[0].pubkey != pk;
      assert forall i | 0 <= i < |s[1..]| :: s[1..][i] == s[i + 1];
      ExistingNone(s[1..], pk);
    }
  }

  lemma HeadLacks(s: seq<Candidate>, max: nat, pk: PubKey)
    requires !Has(s, pk)
    ensures !Has(Head(s, max), pk)
  {
    assert forall i | 0 <= i < |Head(s, max)| :: Head(s, max)[i] == s[i];
  }

  lemma HeadStakeOf(s: seq<Candidate>, pos: nat, max: nat)
    requires pos < |s| && pos < max
    ensures s[pos].stake <= HeadSum(s, max)
  {
    var h := Head(s, max);
    assert h == h[..pos] + [h[pos]] + h[pos + 1..];
    SumConcat(h[..pos] + [h[pos]], h[pos + 1..]);
    SumConcat(h[..pos], [h[pos]]);
    SumOne(h[pos]);
  }
}
