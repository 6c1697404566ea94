/** Epochs: who may sign blocks and how much stake a quorum takes. */
module Epochs {
  import opened Wrappers
  import opened Candidates
  import CryptoHash

  type Hash = CryptoHash.Hash

  type Validator = Candidate

  datatype Epoch = Epoch(validators: seq<Validator>, quorumStake: nat, totalStake: nat)

  // Digest of what of an epoch is serialised: validators and quorum.
  const EPOCH_DIGEST: (seq<Validator>, nat) -> Hash

  function Commitment(e: Epoch): Hash {
    EPOCH_DIGEST(e.validators, e.quorumStake)
  }

  /** What holds of every epoch the constructor returns, given distinct keys. */
  ghost predicate EpochOk(e: Epoch) {
    && DistinctKeys(e.validators)
    && (forall v | v in e.validators :: 0 < v.stake)
    && e.totalStake == Sum(e.validators) < U128_LIMIT
    && 0 < e.quorumStake <= e.totalStake
  }

  /** A quorum is more than half of the stake. */
  predicate Majority(e: Epoch) {
    e.totalStake < 2 * e.quorumStake
  }

  lemma {:induction false} SumOfPrefix(vs: seq<Validator>, i: nat)
    requires i <= |vs|
    ensures Sum(vs[..i]) <= Sum(vs)
    ensures i < |vs| ==> Sum(vs[..i + 1]) == Sum(vs[..i]) + vs[i].stake
  {
    SumConcat(vs[..i], vs[i..]);
    assert vs == vs[..i] + vs[i..];
    if i < |vs| {
      SumConcat(vs[..i], [vs[i]]);
      SumOne(vs[i]);
      assert vs[..i + 1] == vs[..i] + [vs[i]];
    }
  }

  /** Creates an epoch whose quorum is computed from the total stake.  Refused when the total overflows or is
      zero and when the quorum exceeds the total. */
  method NewWith(validators: seq<Validator>, quorumStake: nat -> nat) returns (r: Option<Epoch>)
    requires forall t | 0 < t :: 0 < quorumStake(t)
    ensures r.Some? <==> 0 < Sum(validators) < U128_LIMIT && quorumStake(Sum(validators)) <= Sum(validators)
    ensures r.Some? ==>
      && r.value == Epoch(validators, quorumStake(Sum(validators)), Sum(validators))
      && (DistinctKeys(validators) && (forall v | v in validators :: 0 < v.stake) ==> EpochOk(r.value))
  {
    var total := 0;
    for i := 0 to |validators|
      invariant total == Sum(validators[..i]) < U128_LIMIT
    {
      SumOfPrefix(validators, i);
      SumOfPrefix(validators, i + 1);
      if total + validators[i].stake >= U128_LIMIT {
        return None;
      }
      total := total + validators[i].stake;
    }
    assert validators[..|validators|] == validators;
    if total == 0 {
      return None;
    }
    var quorum := quorumStake(total);
    if quorum <= total {
      return Some(Epoch(validators, quorum, total));
    }
    return None;
  }

  // ----- stake of a set of signers

  function Keys(vs: seq<Validator>): set<PubKey> {
    set v | v in vs :: v.pubkey
  }

  /** Stake of those validators that are among the signers. */
  function SignedStake(vs: seq<Validator>, signers: set<PubKey>): nat {
    if vs == [] then 0
    else (if vs[0].pubkey in signers then vs[0].stake else 0) + SignedStake(vs[1..], signers)
  }

  lemma {:induction false} SignedAtMostAll(vs: seq<Validator>, signers: set<PubKey>)
    ensures SignedStake(vs, signers) <= Sum(vs)
    ensures Keys(vs) <= signers ==> SignedStake(vs, signers) == Sum(vs)
  {
    if vs != [] {
      assert vs == [vs[0]] + vs[1..];
      assert vs[0].pubkey in Keys(vs);
      SignedAtMostAll(vs[1..], signers);
    }
  }

  lemma {:induction false} SignedNone(vs: seq<Validator>)
    ensures SignedStake(vs, {}) == 0
  {
    if vs != [] {
      SignedNone(vs[1..]);
    }
  }

  /** One more signer adds exactly its stake. */
  lemma {:induction false} SignedAdd(vs: seq<Validator>, signers: set<PubKey>, pk: PubKey)
    requires DistinctKeys(vs) && pk !in signers
    ensures SignedStake(vs, signers + {pk}) == SignedStake(vs, signers) + StakeOf(vs, pk)
  {
    if vs != [] {
      SignedAdd(vs[1..], signers, pk);
      if vs[0].pubkey == pk {
        assert !Has(vs[1..], pk) by {
          assert forall i | 0 <= i < |vs[1..]| :: vs[1..][i] == vs[i + 1];
        }
        NoStake(vs[1..], pk);
      }
    }
  }

  lemma {:induction false} DisjointSigners(vs: seq<Validator>, a: set<PubKey>, b: set<PubKey>)
    requires a !! b
    ensures SignedStake(vs, a) + SignedStake(vs, b) <= Sum(vs)
  {
    if vs != [] {
      DisjointSigners(vs[1..], a, b);
    }
  }

  /** Two quorums of an epoch that needs a majority have a validator in common. */
  lemma {:induction false} QuorumsMeet(e: Epoch, a: set<PubKey>, b: set<PubKey>)
    requires EpochOk(e) && Majority(e)
    requires a <= Keys(e.validators) && b <= Keys(e.validators)
    requires SignedStake(e.validators, a) >= e.quorumStake && SignedStake(e.validators, b) >= e.quorumStake
    ensures exists pk :: pk in a && pk in b && pk in Keys(e.validators)
  {
    if a !! b {
      DisjointSigners(e.validators, a, b);
    } else {
      var pk :| pk in a && pk in b;
    }
  }

  /** As long as there is no quorum, some validator has not signed. */
  lemma {:induction false} SomeoneMissing(e: Epoch, signers: set<PubKey>)
    requires EpochOk(e) && SignedStake(e.validators, signers) < e.quorumStake
    ensures exists v :: v in e.validators && v.pubkey !in signers
  {
    SignedAtMostAll(e.validators, signers);
    var pk :| pk in Keys(e.validators) && pk !in signers;
    var v :| v in e.validators && v.pubkey == pk;
  }
}
