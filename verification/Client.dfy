/** The light client of the guest chain: verifying headers, spotting misbehaviour, following epochs. */
module Client {
  import opened Wrappers
  import opened Candidates
  import opened Epochs
  import opened GuestChain

  datatype ClientState = ClientState(
    genesisHash: Hash,
    latestHeight: nat,
    trustingPeriodNs: nat,
    // Commitment of the epoch future headers are verified with.
    epochCommitment: Hash,
    // Commitment of the epoch before.
    prevEpochCommitment: Hash,
    isFrozen: bool)
  {
    /** The client state once a header has been accepted. */
    function WithHeader(header: Header): ClientState {
      if header.blockHeader.blockHeight > latestHeight then
        var moved := this.(latestHeight := header.blockHeader.blockHeight);
        match header.blockHeader.nextEpochCommitment
        case None => moved
        case Some(next) => moved.(prevEpochCommitment := epochCommitment, epochCommitment := next)
      else this
    }
  }

  /** A block header with the evidence for it: the epoch it belongs to and signatures, each with the position of
      the validator that made it. */
  datatype Header = Header(
    genesisHash: Hash,
    blockHash: Hash,
    blockHeader: BlockHeader,
    epochCommitment: Hash,
    epoch: Epoch,
    signatures: seq<(nat, Signature)>)
  {
    function Fingerprint(): Fingerprint {
      GuestChain.Fingerprint(genesisHash, blockHeader.blockHeight, blockHash)
    }

    /** The hashes are computed when a header is built or decoded. */
    ghost predicate Valid() {
      && blockHash == BLOCK_DIGEST(blockHeader)
      && epochCommitment == Commitment(epoch)
      && 0 < epoch.quorumStake
    }
  }

  datatype ConsensusState = ConsensusState(blockHash: Hash, timestampNs: nat)

  function StateOf(header: Header): ConsensusState {
    ConsensusState(header.blockHash, header.blockHeader.timestampNs)
  }

  datatype VerifyError =
    | UnexpectedGenesisHash
    | UnexpectedEpoch
    | IndexOutOfBounds
    | DuplicateSignature
    | InvalidSignature
    | QuorumNotReached

  // ----- signatures

  /** All signatures are valid and made by different validators of the epoch. */
  ghost predicate Good(epoch: Epoch, fp: Fingerprint, sigs: seq<(nat, Signature)>) {
    && (forall i | 0 <= i < |sigs| ::
          sigs[i].0 < |epoch.validators| && SIGNATURE_VALID(fp, epoch.validators[sigs[i].0].pubkey, sigs[i].1))
    && (forall i, j | 0 <= i < j < |sigs| :: sigs[i].0 != sigs[j].0)
  }

  /** Stake of the validators at the given positions. */
  function StakeBehind(vs: seq<Validator>, sigs: seq<(nat, Signature)>): nat {
    if sigs == [] then 0
    else
      var last := sigs[|sigs| - 1].0;
      StakeBehind(vs, sigs[..|sigs| - 1]) + if last < |vs| then vs[last].stake else 0
  }

  ghost predicate EnoughAfter(header: Header, k: nat) {
    && k <= |header.signatures|
    && Good(header.epoch, header.Fingerprint(), header.signatures[..k])
    && StakeBehind(header.epoch.validators, header.signatures[..k]) >= header.epoch.quorumStake
  }

  ghost predicate ExpectedBy(state: ClientState, header: Header) {
    && header.genesisHash == state.genesisHash
    && (header.epochCommitment == state.epochCommitment || header.epochCommitment == state.prevEpochCommitment)
  }

  /** Headers the client takes for final. */
  ghost predicate Accepted(state: ClientState, header: Header) {
    ExpectedBy(state, header) && exists k: nat :: EnoughAfter(header, k)
  }

  /** A validator may be used once. */
  ghost predicate Unused(vs: seq<Validator>, sigs: seq<(nat, Signature)>, left: seq<Option<Validator>>) {
    && |left| == |vs|
    && forall j | 0 <= j < |vs| ::
         left[j] == if exists i | 0 <= i < |sigs| :: sigs[i].0 == j then None else Some(vs[j])
  }

  lemma {:induction false} GoodMore(epoch: Epoch, fp: Fingerprint, sigs: seq<(nat, Signature)>, i: nat, left: seq<Option<Validator>>)
    requires i < |sigs| && Good(epoch, fp, sigs[..i]) && Unused(epoch.validators, sigs[..i], left)
    ensures var (idx, sig) := sigs[i];
      && (Good(epoch, fp, sigs[..i + 1]) <==>
            idx < |left| && left[idx].Some? && SIGNATURE_VALID(fp, left[idx].value.pubkey, sig))
      && (idx < |left| ==> Unused(epoch.validators, sigs[..i + 1], left[idx := None]))
      && (idx < |left| && left[idx].Some? ==> left[idx].value == epoch.validators[idx])
    ensures StakeBehind(epoch.validators, sigs[..i + 1]) ==
            StakeBehind(epoch.validators, sigs[..i]) + (if sigs[i].0 < |left| then epoch.validators[sigs[i].0].stake else 0)
  {
    hide StakeBehind;
    StakeBehindMore(epoch.validators, sigs, i);
    var next := sigs[..i + 1];
    assert next == sigs[..i] + [sigs[i]];
    var (idx, sig) := sigs[i];
    assert next[i] == sigs[i];
    if Good(epoch, fp, next) {
      assert forall j | 0 <= j < i :: next[j].0 != next[i].0 && next[j] == sigs[..i][j];
    }
    assert forall m | 0 <= m < i :: next[m] == sigs[..i][m];
    if idx < |left| {
      forall j | 0 <= j < |left|
        ensures left[idx := None][j] ==
                if exists m | 0 <= m < |next| :: next[m].0 == j then None else Some(epoch.validators[j])
      {
        if m :| 0 <= m < i && sigs[..i][m].0 == j {
          assert next[m].0 == j;
        }
      }
    }
  }

  lemma {:induction false} StakeBehindMore(vs: seq<Validator>, sigs: seq<(nat, Signature)>, i: nat)
    requires i < |sigs|
    ensures StakeBehind(vs, sigs[..i + 1]) ==
            StakeBehind(vs, sigs[..i]) + (if sigs[i].0 < |vs| then vs[sigs[i].0].stake else 0)
  {
    assert sigs[..i + 1][..i] == sigs[..i];
  }

  lemma {:induction false} GoodPrefix(epoch: Epoch, fp: Fingerprint, sigs: seq<(nat, Signature)>, i: nat, k: nat)
    requires i <= k <= |sigs| && Good(epoch, fp, sigs[..k])
    ensures Good(epoch, fp, sigs[..i])
  {
    assert forall j | 0 <= j < i :: sigs[..i][j] == sigs[..k][j];
  }

  /** The first `i` signatures are good, but not enough; `left` are the validators not used yet. */
  ghost predicate InProgress(header: Header, i: nat, left: seq<Option<Validator>>, quorumLeft: nat) {
    && i <= |header.signatures| && |left| == |header.epoch.validators|
    && Good(header.epoch, header.Fingerprint(), header.signatures[..i])
    && Unused(header.epoch.validators, header.signatures[..i], left)
    && quorumLeft == header.epoch.quorumStake - StakeBehind(header.epoch.validators, header.signatures[..i]) > 0
    && (forall k: nat | k <= i :: !EnoughAfter(header, k))
  }

  lemma {:induction false} NothingSigned(header: Header)
    requires 0 < header.epoch.quorumStake
    ensures var vs := header.epoch.validators;
      InProgress(header, 0, seq(|vs|, i requires 0 <= i < |vs| => Some(vs[i])), header.epoch.quorumStake)
  {
  }

  lemma {:induction false} OneMoreSignature(header: Header, i: nat, left: seq<Option<Validator>>, quorumLeft: nat)
    requires i < |header.signatures| && InProgress(header, i, left, quorumLeft)
    ensures var (idx, sig) := header.signatures[i];
      if idx < |left| && left[idx].Some? && SIGNATURE_VALID(header.Fingerprint(), left[idx].value.pubkey, sig)
      then
        var stake := left[idx].value.stake;
        if stake < quorumLeft then InProgress(header, i + 1, left[idx := None], quorumLeft - stake)
        else exists k: nat :: EnoughAfter(header, k)
      else
        && !Good(header.epoch, header.Fingerprint(), header.signatures)
        && forall k: nat :: !EnoughAfter(header, k)
  {
    GoodMore(header.epoch, header.Fingerprint(), header.signatures, i, left);
    hide Good;
    hide Unused;
    hide StakeBehind;
    if Good(header.epoch, header.Fingerprint(), header.signatures[..i + 1]) {
      assert EnoughAfter(header, i + 1) <==>
        StakeBehind(header.epoch.validators, header.signatures[..i + 1]) >= header.epoch.quorumStake;
    } else {
      NothingEnough(header, i);
    }
  }

  lemma {:induction false} AllSeen(header: Header, left: seq<Option<Validator>>, quorumLeft: nat)
    requires InProgress(header, |header.signatures|, left, quorumLeft)
    ensures Good(header.epoch, header.Fingerprint(), header.signatures)
    ensures forall k: nat :: !EnoughAfter(header, k)
  {
    assert header.signatures[..|header.signatures|] == header.signatures;
  }

  /** Verifies a header.  It passes just when different validators of an epoch the client knows, with a quorum
      between them, have signed it before anything objectionable comes up. */
  method VerifyHeader(state: ClientState, header: Header) returns (r: Result<(), VerifyError>)
    requires 0 < header.epoch.quorumStake
    ensures r.Ok? <==> Accepted(state, header)
    ensures r == Err(UnexpectedGenesisHash) <==> header.genesisHash != state.genesisHash
    ensures r == Err(UnexpectedEpoch) <==> header.genesisHash == state.genesisHash && !ExpectedBy(state, header)
    ensures r == Err(QuorumNotReached) ==> Good(header.epoch, header.Fingerprint(), header.signatures)
    ensures r.Err? && r.error in {IndexOutOfBounds, DuplicateSignature, InvalidSignature} ==>
      && !Good(header.epoch, header.Fingerprint(), header.signatures)
      && exists i: nat :: Trips(header, i, r.error)
  {
    hide InProgress;
    hide Trips;
    hide Good;
    hide EnoughAfter;
    if header.genesisHash != state.genesisHash {
      return Err(UnexpectedGenesisHash);
    }
    if header.epochCommitment != state.epochCommitment && header.epochCommitment != state.prevEpochCommitment {
      return Err(UnexpectedEpoch);
    }
    var fp := header.Fingerprint();
    var vs := header.epoch.validators;
    var quorumLeft: nat := header.epoch.quorumStake;
    var validators := seq(|vs|, i requires 0 <= i < |vs| => Some(vs[i]));
    NothingSigned(header);
    for i := 0 to |header.signatures|
      invariant InProgress(header, i, validators, quorumLeft)
    {
      OneMoreSignature(header, i, validators, quorumLeft);
      WhyTrips(header, i, validators, quorumLeft);
      var (idx, sig) := header.signatures[i];
      if idx >= |validators| {
        return Err(IndexOutOfBounds);
      }
      if validators[idx].None? {
        return Err(DuplicateSignature);
      }
      var validator := validators[idx].value;
      validators := validators[idx := None];
      if !SIGNATURE_VALID(fp, validator.pubkey, sig) {
        return Err(InvalidSignature);
      }
      quorumLeft := if quorumLeft > validator.stake then quorumLeft - validator.stake else 0;
      if quorumLeft == 0 {
        return Ok(());
      }
    }
    AllSeen(header, validators, quorumLeft);
    return Err(QuorumNotReached);
  }

  /** Verification stumbles over signature `i`, those before it being good. */
  ghost predicate Trips(header: Header, i: nat, e: VerifyError) {
    var (vs, sigs) := (header.epoch.validators, header.signatures);
    && i < |sigs| && Good(header.epoch, header.Fingerprint(), sigs[..i])
    && match e
       case IndexOutOfBounds => |vs| <= sigs[i].0
       case DuplicateSignature => exists j :: 0 <= j < i && sigs[j].0 == sigs[i].0
       case InvalidSignature =>
         && sigs[i].0 < |vs| && (forall j | 0 <= j < i :: sigs[j].0 != sigs[i].0)
         && !SIGNATURE_VALID(header.Fingerprint(), vs[sigs[i].0].pubkey, sigs[i].1)
       case _ => false
  }

  lemma WhyTrips(header: Header, i: nat, left: seq<Option<Validator>>, quorumLeft: nat)
    requires i < |header.signatures| && InProgress(header, i, left, quorumLeft)
    ensures var (idx, sig) := header.signatures[i];
      && (|left| <= idx ==> Trips(header, i, IndexOutOfBounds))
      && (idx < |left| && left[idx].None? ==> Trips(header, i, DuplicateSignature))
      && (idx < |left| && left[idx].Some? && !SIGNATURE_VALID(header.Fingerprint(), left[idx].value.pubkey, sig) ==>
            Trips(header, i, InvalidSignature))
  {
    var sigs := header.signatures;
    assert forall j | 0 <= j < i :: sigs[..i][j] == sigs[j];
  }

  /** A bad signature ends the matter. */
  lemma {:induction false} NothingEnough(header: Header, i: nat)
    requires i < |header.signatures| && !Good(header.epoch, header.Fingerprint(), header.signatures[..i + 1])
    requires forall k: nat | k <= i :: !EnoughAfter(header, k)
    ensures forall k: nat :: !EnoughAfter(header, k)
    ensures !Good(header.epoch, header.Fingerprint(), header.signatures)
  {
    forall k | i + 1 <= k <= |header.signatures|
      ensures !Good(header.epoch, header.Fingerprint(), header.signatures[..k])
    {
      if Good(header.epoch, header.Fingerprint(), header.signatures[..k]) {
        GoodPrefix(header.epoch, header.Fingerprint(), header.signatures, i + 1, k);
      }
    }
    assert header.signatures[..|header.signatures|] == header.signatures;
  }

  ghost function Signers(vs: seq<Validator>, sigs: seq<(nat, Signature)>): set<PubKey> {
    set i | 0 <= i < |sigs| && sigs[i].0 < |vs| :: vs[sigs[i].0].pubkey
  }

  lemma {:induction false} StakeAt(vs: seq<Validator>, i: nat)
    requires DistinctKeys(vs) && i < |vs|
    ensures StakeOf(vs, vs[i].pubkey) == vs[i].stake
  {
    if i > 0 {
      assert vs[0].pubkey != vs[i].pubkey;
      StakeAt(vs[1..], i - 1);
    }
  }

  /** Stake counted by position is stake counted by signer. */
  lemma {:induction false} StakeOfSigners(epoch: Epoch, fp: Fingerprint, sigs: seq<(nat, Signature)>)
    requires DistinctKeys(epoch.validators) && Good(epoch, fp, sigs)
    ensures var signers := Signers(epoch.validators, sigs);
      && SignedStake(epoch.validators, signers) == StakeBehind(epoch.validators, sigs)
      && signers <= Keys(epoch.validators) && SignedByAll(fp, signers)
    decreases |sigs|
  {
    var vs := epoch.validators;
    if sigs == [] {
      SignedNone(vs);
      assert Signers(vs, sigs) == {};
    } else {
      var n := |sigs| - 1;
      var lower, last := sigs[..n], sigs[n];
      StakeOfSigners(epoch, fp, lower);
      var pk := vs[last.0].pubkey;
      assert HasSigned(fp, pk);
      assert vs[last.0] in vs;
      SignersMore(vs, sigs);
      assert forall i | 0 <= i < n :: lower[i].0 != sigs[n].0;
      assert pk !in Signers(vs, lower);
      SignedAdd(vs, Signers(vs, lower), pk);
      StakeAt(vs, last.0);
    }
  }

  lemma {:induction false} SignersMore(vs: seq<Validator>, sigs: seq<(nat, Signature)>)
    requires sigs != [] && sigs[|sigs| - 1].0 < |vs|
    ensures Signers(vs, sigs) == Signers(vs, sigs[..|sigs| - 1]) + {vs[sigs[|sigs| - 1].0].pubkey}
  {
    var n := |sigs| - 1;
    var lower := sigs[..n];
    assert forall i | 0 <= i < n :: sigs[i] == lower[i];
    forall pk ensures pk in Signers(vs, sigs) <==> pk in Signers(vs, lower) + {vs[sigs[n].0].pubkey} {
      if i :| 0 <= i < n && lower[i].0 < |vs| && vs[lower[i].0].pubkey == pk {
        assert sigs[i] == lower[i];
      }
    }
  }

  /** An accepted header was signed by a quorum of its epoch. */
  lemma {:induction false} AcceptedHasQuorum(state: ClientState, header: Header) returns (signers: set<PubKey>)
    requires Accepted(state, header) && DistinctKeys(header.epoch.validators)
    ensures Quorum(header.epoch, header.Fingerprint(), signers)
  {
    var k: nat :| EnoughAfter(header, k);
    StakeOfSigners(header.epoch, header.Fingerprint(), header.signatures[..k]);
    signers := Signers(header.epoch.validators, header.signatures[..k]);
  }

  /** Signatures of all signers among the first `n` validators, in the validators' order. */
  lemma {:induction false} Collect(epoch: Epoch, fp: Fingerprint, signers: set<PubKey>, n: nat)
    returns (sigs: seq<(nat, Signature)>)
    requires n <= |epoch.validators| && SignedByAll(fp, signers)
    ensures Good(epoch, fp, sigs) && (forall i | 0 <= i < |sigs| :: sigs[i].0 < n)
    ensures StakeBehind(epoch.validators, sigs) == SignedStake(epoch.validators[..n], signers)
  {
    if n == 0 {
      sigs := [];
    } else {
      var m := n - 1;
      var lower := Collect(epoch, fp, signers, m);
      var v := epoch.validators[m];
      SignedStakeMore(epoch.validators, signers, m);
      if v.pubkey in signers {
        assert HasSigned(fp, v.pubkey);
        var s :| SIGNATURE_VALID(fp, v.pubkey, s);
        sigs := lower + [(m, s)];
        assert sigs[..|lower|] == lower;
      } else {
        sigs := lower;
      }
    }
  }

  lemma {:induction false} SignedStakeMore(vs: seq<Validator>, signers: set<PubKey>, m: nat)
    requires m < |vs|
    ensures SignedStake(vs[..m + 1], signers) ==
            SignedStake(vs[..m], signers) + if vs[m].pubkey in signers then vs[m].stake else 0
  {
    if m > 0 {
      SignedStakeMore(vs[1..], signers, m - 1);
      assert vs[1..][..m] == vs[..m + 1][1..] && vs[1..][..m - 1] == vs[..m][1..];
    } else {
      assert vs[..1][1..] == [];
    }
  }

  /** Conversely, whatever a quorum has signed can be presented so that the client accepts it. */
  lemma {:induction false} QuorumIsAccepted(state: ClientState, header: Header, signers: set<PubKey>) returns (sigs: seq<(nat, Signature)>)
    requires ExpectedBy(state, header) && Quorum(header.epoch, header.Fingerprint(), signers)
    ensures Accepted(state, header.(signatures := sigs))
  {
    var vs := header.epoch.validators;
    sigs := Collect(header.epoch, header.Fingerprint(), signers, |vs|);
    assert vs[..|vs|] == vs && sigs[..|sigs|] == sigs;
    assert EnoughAfter(header.(signatures := sigs), |sigs|);
  }

  // ----- consensus states

  /** Later blocks have later timestamps. */
  ghost predicate TimesRise(m: map<nat, ConsensusState>) {
    forall a, b | a in m && b in m && a < b :: m[a].timestampNs < m[b].timestampNs
  }

  /** `p` is the greatest height below `h`. */
  ghost predicate IsPrev(m: map<nat, ConsensusState>, h: nat, p: nat) {
    p in m && p < h && forall q | q in m && q < h :: q <= p
  }

  ghost predicate IsNext(m: map<nat, ConsensusState>, h: nat, n: nat) {
    n in m && h < n && forall q | q in m && h < q :: n <= q
  }

  ghost predicate IsEarliest(m: map<nat, ConsensusState>, e: nat) {
    e in m && forall q | q in m :: e <= q
  }

  /** The header contradicts what the client has stored. */
  ghost predicate Contradicts(m: map<nat, ConsensusState>, header: Header) {
    var h := header.blockHeader.blockHeight;
    if h in m then m[h] != StateOf(header)
    else exists q :: q in m && ((q < h && header.blockHeader.timestampNs <= m[q].timestampNs)
                                || (h < q && header.blockHeader.timestampNs >= m[q].timestampNs))
  }

  /** A header contradicts what is stored exactly when it cannot be stored along with it. */
  lemma {:induction false} ContradictionIsConflict(m: map<nat, ConsensusState>, header: Header)
    requires TimesRise(m)
    ensures var h := header.blockHeader.blockHeight;
      Contradicts(m, header) <==>
      !exists n :: TimesRise(n) && h in n && n[h] == StateOf(header) && forall q | q in m :: q in n && n[q] == m[q]
  {
    var h := header.blockHeader.blockHeight;
    if !Contradicts(m, header) {
      if h !in m {
        ConsistentKeepsRising(m, header);
      }
      var n := m[h := StateOf(header)];
      assert TimesRise(n);
    } else if h !in m {
      var q :| q in m && ((q < h && header.blockHeader.timestampNs <= m[q].timestampNs)
                          || (h < q && header.blockHeader.timestampNs >= m[q].timestampNs));
      forall n | h in n && n[h] == StateOf(header) && forall q | q in m :: q in n && n[q] == m[q]
        ensures !TimesRise(n)
      {
        assert n[q] == m[q];
      }
    }
  }

  /** Headers that do not contradict are exactly those that keep the timestamps rising. */
  lemma {:induction false} ConsistentKeepsRising(m: map<nat, ConsensusState>, header: Header)
    requires TimesRise(m) && header.blockHeader.blockHeight !in m
    ensures TimesRise(m[header.blockHeader.blockHeight := StateOf(header)]) <==> !Contradicts(m, header)
  {
    var h := header.blockHeader.blockHeight;
    var n := m[h := StateOf(header)];
    if q :| q in m && ((q < h && header.blockHeader.timestampNs <= m[q].timestampNs)
                       || (h < q && header.blockHeader.timestampNs >= m[q].timestampNs)) {
      assert q in n && h in n && n[q] == m[q];
    }
  }

  function Later(ns: nat, period: nat): nat {
    if ns + period < U64_LIMIT then ns + period else U64_LIMIT - 1
  }

  /** A state has expired once the trusting period has gone by since its timestamp.  The end of the period is a
      64-bit number, so that all states have expired at the last moment there is. */
  predicate HasExpired(state: ClientState, consensus: ConsensusState, hostTimestamp: nat): (r: bool)
    ensures r <==> consensus.timestampNs + state.trustingPeriodNs <= hostTimestamp || U64_LIMIT - 1 <= hostTimestamp
  {
    Later(consensus.timestampNs, state.trustingPeriodNs) <= hostTimestamp
  }

  /** Two headers that cannot both belong to the chain. */
  predicate Misbehaviour(a: Header, b: Header) {
    var (x, y) := (a.blockHeader, b.blockHeader);
    if x.blockHeight == y.blockHeight then a.blockHash != b.blockHash
    else if x.blockHeight < y.blockHeight then !(x.timestampNs < y.timestampNs)
    else !(x.timestampNs > y.timestampNs)
  }

  /** A map that holds the states of both headers. */
  ghost predicate HoldsBoth(m: map<nat, ConsensusState>, a: Header, b: Header) {
    var (x, y) := (a.blockHeader.blockHeight, b.blockHeader.blockHeight);
    x in m && m[x] == StateOf(a) && y in m && m[y] == StateOf(b)
  }

  /** Two headers are evidence exactly when no client with timestamps that rise with height could store both. */
  lemma {:induction false} EvidenceIsConflict(a: Header, b: Header)
    requires a.Valid() && b.Valid() && NoHeaderCollision({a.blockHeader, b.blockHeader})
    ensures Misbehaviour(a, b) <==> !exists m :: TimesRise(m) && HoldsBoth(m, a, b)
  {
    var (x, y) := (a.blockHeader, b.blockHeader);
    var m := map[x.blockHeight := StateOf(a), y.blockHeight := StateOf(b)];
    if !Misbehaviour(a, b) {
      if x.blockHeight == y.blockHeight {
        assert x in {x, y} && y in {x, y};
        assert StateOf(a) == StateOf(b);
      }
      assert TimesRise(m) && HoldsBoth(m, a, b);
    }
  }

  /** A header contradicts the state of another one exactly when the two are evidence. */
  lemma {:induction false} ContradictionIsMisbehaviour(a: Header, b: Header)
    requires a.blockHash == BLOCK_DIGEST(a.blockHeader) && b.blockHash == BLOCK_DIGEST(b.blockHeader)
    requires NoHeaderCollision({a.blockHeader, b.blockHeader})
    ensures Contradicts(map[b.blockHeader.blockHeight := StateOf(b)], a) <==> Misbehaviour(a, b)
  {
    var m := map[b.blockHeader.blockHeight := StateOf(b)];
    assert b.blockHeader.blockHeight in m;
    assert a.blockHeader in {a.blockHeader, b.blockHeader} && b.blockHeader in {a.blockHeader, b.blockHeader};
  }

  lemma EvidenceIsMutual(a: Header, b: Header)
    ensures Misbehaviour(a, b) <==> Misbehaviour(b, a)
  {
  }

  ghost function Pruned(state: ClientState, m: map<nat, ConsensusState>, now: nat): map<nat, ConsensusState> {
    map h | h in m && !(IsEarliest(m, h) && HasExpired(state, m[h], now)) :: m[h]
  }

  /** What a client remembers. */
  datatype View = View(state: ClientState, consensus: map<nat, ConsensusState>)

  /** What a client remembers once it has taken a header in. */
  ghost function Updated(v: View, header: Header, now: nat): View {
    var h := header.blockHeader.blockHeight;
    if h == 0 then v
    else
      var kept := Pruned(v.state, v.consensus, now);
      if h in kept then v.(consensus := kept)
      else View(v.state.WithHeader(header), kept[h := StateOf(header)])
  }

  /** What is left, as `w`, of what the client remembered once it has taken a header in: the state of the header is
      stored; what else was stored stays, unless it is the earliest state and expired, which goes; the client
      moves to the height if it was not there before. */
  ghost predicate TakenIn(v: View, header: Header, now: nat, w: View) {
    var (m, n, h) := (v.consensus, w.consensus, header.blockHeader.blockHeight);
    if h == 0 then w == v
    else
      && h in n && (h !in m ==> n[h] == StateOf(header))
      && (forall q | q in n :: q in m || q == h)
      && (forall q | q in m ::
            if (forall o | o in m :: q <= o)
               && (m[q].timestampNs + v.state.trustingPeriodNs <= now || U64_LIMIT - 1 <= now)
            then q in n ==> q == h && n[q] == StateOf(header)
            else q in n && n[q] == m[q])
      && (h !in m ==> w.state.latestHeight == if v.state.latestHeight < h then h else v.state.latestHeight)
      && w.state.genesisHash == v.state.genesisHash && w.state.isFrozen == v.state.isFrozen
      && w.state.trustingPeriodNs == v.state.trustingPeriodNs
  }

  lemma {:induction false} UpdateTakesIn(v: View, header: Header, now: nat)
    ensures TakenIn(v, header, now, Updated(v, header, now))
  {
  }

  class LightClient {
    var state: ClientState
    var consensus: map<nat, ConsensusState>

    constructor (state: ClientState, consensus: map<nat, ConsensusState>)
      ensures this.state == state && this.consensus == consensus
    {
      this.state := state;
      this.consensus := consensus;
    }

    method Earliest() returns (r: Option<nat>)
      ensures r.None? <==> consensus == map[]
      ensures r.Some? ==> IsEarliest(consensus, r.value)
    {
      var left := consensus.Keys;
      r := None;
      while left != {}
        invariant left <= consensus.Keys
        invariant r.None? ==> left == consensus.Keys
        invariant r.Some? ==> r.value in consensus && forall q | q in consensus && q !in left :: r.value <= q
        decreases |left|
      {
        var h :| h in left;
        left := left - {h};
        if r.None? || h < r.value {
          r := Some(h);
        }
      }
    }

    /** What is stored next to a height. */
    method Neighbours(height: nat) returns (prev: Option<nat>, next: Option<nat>)
      ensures prev.Some? ==> IsPrev(consensus, height, prev.value)
      ensures prev.None? ==> forall q | q in consensus :: q >= height
      ensures next.Some? ==> IsNext(consensus, height, next.value)
      ensures next.None? ==> forall q | q in consensus :: q <= height
    {
      var left := consensus.Keys;
      prev, next := None, None;
      while left != {}
        invariant left <= consensus.Keys
        invariant prev.None? ==> forall q | q in consensus && q !in left :: q >= height
        invariant prev.Some? ==> prev.value in consensus && prev.value < height
                                 && forall q | q in consensus && q !in left && q < height :: q <= prev.value
        invariant next.None? ==> forall q | q in consensus && q !in left :: q <= height
        invariant next.Some? ==> next.value in consensus && height < next.value
                                 && forall q | q in consensus && q !in left && height < q :: next.value <= q
        decreases |left|
      {
        var h :| h in left;
        left := left - {h};
        if h < height && (prev.None? || prev.value < h) {
          prev := Some(h);
        }
        if height < h && (next.None? || h < next.value) {
          next := Some(h);
        }
      }
    }

    /** Whether a header is evidence of misbehaviour; `None` for height zero, which is an error as IBC heights start
        at one.  Looking at the neighbours is enough to compare it with everything stored. */
    method CheckForMisbehaviourInHeader(header: Header) returns (found: Option<bool>)
      requires TimesRise(consensus)
      ensures found.None? <==> header.blockHeader.blockHeight == 0
      ensures found.Some? ==> (found.value <==> Contradicts(consensus, header))
    {
      var height := header.blockHeader.blockHeight;
      if height == 0 {
        return None;
      }
      if height in consensus {
        return Some(consensus[height] != StateOf(header));
      }
      var prev, next := Neighbours(height);
      var time := header.blockHeader.timestampNs;
      if prev.Some? {
        if time <= consensus[prev.value].timestampNs {
          return Some(true);
        }
      }
      if next.Some? {
        if time >= consensus[next.value].timestampNs {
          return Some(true);
        }
      }
      forall q | q in consensus
        ensures q < height ==> time > consensus[q].timestampNs
        ensures height < q ==> time < consensus[q].timestampNs
      {
        if q < height && q != prev.value {
          assert consensus[q].timestampNs < consensus[prev.value].timestampNs;
        } else if height < q && q != next.value {
          assert consensus[next.value].timestampNs < consensus[q].timestampNs;
        }
      }
      return Some(false);
    }

    method PruneOldestConsensusState(hostTimestamp: nat)
      modifies this`consensus
      ensures consensus == Pruned(state, old(consensus), hostTimestamp)
    {
      var earliest := Earliest();
      if earliest.Some? {
        if HasExpired(state, consensus[earliest.value], hostTimestamp) {
          consensus := consensus - {earliest.value};
        }
      }
    }

    /** Takes an accepted header in.  A header for a height that is still stored changes nothing but what
        expired; IBC heights start at one. */
    method DoUpdateState(header: Header, hostTimestamp: nat) returns (r: Option<nat>)
      modifies this
      ensures r == if header.blockHeader.blockHeight == 0 then None else Some(header.blockHeader.blockHeight)
      ensures View(state, consensus) == Updated(old(View(state, consensus)), header, hostTimestamp)
      ensures TakenIn(old(View(state, consensus)), header, hostTimestamp, View(state, consensus))
      ensures TimesRise(old(consensus)) && !Contradicts(old(consensus), header) ==> TimesRise(consensus)
    {
      hide Pruned;
      hide HasExpired;
      hide Contradicts;
      hide TimesRise;
      hide TakenIn;
      UpdateTakesIn(View(state, consensus), header, hostTimestamp);
      var height := header.blockHeader.blockHeight;
      if height == 0 {
        return None;
      }
      ghost var before := consensus;
      PruneOldestConsensusState(hostTimestamp);
      ghost var kept := consensus;
      if TimesRise(before) {
        PrunedRises(state, before, hostTimestamp);
      }
      if TimesRise(before) && !Contradicts(before, header) && height !in kept {
        PrunedStaysConsistent(state, before, header, hostTimestamp);
      }
      if height !in consensus {
        state := state.WithHeader(header);
        consensus := consensus[height := StateOf(header)];
      }
      return Some(height);
    }

    /** Freezes the client. */
    method UpdateStateOnMisbehaviour()
      modifies this`state
      ensures state == old(state).(isFrozen := true)
    {
      state := state.(isFrozen := true);
    }
  }

  lemma PrunedRises(state: ClientState, m: map<nat, ConsensusState>, now: nat)
    requires TimesRise(m)
    ensures TimesRise(Pruned(state, m, now))
  {
  }

  /** Pruning first does not let a contradiction through, even for the height pruned. */
  lemma {:induction false} PrunedStaysConsistent(state: ClientState, m: map<nat, ConsensusState>, header: Header, now: nat)
    requires TimesRise(m) && !Contradicts(m, header)
    requires header.blockHeader.blockHeight !in Pruned(state, m, now)
    ensures TimesRise(Pruned(state, m, now)[header.blockHeader.blockHeight := StateOf(header)])
  {
    var h := header.blockHeader.blockHeight;
    if h !in m {
      ConsistentKeepsRising(m, header);
      var n := m[h := StateOf(header)];
      assert forall a | a in Pruned(state, m, now)[h := StateOf(header)] ::
        a in n && n[a] == Pruned(state, m, now)[h := StateOf(header)][a];
    }
  }
}
