/** A client following a chain: what it accepts, and when its two commitments are the right ones. */
module Following {
  import opened Wrappers
  import opened Candidates
  import opened Epochs
  import opened GuestChain
  import opened Client

  ghost predicate Started(c: seq<Finalised>) {
    c != [] && c[0].nextEpoch.Some?
  }

  lemma LinkedStarts(c: seq<Finalised>)
    requires Linked(c)
    ensures Started(c)
  {
  }

  /** The epoch that signs the block at position `i`. */
  ghost function EpochAt(c: seq<Finalised>, i: nat): Epoch
    requires Started(c) && 0 < i <= |c|
  {
    SigningEpoch(c[..i])
  }

  /** The epoch before that one; the first epoch counts as its own predecessor. */
  ghost function EpochBefore(c: seq<Finalised>, i: nat): Epoch
    requires Started(c) && 0 < i <= |c|
  {
    var s := EpochStart(c[..i]);
    if s == 0 then EpochAt(c, i) else EpochAt(c, s)
  }

  /** The header of a finalised block as it is shown to the client. */
  ghost function HeaderFor(c: seq<Finalised>, i: nat, sigs: seq<(nat, Signature)>): Header
    requires Started(c) && 0 < i < |c|
  {
    var epoch := EpochAt(c, i);
    Header(BLOCK_DIGEST(c[0].header), BLOCK_DIGEST(c[i].header), c[i].header, Commitment(epoch), epoch, sigs)
  }

  /** The client knows blocks up to position `k`: it expects the epoch that signs the next block. */
  ghost predicate InSync(state: ClientState, c: seq<Finalised>, k: nat)
    requires Started(c) && k < |c|
  {
    && state.genesisHash == BLOCK_DIGEST(c[0].header)
    && state.latestHeight == c[k].header.blockHeight
    && state.epochCommitment == Commitment(EpochAt(c, k + 1))
    && state.prevEpochCommitment == Commitment(EpochBefore(c, k + 1))
  }

  lemma {:induction false} NextEpochAt(c: seq<Finalised>, i: nat)
    requires Started(c) && 0 < i < |c|
    ensures EpochAt(c, i + 1) == (if c[i].nextEpoch.Some? then c[i].nextEpoch.value else EpochAt(c, i))
    ensures EpochBefore(c, i + 1) == (if c[i].nextEpoch.Some? then EpochAt(c, i) else EpochBefore(c, i))
  {
    assert c[..i + 1][..i] == c[..i];
    assert Last(c[..i + 1]) == c[i];
    var s := EpochStart(c[..i]);
    assert c[..i + 1][s] == c[..i][s];
  }

  /** A header above the latest height takes an up-to-date client to the block it is for just when it belongs to
      the epoch the client expects, not to the one before; unless it ends its epoch, its epoch must also have
      the same predecessor. */
  lemma {:induction false} StaysInSync(state: ClientState, c: seq<Finalised>, k: nat, i: nat, sigs: seq<(nat, Signature)>)
    requires Linked(c) && k < i < |c| && InSync(state, c, k)
    ensures InSync(state.WithHeader(HeaderFor(c, i, sigs)), c, i) <==>
      && Commitment(EpochAt(c, i)) == state.epochCommitment
      && (c[i].header.nextEpochCommitment.Some? || Commitment(EpochBefore(c, i)) == state.prevEpochCommitment)
  {
    NextEpochAt(c, i);
    BlockCommits(c, i);
    RisingAlongChain(c, k, i);
    hide Linked;
    hide EpochAt;
    hide EpochBefore;
    hide EpochOk;
  }

  /** Whether the client expects the right epoch next can be told from the header: it ends its epoch, or it is of
      the epoch the client expects now. */
  lemma {:induction false} ExpectsRightEpoch(state: ClientState, c: seq<Finalised>, k: nat, i: nat, sigs: seq<(nat, Signature)>)
    requires Linked(c) && k < i < |c| && InSync(state, c, k)
    ensures var header := HeaderFor(c, i, sigs);
      state.WithHeader(header).epochCommitment == Commitment(EpochAt(c, i + 1)) <==>
      header.blockHeader.nextEpochCommitment.Some? || header.epochCommitment == state.epochCommitment
  {
    NextEpochAt(c, i);
    BlockCommits(c, i);
    RisingAlongChain(c, k, i);
    hide Linked;
    hide EpochAt;
    hide EpochBefore;
    hide EpochOk;
  }

  // ----- epochs with different commitments

  ghost predicate DistinctCommitments(c: seq<Finalised>) {
    forall a, b | 0 <= a < b < |c| && c[a].nextEpoch.Some? && c[b].nextEpoch.Some? ::
      Commitment(c[a].nextEpoch.value) != Commitment(c[b].nextEpoch.value)
  }

  lemma {:induction false} StartsRise(c: seq<Finalised>, k: nat, i: nat)
    requires Started(c) && 0 < k <= i <= |c|
    ensures EpochStart(c[..k]) <= EpochStart(c[..i])
    ensures EpochStart(c[..k]) == EpochStart(c[..i]) ==> EpochAt(c, k) == EpochAt(c, i) && EpochBefore(c, k) == EpochBefore(c, i)
  {
    var s := EpochStart(c[..k]);
    assert c[..k][s] == c[..i][s] == c[s];
  }

  lemma {:induction false} EpochAtStart(c: seq<Finalised>, i: nat)
    requires Started(c) && 0 < i <= |c|
    ensures var s := EpochStart(c[..i]);
      s < i && c[s].nextEpoch == Some(EpochAt(c, i))
      && forall j | s < j < i :: c[j].nextEpoch.None?
  {
    assert forall j | 0 <= j < i :: c[..i][j] == c[j];
  }

  /** With different commitments the client accepts nothing above its latest height but blocks of the epoch it
      expects. */
  lemma {:induction false} OnlyExpectedEpoch(state: ClientState, c: seq<Finalised>, k: nat, i: nat, sigs: seq<(nat, Signature)>)
    requires Started(c) && DistinctCommitments(c) && k < i < |c| && InSync(state, c, k)
    requires ExpectedBy(state, HeaderFor(c, i, sigs))
    ensures EpochStart(c[..i]) == EpochStart(c[..k + 1])
    ensures EpochAt(c, i) == EpochAt(c, k + 1) && EpochBefore(c, i) == EpochBefore(c, k + 1)
  {
    StartsRise(c, k + 1, i);
    EpochAtStart(c, i);
    EpochAtStart(c, k + 1);
    var s := EpochStart(c[..k + 1]);
    if 0 < s {
      EpochAtStart(c, s);
    }
    hide EpochAt;
    hide SigningEpoch;
    hide EpochStart;
  }

  /** The blocks above its latest height an up-to-date client can be made to accept are exactly those up to the
      end of the epoch it expects. */
  lemma {:induction false} AcceptableBlocks(state: ClientState, c: seq<Finalised>, k: nat, i: nat)
    requires Linked(c) && DistinctCommitments(c) && k < i < |c| && InSync(state, c, k)
    ensures (exists sigs :: Accepted(state, HeaderFor(c, i, sigs))) <==>
            forall j | k < j < i :: c[j].header.nextEpochCommitment == None
  {
    forall j | k < j < i
      ensures c[j].header.nextEpochCommitment == CommitmentOf(c[j].nextEpoch)
    {
      BlockCommits(c, j);
    }
    hide Linked;
    hide EpochOk;
    hide Accepted;
    if forall j | k < j < i :: c[j].header.nextEpochCommitment == None {
      var sigs := CanBeAccepted(state, c, k, i);
    } else {
      forall sigs
        ensures !Accepted(state, HeaderFor(c, i, sigs))
      {
        NotAccepted(state, c, k, i, sigs);
      }
    }
  }

  lemma {:induction false} CanBeAccepted(state: ClientState, c: seq<Finalised>, k: nat, i: nat)
    returns (sigs: seq<(nat, Signature)>)
    requires Linked(c) && k < i < |c| && InSync(state, c, k)
    requires forall j | k < j < i :: c[j].nextEpoch.None?
    ensures Accepted(state, HeaderFor(c, i, sigs))
  {
    LinkedAt(c, i);
    hide Linked;
    hide EpochOk;
    hide Accepted;
    assert c[..i][0] == c[0];
    StartsRise(c, k + 1, i);
    EpochAtStart(c, i);
    EpochAtStart(c, k + 1);
    var header := HeaderFor(c, i, []);
    sigs := QuorumIsAccepted(state, header, c[i].signers);
    assert header.(signatures := sigs) == HeaderFor(c, i, sigs);
  }

  lemma {:induction false} NotAccepted(state: ClientState, c: seq<Finalised>, k: nat, i: nat, sigs: seq<(nat, Signature)>)
    requires Started(c) && DistinctCommitments(c) && k < i < |c| && InSync(state, c, k)
    requires exists j :: k < j < i && c[j].nextEpoch.Some?
    ensures !Accepted(state, HeaderFor(c, i, sigs))
  {
    if ExpectedBy(state, HeaderFor(c, i, sigs)) {
      OnlyExpectedEpoch(state, c, k, i, sigs);
      EpochAtStart(c, i);
    }
  }

  /** When an epoch returns after another one, the client accepts a block of it by the older commitment, and is
      left expecting the epoch in between. */
  lemma {:induction false} RepeatedCommitmentMisleads(a: Epoch, b: Epoch, state: ClientState, c: seq<Finalised>)
    returns (sigs: seq<(nat, Signature)>)
    requires Linked(c) && |c| == 4 && Commitment(a) != Commitment(b)
    requires c[0].nextEpoch == Some(a) && c[1].nextEpoch == Some(b) && c[2].nextEpoch == Some(a)
    requires c[3].nextEpoch == None && InSync(state, c, 1)
    ensures Accepted(state, HeaderFor(c, 3, sigs))
    ensures !InSync(state.WithHeader(HeaderFor(c, 3, sigs)), c, 3)
    ensures state.WithHeader(HeaderFor(c, 3, sigs)).epochCommitment == Commitment(b) != Commitment(EpochAt(c, 4))
  {
    LinkedAt(c, 3);
    assert c[..1][0] == c[0] && c[..3][0] == c[0];
    assert EpochAt(c, 1) == a;
    NextEpochAt(c, 1);
    NextEpochAt(c, 2);
    NextEpochAt(c, 3);
    BlockCommits(c, 3);
    RisingAlongChain(c, 1, 3);
    hide Linked;
    hide EpochOk;
    hide Accepted;
    var header := HeaderFor(c, 3, []);
    sigs := QuorumIsAccepted(state, header, c[3].signers);
    assert header.(signatures := sigs) == HeaderFor(c, 3, sigs);
    StaysInSync(state, c, 1, 3, sigs);
  }

  // ----- runs

  function ConsensusOf(f: Finalised): ConsensusState {
    ConsensusState(BLOCK_DIGEST(f.header), f.header.timestampNs)
  }

  ghost predicate Stored(c: seq<Finalised>, k: nat, h: nat, s: ConsensusState) {
    exists j :: 0 <= j <= k && j < |c| && c[j].header.blockHeight == h && s == ConsensusOf(c[j])
  }

  /** The client is up to date and everything it has stored comes from the chain. */
  ghost predicate Tracks(v: View, c: seq<Finalised>, k: nat)
    requires Started(c) && k < |c|
  {
    InSync(v.state, c, k) && forall h | h in v.consensus :: Stored(c, k, h, v.consensus[h])
  }

  lemma {:induction false} StoredAt(c: seq<Finalised>, k: nat, h: nat, s: ConsensusState, i: nat)
    requires Linked(c) && Stored(c, k, h, s) && i < |c|
    ensures c[i].header.blockHeight == h ==> s == ConsensusOf(c[i])
    ensures c[i].header.blockHeight < h ==> c[i].header.timestampNs < s.timestampNs
    ensures h < c[i].header.blockHeight ==> s.timestampNs < c[i].header.timestampNs
  {
    var j :| 0 <= j <= k && j < |c| && c[j].header.blockHeight == h && s == ConsensusOf(c[j]);
    if i < j {
      RisingAlongChain(c, i, j);
    } else if j < i {
      RisingAlongChain(c, j, i);
    }
  }

  /** Blocks of one chain never look like misbehaviour, neither against what is stored nor against each other. */
  lemma {:induction false} NeverFlagged(v: View, c: seq<Finalised>, k: nat, i: nat, sigs: seq<(nat, Signature)>)
    requires Linked(c) && k < |c| && 0 < i < |c| && Tracks(v, c, k)
    ensures TimesRise(v.consensus)
    ensures !Contradicts(v.consensus, HeaderFor(c, i, sigs))
  {
    forall a, b | a in v.consensus && b in v.consensus && a < b
      ensures v.consensus[a].timestampNs < v.consensus[b].timestampNs
    {
      var j :| 0 <= j <= k && j < |c| && c[j].header.blockHeight == b && v.consensus[b] == ConsensusOf(c[j]);
      StoredAt(c, k, a, v.consensus[a], j);
    }
    forall h | h in v.consensus
      ensures c[i].header.blockHeight == h ==> v.consensus[h] == ConsensusOf(c[i])
      ensures c[i].header.blockHeight < h ==> c[i].header.timestampNs < v.consensus[h].timestampNs
      ensures h < c[i].header.blockHeight ==> v.consensus[h].timestampNs < c[i].header.timestampNs
    {
      StoredAt(c, k, h, v.consensus[h], i);
    }
    hide Linked;
    hide Stored;
    hide InSync;
  }

  lemma {:induction false} NoMisbehaviour(c: seq<Finalised>, i: nat, j: nat, si: seq<(nat, Signature)>, sj: seq<(nat, Signature)>)
    requires Linked(c) && 0 < i < |c| && 0 < j < |c|
    ensures !Misbehaviour(HeaderFor(c, i, si), HeaderFor(c, j, sj))
  {
    if i < j {
      RisingAlongChain(c, i, j);
    } else if j < i {
      RisingAlongChain(c, j, i);
    }
  }

  /** A header shown to the client: of which block, with which signatures, and when. */
  datatype Delivery = Delivery(block: nat, signatures: seq<(nat, Signature)>, now: nat)

  ghost predicate Takes(v: View, c: seq<Finalised>, d: Delivery)
    requires Started(c)
  {
    0 < d.block < |c| && Accepted(v.state, HeaderFor(c, d.block, d.signatures))
  }

  ghost function Deliver(v: View, c: seq<Finalised>, d: Delivery): View
    requires Started(c)
  {
    if Takes(v, c, d) then Updated(v, HeaderFor(c, d.block, d.signatures), d.now) else v
  }

  /** Accepting a block keeps the client up to date: with the chain up to that block or, if that is further, up
      to where it was. */
  lemma {:induction false} DeliverTracks(v: View, c: seq<Finalised>, k: nat, d: Delivery)
    requires Linked(c) && DistinctCommitments(c) && k < |c| && Tracks(v, c, k)
    ensures Tracks(Deliver(v, c, d), c, if Takes(v, c, d) && k < d.block then d.block else k)
    ensures Takes(v, c, d) && k < d.block ==> EpochAt(c, d.block) == EpochAt(c, k + 1)
  {
    hide Linked;
    hide InSync;
    hide Accepted;
    hide EpochAt;
    hide EpochBefore;
    LinkedStarts(c);
    if Takes(v, c, d) {
      var i := d.block;
      var header := HeaderFor(c, i, d.signatures);
      var n := if k < i then i else k;
      StateMoves(v.state, c, k, i, d.signatures);
      if k < i {
        AboveIsNew(v, c, k, i);
      } else if i < k {
        RisingAlongChain(c, i, k);
      }
      RisingAlongChain(c, 0, i);
      StoredMoves(v, c, k, i, n, header, d.now);
    }
  }

  /** An accepted header leaves the client state up to date. */
  lemma {:induction false} StateMoves(state: ClientState, c: seq<Finalised>, k: nat, i: nat, sigs: seq<(nat, Signature)>)
    requires Linked(c) && DistinctCommitments(c) && k < |c| && 0 < i < |c| && InSync(state, c, k)
    requires Accepted(state, HeaderFor(c, i, sigs))
    ensures InSync(state.WithHeader(HeaderFor(c, i, sigs)), c, if k < i then i else k)
    ensures k < i ==> EpochAt(c, i) == EpochAt(c, k + 1)
  {
    if k < i {
      OnlyExpectedEpoch(state, c, k, i, sigs);
      StaysInSync(state, c, k, i, sigs);
    } else if i < k {
      RisingAlongChain(c, i, k);
    }
  }

  /** The state of an accepted block is stored, if it was not before. */
  lemma {:induction false} DeliverStores(v: View, c: seq<Finalised>, k: nat, d: Delivery)
    requires Linked(c) && k < |c| && Tracks(v, c, k) && Takes(v, c, d)
    ensures var (w, h) := (Deliver(v, c, d), c[d.block].header.blockHeight);
      h in w.consensus && w.consensus[h] == ConsensusOf(c[d.block])
  {
    var h := c[d.block].header.blockHeight;
    RisingAlongChain(c, 0, d.block);
    if h in v.consensus {
      StoredAt(c, k, h, v.consensus[h], d.block);
    }
    hide Linked;
    hide Accepted;
    hide EpochAt;
  }

  /** A stored state stays as it is while it is younger than the trusting period. */
  lemma {:induction false} DeliverKeeps(v: View, c: seq<Finalised>, d: Delivery, h: nat)
    requires Started(c) && h in v.consensus
    requires d.now < v.consensus[h].timestampNs + v.state.trustingPeriodNs && d.now < U64_LIMIT - 1
    ensures var w := Deliver(v, c, d);
      h in w.consensus && w.consensus[h] == v.consensus[h] && w.state.trustingPeriodNs == v.state.trustingPeriodNs
  {
    hide Accepted;
    hide EpochAt;
  }

  /** Once a block has been accepted its state can be looked up until the trusting period is over, whatever else
      is delivered. */
  lemma {:induction false} AcceptedStaysStored(v: View, c: seq<Finalised>, k: nat, d: Delivery, ds: seq<Delivery>)
    requires Linked(c) && k < |c| && Tracks(v, c, k) && Takes(v, c, d)
    requires forall i | 0 <= i < |ds| ::
      ds[i].now < c[d.block].header.timestampNs + v.state.trustingPeriodNs && ds[i].now < U64_LIMIT - 1
    ensures var (w, h) := (Run(Deliver(v, c, d), c, ds), c[d.block].header.blockHeight);
      h in w.consensus && w.consensus[h] == ConsensusOf(c[d.block])
  {
    DeliverStores(v, c, k, d);
    var w := Deliver(v, c, d);
    assert w.state.trustingPeriodNs == v.state.trustingPeriodNs;
    RunKeeps(w, c, ds, c[d.block].header.blockHeight);
  }

  lemma {:induction false} RunKeeps(v: View, c: seq<Finalised>, ds: seq<Delivery>, h: nat)
    requires Started(c) && h in v.consensus
    requires forall i | 0 <= i < |ds| ::
      ds[i].now < v.consensus[h].timestampNs + v.state.trustingPeriodNs && ds[i].now < U64_LIMIT - 1
    ensures h in Run(v, c, ds).consensus && Run(v, c, ds).consensus[h] == v.consensus[h]
    decreases |ds|
  {
    if ds != [] {
      DeliverKeeps(v, c, ds[0], h);
      hide Deliver;
      RunKeeps(Deliver(v, c, ds[0]), c, ds[1..], h);
    }
  }

  /** A header contradicts a finalised block exactly when the two are evidence of misbehaviour. */
  lemma {:induction false} BlockIsEvidence(c: seq<Finalised>, j: nat, header: Header, sigs: seq<(nat, Signature)>)
    requires Linked(c) && 0 < j < |c| && header.Valid()
    requires NoHeaderCollision({header.blockHeader, c[j].header})
    ensures Contradicts(map[c[j].header.blockHeight := ConsensusOf(c[j])], header) <==>
            Misbehaviour(header, HeaderFor(c, j, sigs))
  {
    hide EpochAt;
    hide Contradicts;
    hide Misbehaviour;
    LinkedStarts(c);
    ContradictionIsMisbehaviour(header, HeaderFor(c, j, sigs));
  }

  /** A header the client flags contradicts a block of the chain that the client has stored; together with that
      block's header it is evidence. */
  lemma {:induction false} FlaggedIsEvidence(v: View, c: seq<Finalised>, k: nat, header: Header, sigs: seq<(nat, Signature)>)
    returns (j: nat)
    requires Linked(c) && k < |c| && Tracks(v, c, k) && header.Valid()
    requires Contradicts(v.consensus, header)
    requires forall f | f in c :: NoHeaderCollision({header.blockHeader, f.header})
    ensures j <= k && Contradicts(map[c[j].header.blockHeight := ConsensusOf(c[j])], header)
    ensures 0 < j ==> Misbehaviour(header, HeaderFor(c, j, sigs))
  {
    hide Linked;
    hide InSync;
    hide NoHeaderCollision;
    var q := ContradictedState(v.consensus, header);
    assert Stored(c, k, q, v.consensus[q]);
    j :| 0 <= j <= k && j < |c| && c[j].header.blockHeight == q && v.consensus[q] == ConsensusOf(c[j]);
    if 0 < j {
      assert c[j] in c;
      BlockIsEvidence(c, j, header, sigs);
    }
  }

  /** One of the states a header contradicts. */
  lemma {:induction false} ContradictedState(m: map<nat, ConsensusState>, header: Header) returns (q: nat)
    requires Contradicts(m, header)
    ensures q in m && Contradicts(map[q := m[q]], header)
  {
    var h := header.blockHeader.blockHeight;
    if h in m {
      q := h;
    } else {
      q :| q in m && ((q < h && header.blockHeader.timestampNs <= m[q].timestampNs)
                      || (h < q && header.blockHeader.timestampNs >= m[q].timestampNs));
      assert q in map[q := m[q]];
    }
  }

  lemma {:induction false} StoredMoves(v: View, c: seq<Finalised>, k: nat, i: nat, n: nat, header: Header, now: nat)
    requires Linked(c) && k < |c| && 0 < i < |c| && k <= n && i <= n
    requires forall h | h in v.consensus :: Stored(c, k, h, v.consensus[h])
    requires header.blockHeader == c[i].header && StateOf(header) == ConsensusOf(c[i])
    ensures var w := Updated(v, header, now);
      forall h | h in w.consensus :: Stored(c, n, h, w.consensus[h])
  {
    hide Linked;
    var w := Updated(v, header, now);
    forall h | h in w.consensus
      ensures Stored(c, n, h, w.consensus[h])
    {
      if h == c[i].header.blockHeight && w.consensus[h] == StateOf(header) {
        assert ConsensusOf(c[i]) == StateOf(header);
      } else {
        assert Stored(c, k, h, v.consensus[h]);
        var j :| 0 <= j <= k && j < |c| && c[j].header.blockHeight == h && v.consensus[h] == ConsensusOf(c[j]);
      }
    }
  }

  lemma {:induction false} AboveIsNew(v: View, c: seq<Finalised>, k: nat, i: nat)
    requires Linked(c) && k < i < |c| && Tracks(v, c, k)
    ensures c[i].header.blockHeight !in v.consensus
  {
    var h := c[i].header.blockHeight;
    if h in v.consensus {
      var j :| 0 <= j <= k && j < |c| && c[j].header.blockHeight == h && v.consensus[h] == ConsensusOf(c[j]);
      RisingAlongChain(c, j, i);
    }
  }

  ghost function Run(v: View, c: seq<Finalised>, ds: seq<Delivery>): View
    requires Started(c)
    decreases |ds|
  {
    if ds == [] then v else Run(Deliver(v, c, ds[0]), c, ds[1..])
  }

  /** However often and in whatever order blocks of the chain are shown to it, the client stays up to date. */
  lemma {:induction false} RunTracks(v: View, c: seq<Finalised>, k: nat, ds: seq<Delivery>) returns (n: nat)
    requires Linked(c) && DistinctCommitments(c) && k < |c| && Tracks(v, c, k)
    ensures k <= n < |c| && Tracks(Run(v, c, ds), c, n)
    decreases |ds|
  {
    n := k;
    if ds != [] {
      DeliverTracks(v, c, k, ds[0]);
      var m := if Takes(v, c, ds[0]) && k < ds[0].block then ds[0].block else k;
      n := RunTracks(Deliver(v, c, ds[0]), c, m, ds[1..]);
    }
  }

  /** A client started from the genesis block is up to date. */
  lemma {:induction false} GenesisInSync(c: seq<Finalised>, trustingPeriodNs: nat)
    requires Linked(c)
    ensures var commitment := c[0].header.nextEpochCommitment.value;
      InSync(ClientState(BLOCK_DIGEST(c[0].header), c[0].header.blockHeight, trustingPeriodNs, commitment, commitment, false), c, 0)
  {
    assert c[..1][0] == c[0];
  }

  /** If the client accepts, for the epoch of a finalised block, another block of the same height, then some
      validator has signed both. */
  lemma {:induction false} ConflictIsAccountable(state: ClientState, c: seq<Finalised>, i: nat, header: Header) returns (pk: PubKey)
    requires Linked(c) && Majority(c[0].nextEpoch.value) && 0 < i < |c|
    requires state.genesisHash == BLOCK_DIGEST(c[0].header)
    requires header.Valid() && Accepted(state, header) && EpochOk(header.epoch)
    requires header.blockHeader.blockHeight == c[i].header.blockHeight && header.blockHeader != c[i].header
    requires NoEpochCollision({header.epoch, EpochAt(c, i)}) && header.epochCommitment == Commitment(EpochAt(c, i))
    ensures pk in Keys(EpochAt(c, i).validators)
    ensures HasSigned(header.Fingerprint(), pk) && HasSigned(FingerprintOf(state.genesisHash, c[i].header), pk)
  {
    LinkedAt(c, i);
    SigningEpochOk(c[..i]);
    assert c[..i][0] == c[0];
    var epoch := EpochAt(c, i);
    hide Linked;
    hide SigningEpoch;
    assert header.epoch == epoch;
    var signers := AcceptedHasQuorum(state, header);
    hide Accepted;
    QuorumsMeet(epoch, signers, c[i].signers);
    pk :| pk in signers && pk in c[i].signers;
  }
}
