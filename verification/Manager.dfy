/** The guest chain's state machine: generating blocks, collecting signatures, rotating epochs. */
module Manager {
  import opened Wrappers
  import opened Candidates
  import opened Epochs
  import opened GuestChain

  const MAX_CONSENSUS_STATES := 20

  datatype Config = Config(
    minValidators: nat,
    maxValidators: nat,
    minValidatorStake: nat,
    minTotalStake: Amount,
    minQuorumStake: nat,
    minBlockLength: nat,
    maxBlockAgeNs: nat,
    minEpochLength: nat)
  {
    function Limits(): Limits {
      Candidates.Limits(minValidators, minValidatorStake, minTotalStake)
    }

    predicate Positive() {
      0 < minValidators && 0 < maxValidators && 0 < minValidatorStake && 0 < minTotalStake && 0 < minQuorumStake
    }
  }

  datatype ConfigUpdate = ConfigUpdate(
    minValidators: Option<nat>,
    maxValidators: Option<nat>,
    minValidatorStake: Option<nat>,
    minTotalStake: Option<Amount>,
    minQuorumStake: Option<nat>,
    minBlockLength: Option<nat>,
    maxBlockAgeNs: Option<nat>,
    minEpochLength: Option<nat>)
  {
    function Applied(c: Config): Config {
      Config(
        Or(minValidators, c.minValidators),
        Or(maxValidators, c.maxValidators),
        Or(minValidatorStake, c.minValidatorStake),
        Or(minTotalStake, c.minTotalStake),
        Or(minQuorumStake, c.minQuorumStake),
        Or(minBlockLength, c.minBlockLength),
        Or(maxBlockAgeNs, c.maxBlockAgeNs),
        Or(minEpochLength, c.minEpochLength))
    }
  }

  /** A limit that was given counts from now on, any other one as before. */
  predicate Sets<T(==)>(given: Option<T>, before: T, now: T) {
    given == Some(now) || (given == None && now == before)
  }

  lemma AppliedSets(u: ConfigUpdate, c: Config)
    ensures var d := u.Applied(c);
      && Sets(u.minValidators, c.minValidators, d.minValidators)
      && Sets(u.maxValidators, c.maxValidators, d.maxValidators)
      && Sets(u.minValidatorStake, c.minValidatorStake, d.minValidatorStake)
      && Sets(u.minTotalStake, c.minTotalStake, d.minTotalStake)
      && Sets(u.minQuorumStake, c.minQuorumStake, d.minQuorumStake)
      && Sets(u.minBlockLength, c.minBlockLength, d.minBlockLength)
      && Sets(u.maxBlockAgeNs, c.maxBlockAgeNs, d.maxBlockAgeNs)
      && Sets(u.minEpochLength, c.minEpochLength, d.minEpochLength)
  {
  }

  function Or<T>(o: Option<T>, default: T): T {
    match o case Some(n) => n case None => default
  }

  datatype ConfigError =
    | MinValidatorsHigherThanExisting
    | MaxValidatorsCannotBeLowerThanMin
    | MinTotalStakeHigherThanExisting
    | MinTotalStakeHigherThanMinQuorumStake
    | MinQuorumStakeHigherThanTotalStake

  /** A configuration is accepted when there are validators and stake for its limits and the limits fit each other;
      a refusal names a limit that does not. */
  function ConfigRefusal(c: Config, headStake: nat, totalValidators: nat): (r: Option<ConfigError>)
    ensures r.None? <==>
      && c.minValidators <= totalValidators && c.minValidators <= c.maxValidators
      && c.minQuorumStake <= c.minTotalStake <= headStake
    ensures r == Some(MinValidatorsHigherThanExisting) <==> totalValidators < c.minValidators
    ensures r == Some(MaxValidatorsCannotBeLowerThanMin) ==> c.maxValidators < c.minValidators
    ensures r == Some(MinTotalStakeHigherThanExisting) ==> headStake < c.minTotalStake
    ensures r == Some(MinQuorumStakeHigherThanTotalStake) ==> headStake < c.minQuorumStake
    ensures r == Some(MinTotalStakeHigherThanMinQuorumStake) ==> c.minTotalStake < c.minQuorumStake <= headStake
  {
    if c.minValidators > totalValidators then Some(MinValidatorsHigherThanExisting)
    else if c.maxValidators < c.minValidators then Some(MaxValidatorsCannotBeLowerThanMin)
    else if c.minTotalStake > headStake then Some(MinTotalStakeHigherThanExisting)
    else if c.minQuorumStake > headStake then Some(MinQuorumStakeHigherThanTotalStake)
    else if c.minTotalStake < c.minQuorumStake then Some(MinTotalStakeHigherThanMinQuorumStake)
    else None
  }

  datatype LocalConsensusState = LocalConsensusState(height: nat, timestamp: nat, blockhash: Hash)

  datatype PendingBlock = PendingBlock(
    nextBlock: Block,
    fingerprint: Fingerprint,
    signers: set<PubKey>,
    signingStake: nat)

  datatype GenerateError = HasPendingBlock | BlockTooYoung | UnchangedState | Inner(error: BlockError)

  datatype SignatureError = NoPendingBlock | BadSignature | BadValidator

  datatype Effect = NoQuorumYet | GotQuorum | Duplicate

  /** Whether `height` is at least `min` above `past`. */
  predicate CheckDelta(height: nat, past: nat, min: nat) {
    height >= past && height - past >= min
  }

  /** Quorum of a generated epoch: a majority, more if configured, but never more than there is.  It is the least
      such stake. */
  function QuorumFor(total: nat, minQuorum: nat): (q: nat)
    ensures 0 < total ==> total < 2 * q && q <= total
    ensures minQuorum <= total ==> minQuorum <= q
    ensures forall s: nat | s < q :: 2 * s <= total || s < minQuorum
  {
    var majority := total / 2 + 1;
    var wanted := if majority < minQuorum then minQuorum else majority;
    if wanted <= total then wanted else total
  }

  // ----- what the manager keeps

  /** A block that may follow the chain once signed. */
  ghost predicate Extends(chain: seq<Finalised>, b: Block)
    requires chain != []
  {
    && Successor(Last(chain).header, b.header)
    && Commits(b)
    && (b.nextEpoch.Some? ==> Majority(b.nextEpoch.value))
  }

  ghost predicate PendingOk(chain: seq<Finalised>, p: PendingBlock)
    requires Linked(chain)
  {
    var epoch := SigningEpoch(chain);
    && Extends(chain, p.nextBlock)
    && p.fingerprint == FingerprintOf(BLOCK_DIGEST(chain[0].header), p.nextBlock.header)
    && p.signers <= Keys(epoch.validators)
    && SignedByAll(p.fingerprint, p.signers)
    && p.signingStake == SignedStake(epoch.validators, p.signers) < epoch.quorumStake
  }

  // ----- pace

  /** Least distances between blocks, in host blocks or nanoseconds. */
  datatype Pace = Pace(blockLength: nat, epochLength: nat, blockAgeNs: nat)

  /** A block keeps its distance from the chain it continues: from the last block, from the start of the epoch if
      it ends the epoch, and in time if nothing else calls for it. */
  ghost predicate Spaced(c: seq<Finalised>, b: Block, pace: Pace)
    requires c != [] && c[0].nextEpoch.Some?
  {
    var last := Last(c).header;
    && last.hostHeight + pace.blockLength <= b.header.hostHeight
    && (b.nextEpoch.Some? ==> c[EpochStart(c)].header.hostHeight + pace.epochLength <= b.header.hostHeight)
    && (b.nextEpoch.None? && b.header.stateRoot == last.stateRoot ==>
          last.timestampNs + pace.blockAgeNs <= b.header.timestampNs)
  }

  ghost predicate AllSpaced(c: seq<Finalised>, pending: Option<PendingBlock>, pace: Pace)
    requires c != [] && c[0].nextEpoch.Some?
  {
    && (forall i | 0 < i < |c| :: Spaced(c[..i], Block(c[i].header, c[i].nextEpoch), pace))
    && (pending.Some? ==> Spaced(c, pending.value.nextBlock, pace))
  }

  lemma {:induction false} FinalisedSpaced(c: seq<Finalised>, p: PendingBlock, signers: set<PubKey>, pace: Pace)
    requires c != [] && c[0].nextEpoch.Some? && AllSpaced(c, Some(p), pace)
    ensures AllSpaced(c + [Finalised(p.nextBlock.header, p.nextBlock.nextEpoch, signers)], None, pace)
  {
    var f := Finalised(p.nextBlock.header, p.nextBlock.nextEpoch, signers);
    forall i | 0 < i < |c| + 1
      ensures Spaced((c + [f])[..i], Block((c + [f])[i].header, (c + [f])[i].nextEpoch), pace)
    {
      if i < |c| {
        assert (c + [f])[..i] == c[..i];
      } else {
        assert (c + [f])[..i] == c;
      }
    }
  }

  lemma AllFinalisedSpaced(c: seq<Finalised>, p: PendingBlock, signers: set<PubKey>)
    requires Linked(c)
    ensures var d := c + [Finalised(p.nextBlock.header, p.nextBlock.nextEpoch, signers)];
      forall pace | AllSpaced(c, Some(p), pace) :: AllSpaced(d, None, pace)
  {
    hide AllSpaced;
    forall pace | AllSpaced(c, Some(p), pace)
      ensures AllSpaced(c + [Finalised(p.nextBlock.header, p.nextBlock.nextEpoch, signers)], None, pace)
    {
      FinalisedSpaced(c, p, signers, pace);
    }
  }

  function StateOf(b: BlockHeader): LocalConsensusState {
    LocalConsensusState(b.blockHeight, b.timestampNs, BLOCK_DIGEST(b))
  }

  function Recent<T>(s: seq<T>): seq<T> {
    if |s| <= MAX_CONSENSUS_STATES then s else s[|s| - MAX_CONSENSUS_STATES..]
  }

  /** All blocks generated so far: those finalised after the genesis block, then the pending one. */
  ghost function Generated(chain: seq<Finalised>, pending: Option<PendingBlock>): seq<BlockHeader> {
    seq(if chain == [] then 0 else |chain| - 1, i requires 0 <= i < |chain| - 1 => chain[i + 1].header)
    + (match pending case Some(p) => [p.nextBlock.header] case None => [])
  }

  ghost function StatesOf(blocks: seq<BlockHeader>): seq<LocalConsensusState> {
    seq(|blocks|, i requires 0 <= i < |blocks| => StateOf(blocks[i]))
  }

  /** A newly generated block is remembered; the oldest one remembered gives way when there are too many. */
  lemma {:induction false} Remembered(chain: seq<Finalised>, p: PendingBlock)
    ensures var s := Recent(StatesOf(Generated(chain, None)));
      Recent(StatesOf(Generated(chain, Some(p)))) ==
      (if |s| == MAX_CONSENSUS_STATES then s[1..] else s) + [StateOf(p.nextBlock.header)]
  {
    var blocks := Generated(chain, None);
    assert Generated(chain, Some(p)) == blocks + [p.nextBlock.header];
    assert StatesOf(blocks + [p.nextBlock.header]) == StatesOf(blocks) + [StateOf(p.nextBlock.header)];
  }

  lemma {:induction false} SumRemoved(s: seq<Candidate>, i: nat)
    requires i < |s|
    ensures Sum(s) == s[i].stake + Sum(RemoveAt(s, i))
    ensures multiset(RemoveAt(s, i)) == multiset(s) - multiset{s[i]}
  {
    hide Sum;
    var x, y := s[..i], s[i + 1..];
    assert s == x + [s[i]] + y;
    SumConcat(x + [s[i]], y);
    SumConcat(x, [s[i]]);
    SumConcat(x, y);
    SumOne(s[i]);
  }

  lemma {:induction false} SumPermuted(a: seq<Candidate>, b: seq<Candidate>)
    requires multiset(a) == multiset(b)
    ensures Sum(a) == Sum(b)
  {
    SameMembers(a, b);
    if a != [] {
      assert a[0] in b;
      var i :| 0 <= i < |b| && b[i] == a[0];
      SumRemoved(a, 0);
      SumRemoved(b, i);
      hide Sum;
      SumPermuted(RemoveAt(a, 0), RemoveAt(b, i));
    }
  }

  lemma {:induction false} HeadSumAtMostAll(s: seq<Candidate>, max: nat)
    ensures HeadSum(s, max) <= Sum(s)
  {
    assert s == Head(s, max) + s[|Head(s, max)|..];
    SumConcat(Head(s, max), s[|Head(s, max)|..]);
  }

  lemma {:induction false} FindsValidator(s: seq<Candidate>, pk: PubKey)
    ensures match Existing(s, pk)
            case Some(v) => v in s && v.pubkey == pk && v.stake == StakeOf(s, pk) && pk in Keys(s)
            case None => pk !in Keys(s)
  {
    if s != [] && s[0].pubkey != pk {
      FindsValidator(s[1..], pk);
      assert s == [s[0]] + s[1..];
    }
  }

  /** An update never removes the last candidate. */
  lemma {:induction false} SomeCandidateLeft(s: seq<Candidate>, max: nat, limits: Limits, pk: PubKey, stake: nat)
    requires s != [] && DistinctKeys(s) && 0 < limits.minValidators
    requires Refusal(s, max, limits, pk, stake) == None
    ensures Wanted(s, pk, stake) != []
  {
    if stake == 0 {
      if Has(s, pk) {
        var i :| 0 <= i < |s| && s[i].pubkey == pk;
        WithoutIsRemoveAt(s, i);
      } else {
        WithoutAbsent(s, pk);
      }
    }
  }

  /** The head of a ranking makes a valid epoch. */
  lemma {:induction false} HeadIsEpoch(s: seq<Candidate>, max: nat, quorum: nat)
    requires DistinctKeys(s) && (forall c | c in s :: 0 < c.stake) && s != [] && 0 < max
    requires HeadSum(s, max) < U128_LIMIT && 0 < quorum <= HeadSum(s, max)
    ensures EpochOk(Epoch(Head(s, max), quorum, HeadSum(s, max)))
  {
    assert forall c | c in Head(s, max) :: c in s;
  }

  lemma {:induction false} NoSignersYet(chain: seq<Finalised>, b: Block)
    requires Linked(chain) && Extends(chain, b)
    ensures PendingOk(chain, PendingBlock(b, FingerprintOf(BLOCK_DIGEST(chain[0].header), b.header), {}, 0))
  {
    SigningEpochOk(chain);
    hide Linked;
    SignedNone(SigningEpoch(chain).validators);
  }

  lemma {:induction false} OneMoreSigner(epoch: Epoch, signers: set<PubKey>, pk: PubKey)
    requires EpochOk(epoch) && pk !in signers
    ensures var stake := SignedStake(epoch.validators, signers) + StakeOf(epoch.validators, pk);
      && stake == SignedStake(epoch.validators, signers + {pk}) < U128_LIMIT
      && (stake < epoch.quorumStake ==> exists v :: v in epoch.validators && v.pubkey !in signers + {pk})
  {
    SignedAdd(epoch.validators, signers, pk);
    SignedAtMostAll(epoch.validators, signers + {pk});
    if SignedStake(epoch.validators, signers + {pk}) < epoch.quorumStake {
      SomeoneMissing(epoch, signers + {pk});
    }
  }

  /** What one more valid signature of a validator does to a pending block. */
  lemma {:induction false} SignatureCounts(chain: seq<Finalised>, p: PendingBlock, pk: PubKey, signature: Signature)
    requires Linked(chain) && PendingOk(chain, p)
    requires pk in Keys(SigningEpoch(chain).validators) && pk !in p.signers
    requires SIGNATURE_VALID(p.fingerprint, pk, signature)
    ensures var epoch := SigningEpoch(chain);
      var stake := p.signingStake + StakeOf(epoch.validators, pk);
      && stake == SignedStake(epoch.validators, p.signers + {pk}) < U128_LIMIT
      && if stake < epoch.quorumStake
         then var q := p.(signers := p.signers + {pk}, signingStake := stake);
              && PendingOk(chain, q) && Generated(chain, Some(q)) == Generated(chain, Some(p))
              && exists v :: v in epoch.validators && v.pubkey !in q.signers
         else Quorum(epoch, p.fingerprint, p.signers + {pk})
  {
    SigningEpochOk(chain);
    hide Linked;
    hide SigningEpoch;
    hide EpochStart;
    hide Extends;
    OneMoreSigner(SigningEpoch(chain), p.signers, pk);
    hide EpochOk;
    hide StakeOf;
    hide SignedStake;
    assert HasSigned(p.fingerprint, pk);
  }

  /** A pending block with a quorum behind it becomes part of the chain. */
  lemma {:induction false} Finalise(chain: seq<Finalised>, p: PendingBlock, signers: set<PubKey>)
    requires Linked(chain) && PendingOk(chain, p)
    requires Quorum(SigningEpoch(chain), p.fingerprint, signers)
    ensures var f := Finalised(p.nextBlock.header, p.nextBlock.nextEpoch, signers);
      && Linked(chain + [f]) && (chain + [f])[0] == chain[0] && Last(chain + [f]) == f
      && EpochStart(chain + [f]) == (if f.nextEpoch.Some? then |chain| else EpochStart(chain))
      && SigningEpoch(chain + [f]) == (if f.nextEpoch.Some? then f.nextEpoch.value else SigningEpoch(chain))
      && Generated(chain + [f], None) == Generated(chain, Some(p))
  {
    var f := Finalised(p.nextBlock.header, p.nextBlock.nextEpoch, signers);
    LinkedMore(chain, f);
    hide Linked;
    assert (chain + [f])[..|chain|] == chain;
  }

  /** An accepted change of the configuration leaves the head with the minimum total stake it asks for just
      when the candidates it drops from the head hold no more than there was to spare.  What is to spare is the
      difference the check of the change has looked at; the stake dropped it has not looked at. */
  lemma {:induction false} MinimumAfterUpdate(s: seq<Candidate>, max: nat, applied: Config, totalValidators: nat)
    requires ConfigRefusal(applied, HeadSum(s, max), totalValidators) == None
    ensures HeadSum(s, applied.maxValidators) >= applied.minTotalStake <==>
      (applied.maxValidators < |Head(s, max)| ==>
         Sum(Head(s, max)[applied.maxValidators..]) <= HeadSum(s, max) - applied.minTotalStake)
  {
    var head, m := Head(s, max), applied.maxValidators;
    if m < |head| {
      assert head == head[..m] + head[m..];
      SumConcat(head[..m], head[m..]);
      assert head[..m] == Head(s, m);
    } else {
      var more := Head(s, m);
      assert more == head + more[|head|..];
      SumConcat(head, more[|head|..]);
    }
  }

  /** The check does not see this: lowering the number of validators may take the head below the minimum
      accepted along with it. */
  lemma {:induction false} MinimumCanBeMissed()
    ensures var s := [Candidate(1, 5), Candidate(2, 5)];
      var applied := Config(1, 1, 1, 10, 1, 0, 0, 0);
      && Ranked(s) && ConfigRefusal(applied, HeadSum(s, 2), 2) == None
      && HeadSum(s, applied.maxValidators) < applied.minTotalStake
  {
    var a, b := Candidate(1, 5), Candidate(2, 5);
    SumOne(a);
    SumOne(b);
    assert [a, b] == [a] + [b];
    SumConcat([a], [b]);
    assert Head([a, b], 1) == [a];
  }

  /** With an accepted configuration, as long as the head holds the minimum total stake, an epoch made of it needs
      the minimum quorum. */
  lemma {:induction false} MinimumQuorumNeeded(s: seq<Candidate>, headStake: nat, c: Config, totalValidators: nat)
    requires ConfigRefusal(c, headStake, totalValidators) == None
    requires Meets(s, c.maxValidators, c.Limits())
    ensures c.minQuorumStake <= QuorumFor(HeadSum(s, c.maxValidators), c.minQuorumStake)
  {
  }

  class ChainManager {
    var config: Config
    // Hash of the genesis block.
    var genesis: Hash
    // Latest block a quorum of validators signed.
    var header: BlockHeader
    // Epoch of the next block.
    var nextEpoch: Epoch
    var pendingBlock: Option<PendingBlock>
    // Host height at which the current epoch was defined.
    var epochHeight: nat
    const candidates: Ranking
    var consensusStates: seq<LocalConsensusState>
    // All finalised blocks.
    ghost var chain: seq<Finalised>

    ghost predicate Valid()
      reads this, candidates
    {
      && Linked(chain)
      && genesis == BLOCK_DIGEST(chain[0].header)
      && header == Last(chain).header
      && nextEpoch == SigningEpoch(chain)
      && epochHeight == chain[EpochStart(chain)].header.hostHeight
      && (pendingBlock.Some? ==> PendingOk(chain, pendingBlock.value))
      && consensusStates == Recent(StatesOf(Generated(chain, pendingBlock)))
      && CandidatesOk()
    }

    ghost predicate CandidatesOk()
      reads this, candidates
    {
      && config.Positive()
      && candidates.Valid() && candidates.maxValidators == config.maxValidators
      && candidates.candidates != []
      && candidates.headStake < U128_LIMIT
      && (!candidates.changed ==> multiset(candidates.CurrentHead()) == multiset(LatestEpoch().validators))
    }

    /** The epoch generated last. */
    ghost function LatestEpoch(): Epoch
      reads this
    {
      match pendingBlock
      case Some(p) => (match p.nextBlock.nextEpoch case Some(e) => e case None => nextEpoch)
      case None => nextEpoch
    }

    /** All blocks so far keep this pace, and so will those generated with the configuration as it is. */
    ghost predicate KeepsPace(pace: Pace)
      reads this
    {
      && chain != [] && chain[0].nextEpoch.Some? && AllSpaced(chain, pendingBlock, pace)
      && pace.blockLength <= config.minBlockLength
      && pace.epochLength <= config.minEpochLength
      && pace.blockAgeNs <= config.maxBlockAgeNs
    }

    constructor (config: Config, genesis: Block, epoch: Epoch)
      requires config.Positive() && genesis.nextEpoch == Some(epoch)
      requires GenesisOk(Finalised(genesis.header, genesis.nextEpoch, {}))
      ensures Valid() && fresh(candidates) && this.config == config && pendingBlock == None
      ensures chain == [Finalised(genesis.header, genesis.nextEpoch, {})]
      ensures multiset(candidates.candidates) == multiset(epoch.validators)
      ensures candidates.changed <==> config.maxValidators < |epoch.validators|
      ensures KeepsPace(Pace(config.minBlockLength, config.minEpochLength, config.maxBlockAgeNs))
    {
      var ranking := new Ranking(config.maxValidators, epoch.validators);
      SumPermuted(ranking.candidates, epoch.validators);
      HeadSumAtMostAll(ranking.candidates, config.maxValidators);
      this.config := config;
      this.genesis := BLOCK_DIGEST(genesis.header);
      header := genesis.header;
      nextEpoch := epoch;
      pendingBlock := None;
      epochHeight := genesis.header.hostHeight;
      candidates := ranking;
      consensusStates := [];
      chain := [Finalised(genesis.header, genesis.nextEpoch, {})];
    }

    /** Starts a chain; refused when the block is no genesis block or has no epoch. */
    static method New(config: Config, genesis: Block) returns (r: Option<ChainManager>)
      requires config.Positive() && Commits(genesis)
      ensures r.None? <==>
        genesis.header.prevBlockHash != 0 || genesis.header.epochId != 0 || genesis.nextEpoch.None?
      ensures r.Some? ==>
        && fresh(r.value) && fresh(r.value.candidates) && r.value.Valid()
        && r.value.chain == [Finalised(genesis.header, genesis.nextEpoch, {})]
        && r.value.config == config && r.value.pendingBlock == None
        && multiset(r.value.candidates.candidates) == multiset(genesis.nextEpoch.value.validators)
        && (r.value.candidates.changed <==> config.maxValidators < |genesis.nextEpoch.value.validators|)
        && r.value.KeepsPace(Pace(config.minBlockLength, config.minEpochLength, config.maxBlockAgeNs))
    {
      if !genesis.header.IsGenesis() {
        return None;
      }
      if genesis.nextEpoch.None? {
        return None;
      }
      var m := new ChainManager(config, genesis, genesis.nextEpoch.value);
      return Some(m);
    }

    /** Whether the next block introduces a new epoch. */
    predicate EpochDue(hostHeight: nat)
      reads this, candidates
    {
      CheckDelta(hostHeight, epochHeight, config.minEpochLength) && candidates.changed
    }

    method MaybeGenerateNextEpoch(hostHeight: nat) returns (r: Option<Epoch>)
      requires Valid()
      ensures r.Some? <==> EpochDue(hostHeight)
      ensures r.Some? ==>
        && EpochOk(r.value) && Majority(r.value)
        && r.value.validators == candidates.CurrentHead()
        && r.value.quorumStake == QuorumFor(r.value.totalStake, config.minQuorumStake)
    {
      hide Linked;
      if !CheckDelta(hostHeight, epochHeight, config.minEpochLength) {
        return None;
      }
      var head := candidates.MaybeGetHead();
      if head.None? {
        return None;
      }
      assert head.value[0] in candidates.candidates;
      var minQuorum := config.minQuorumStake;
      r := NewWith(head.value, total => QuorumFor(total, minQuorum));
      HeadIsEpoch(candidates.candidates, config.maxValidators, QuorumFor(candidates.headStake, minQuorum));
    }

    /** Whether nothing calls for a new block: the state is the same and the last block is not old. */
    predicate Unchanged(timestampNs: nat, stateRoot: Hash)
      reads this
    {
      && stateRoot == header.stateRoot
      && (if timestampNs < header.timestampNs then 0 else timestampNs - header.timestampNs) < config.maxBlockAgeNs
    }

    /** The error generating a block is refused with, if any. */
    function GenerateRefusal(hostHeight: nat, timestampNs: nat, stateRoot: Hash): (r: Option<GenerateError>)
      reads this, candidates
      ensures r == Some(HasPendingBlock) <==> pendingBlock.Some?
      ensures r == Some(BlockTooYoung) <==>
        pendingBlock.None? && hostHeight < header.hostHeight + config.minBlockLength
      ensures r == Some(UnchangedState) <==>
        && pendingBlock.None? && header.hostHeight + config.minBlockLength <= hostHeight
        && (!candidates.changed || hostHeight < epochHeight + config.minEpochLength)
        && stateRoot == header.stateRoot
        && 0 < config.maxBlockAgeNs && timestampNs < header.timestampNs + config.maxBlockAgeNs
      ensures r.Some? ==> !r.value.Inner?
    {
      if pendingBlock.Some? then Some(HasPendingBlock)
      else if !CheckDelta(hostHeight, header.hostHeight, config.minBlockLength) then Some(BlockTooYoung)
      else if !EpochDue(hostHeight) && Unchanged(timestampNs, stateRoot) then Some(UnchangedState)
      else None
    }

    method ValidateGenerateNext(hostHeight: nat, timestampNs: nat, stateRoot: Hash)
      returns (r: Result<Option<Epoch>, GenerateError>)
      requires Valid()
      ensures match GenerateRefusal(hostHeight, timestampNs, stateRoot)
              case Some(e) => r == Err(e)
              case None => r.Ok? && (r.value.Some? <==> EpochDue(hostHeight))
      ensures r.Ok? && r.value.Some? ==>
        && EpochOk(r.value.value) && Majority(r.value.value)
        && r.value.value.validators == candidates.CurrentHead()
        && r.value.value.quorumStake == QuorumFor(r.value.value.totalStake, config.minQuorumStake)
    {
      if pendingBlock.Some? {
        return Err(HasPendingBlock);
      }
      if !CheckDelta(hostHeight, header.hostHeight, config.minBlockLength) {
        return Err(BlockTooYoung);
      }
      var epoch := MaybeGenerateNextEpoch(hostHeight);
      var age := if timestampNs < header.timestampNs then 0 else timestampNs - header.timestampNs;
      if epoch.None? && stateRoot == header.stateRoot && age < config.maxBlockAgeNs {
        return Err(UnchangedState);
      }
      return Ok(epoch);
    }

    /** Puts a block among those remembered, in place of the oldest one when there are too many. */
    method Remember(header: BlockHeader)
      modifies this`consensusStates
      ensures var s := old(consensusStates);
        consensusStates == (if |s| == MAX_CONSENSUS_STATES then s[1..] else s) + [StateOf(header)]
    {
      if |consensusStates| == MAX_CONSENSUS_STATES {
        consensusStates := consensusStates[1..];
      }
      consensusStates := consensusStates + [StateOf(header)];
    }

    /** Makes a block wait for signatures. */
    method Await(block: Block)
      requires Valid() && pendingBlock.None? && Extends(chain, block)
      requires block.nextEpoch.Some? ==> block.nextEpoch.value.validators == candidates.CurrentHead()
      modifies this`pendingBlock, this`consensusStates, candidates`changed
      ensures Valid() && pendingBlock == Some(PendingBlock(block, FingerprintOf(genesis, block.header), {}, 0))
      ensures candidates.changed == (old(candidates.changed) && block.nextEpoch.None?)
    {
      hide Linked;
      hide SignedStake;
      NoSignersYet(chain, block);
      Remembered(chain, PendingBlock(block, FingerprintOf(genesis, block.header), {}, 0));
      hide PendingOk;
      hide Extends;
      hide StatesOf;
      hide Recent;
      hide Generated;
      hide SigningEpoch;
      hide EpochStart;
      hide Ranking.Valid;
      hide Ranking.CurrentHead;
      hide EpochOk;
      hide Majority;
      var fingerprint := FingerprintOf(genesis, block.header);
      Remember(block.header);
      pendingBlock := Some(PendingBlock(block, fingerprint, {}, 0));
      if block.nextEpoch.Some? {
        candidates.ClearChangedFlag();
      }
    }

    /** Generates the next block, which then waits for signatures.  It continues the chain and introduces an
        epoch made of the head of the candidates just when one is due. */
    method GenerateNext(hostHeight: nat, timestampNs: nat, stateRoot: Hash) returns (r: Result<(), GenerateError>)
      requires Valid() && header.blockHeight + 1 < U64_LIMIT
      modifies this, candidates
      ensures Valid() && chain == old(chain) && config == old(config)
      ensures candidates.candidates == old(candidates.candidates)
      ensures match old(GenerateRefusal(hostHeight, timestampNs, stateRoot))
              case Some(e) => r == Err(e)
              case None =>
                if hostHeight <= old(header.hostHeight) then r == Err(Inner(BadHostHeight))
                else if timestampNs <= old(header.timestampNs) then r == Err(Inner(BadHostTimestamp))
                else r.Ok?
      ensures r.Err? ==> unchanged(this) && unchanged(candidates)
      ensures r.Ok? ==>
        && pendingBlock.Some? && pendingBlock.value.signers == {}
        && var b := pendingBlock.value.nextBlock;
        && Extends(chain, b)
        && b.header.hostHeight == hostHeight && b.header.timestampNs == timestampNs && b.header.stateRoot == stateRoot
        && (b.nextEpoch.Some? <==>
              old(candidates.changed) && old(epochHeight) + config.minEpochLength <= hostHeight)
        && (b.nextEpoch.Some? ==> b.nextEpoch.value.validators == old(candidates.CurrentHead()))
        && candidates.changed == (old(candidates.changed) && b.nextEpoch.None?)
      // The quorum is the least stake that is a majority and at least the configured minimum, or all there is.
      ensures r.Ok? && pendingBlock.value.nextBlock.nextEpoch.Some? ==>
        var epoch := pendingBlock.value.nextBlock.nextEpoch.value;
        var (total, q) := (Sum(epoch.validators), epoch.quorumStake);
        && total < 2 * q && q <= total && (config.minQuorumStake <= total ==> config.minQuorumStake <= q)
        && forall s: nat | s < q :: 2 * s <= total || s < config.minQuorumStake
      ensures forall pace | old(KeepsPace(pace)) :: KeepsPace(pace)
    {
      hide Linked;
      hide PendingOk;
      hide StatesOf;
      hide Recent;
      hide Generated;
      hide SigningEpoch;
      hide EpochStart;
      hide EpochOk;
      hide Majority;
      hide Ranking.Valid;
      var epoch := ValidateGenerateNext(hostHeight, timestampNs, stateRoot);
      if epoch.Err? {
        return Err(epoch.error);
      }
      var block := GuestChain.GenerateNext(header, hostHeight, timestampNs, stateRoot, epoch.value);
      if block.Err? {
        return Err(Inner(block.error));
      }
      Await(block.value);
      assert forall pace | old(KeepsPace(pace)) :: KeepsPace(pace);
      return Ok(());
    }

    /** Makes the pending block the latest finalised one. */
    method Promote(ghost signers: set<PubKey>)
      requires Valid() && pendingBlock.Some?
      requires Quorum(nextEpoch, pendingBlock.value.fingerprint, signers)
      modifies this
      ensures Valid() && config == old(config) && consensusStates == old(consensusStates) && genesis == old(genesis)
      ensures pendingBlock == None
      ensures var b := old(pendingBlock).value.nextBlock;
        chain == old(chain) + [Finalised(b.header, b.nextEpoch, signers)]
      ensures forall pace | old(KeepsPace(pace)) :: KeepsPace(pace)
    {
      hide Linked;
      hide AllSpaced;
      hide Successor;
      hide Commits;
      AllFinalisedSpaced(chain, pendingBlock.value, signers);
      Finalise(chain, pendingBlock.value, signers);
      hide Quorum;
      hide EpochStart;
      hide SigningEpoch;
      hide PendingOk;
      hide Generated;
      hide StatesOf;
      hide Recent;
      hide Ranking.Valid;
      var block := pendingBlock.value.nextBlock;
      pendingBlock := None;
      header := block.header;
      chain := chain + [Finalised(block.header, block.nextEpoch, signers)];
      if block.nextEpoch.Some? {
        nextEpoch := block.nextEpoch.value;
        epochHeight := header.hostHeight;
      }
    }

    /** The stake behind the pending block once `pk` has signed it as well. */
    ghost function StakeWith(pk: PubKey): nat
      requires pendingBlock.Some?
      reads this
    {
      SignedStake(nextEpoch.validators, pendingBlock.value.signers + {pk})
    }

    /** Adds a signature to the pending block.  The block is finalised just when the distinct validators
        who signed it hold a quorum; until then one of them is missing. */
    method AddSignature(pubkey: PubKey, signature: Signature) returns (r: Result<Effect, SignatureError>)
      requires Valid()
      modifies this
      ensures Valid() && config == old(config) && consensusStates == old(consensusStates) && genesis == old(genesis)
      ensures r == match old(pendingBlock)
        case None => Err(NoPendingBlock)
        case Some(p) =>
          if pubkey !in Keys(old(nextEpoch).validators) then Err(BadValidator)
          else if !SIGNATURE_VALID(p.fingerprint, pubkey, signature) then Err(BadSignature)
          else if pubkey in p.signers then Ok(Duplicate)
          else if old(StakeWith(pubkey)) < old(nextEpoch).quorumStake then Ok(NoQuorumYet)
          else Ok(GotQuorum)
      ensures r.Err? || r.value.Duplicate? ==> unchanged(this)
      ensures r == Ok(NoQuorumYet) ==>
        && chain == old(chain) && nextEpoch == old(nextEpoch)
        && pendingBlock.Some? && pendingBlock.value.nextBlock == old(pendingBlock).value.nextBlock
        && pendingBlock.value.signers == old(pendingBlock).value.signers + {pubkey}
        && exists v :: v in nextEpoch.validators && v.pubkey !in pendingBlock.value.signers
      ensures r == Ok(GotQuorum) ==>
        && pendingBlock == None
        && var p := old(pendingBlock).value;
        && chain == old(chain) + [Finalised(p.nextBlock.header, p.nextBlock.nextEpoch, p.signers + {pubkey})]
      ensures forall pace | old(KeepsPace(pace)) :: KeepsPace(pace)
    {
      hide Linked;
      hide Generated;
      hide StatesOf;
      hide Recent;
      hide SignedStake;
      hide StakeOf;
      hide EpochStart;
      hide SigningEpoch;
      hide Ranking.Valid;
      if pendingBlock.None? {
        return Err(NoPendingBlock);
      }
      var pending := pendingBlock.value;
      FindsValidator(nextEpoch.validators, pubkey);
      var validator := Existing(nextEpoch.validators, pubkey);
      if validator.None? {
        return Err(BadValidator);
      }
      if !SIGNATURE_VALID(pending.fingerprint, pubkey, signature) {
        return Err(BadSignature);
      }
      if pubkey in pending.signers {
        return Ok(Duplicate);
      }
      SignatureCounts(chain, pending, pubkey, signature);
      hide PendingOk;
      hide Quorum;
      pending := pending.(signers := pending.signers + {pubkey}, signingStake := pending.signingStake + validator.value.stake);
      assert pending.signingStake < U128_LIMIT;
      if pending.signingStake < nextEpoch.quorumStake {
        pendingBlock := Some(pending);
        return Ok(NoQuorumYet);
      }
      Promote(pending.signers);
      return Ok(GotQuorum);
    }

    /** Updates a candidate; refused updates change nothing and no update touches the chain. */
    method UpdateCandidate(pk: PubKey, newStake: Option<Candidate> -> Result<nat, UpdateError>)
      returns (r: Result<(), UpdateError>)
      requires Valid()
      requires newStake(Existing(candidates.candidates, pk)).Ok? ==>
        var stake := newStake(Existing(candidates.candidates, pk)).value;
        Refusal(candidates.candidates, config.maxValidators, config.Limits(), pk, stake) == None ==>
          HeadSum(Wanted(candidates.candidates, pk, stake), config.maxValidators) < U128_LIMIT
      modifies candidates
      ensures Valid()
      ensures match newStake(Existing(old(candidates.candidates), pk))
              case Err(e) => r == Err(e) && unchanged(candidates)
              case Ok(stake) =>
                match Refusal(old(candidates.candidates), config.maxValidators, config.Limits(), pk, stake)
                case Some(e) => r == Err(e) && unchanged(candidates)
                case None => r.Ok? && candidates.candidates == Wanted(old(candidates.candidates), pk, stake)
      ensures candidates.changed <==> old(candidates.changed) || candidates.CurrentHead() != old(candidates.CurrentHead())
    {
      hide Linked;
      hide Wanted;
      hide Refusal;
      ghost var stake := newStake(Existing(candidates.candidates, pk));
      if stake.Ok? && Refusal(candidates.candidates, config.maxValidators, config.Limits(), pk, stake.value) == None {
        SomeCandidateLeft(candidates.candidates, config.maxValidators, config.Limits(), pk, stake.value);
      }
      r := candidates.Update(config.Limits(), pk, newStake);
    }

    /** Changes the configuration.  The limits are checked against the stake of the head and the number of
        validators there were before the change. */
    method UpdateConfig(update: ConfigUpdate) returns (r: Result<(), ConfigError>)
      requires Valid() && update.Applied(config).Positive()
      requires HeadSum(candidates.candidates, update.Applied(config).maxValidators) < U128_LIMIT
      modifies this`config, candidates
      ensures Valid() && candidates.candidates == old(candidates.candidates)
      ensures match ConfigRefusal(update.Applied(old(config)), old(candidates.headStake), |nextEpoch.validators|)
              case Some(e) => r == Err(e) && unchanged(this) && unchanged(candidates)
              case None => r.Ok? && config == update.Applied(old(config))
      ensures candidates.changed <==> old(candidates.changed) || candidates.CurrentHead() != old(candidates.CurrentHead())
      ensures r.Ok? ==>
        && config.minValidators <= |nextEpoch.validators| && config.minValidators <= config.maxValidators
        && config.minQuorumStake <= config.minTotalStake <= old(candidates.headStake)
    {
      hide Linked;
      var applied := update.Applied(config);
      var refusal := ConfigRefusal(applied, candidates.headStake, |nextEpoch.validators|);
      if refusal.Some? {
        return Err(refusal.value);
      }
      config := applied;
      if update.maxValidators.Some? {
        candidates.UpdateMaxValidators(update.maxValidators.value);
      }
      return Ok(());
    }
  }

  lemma {:induction false} GeneratedRise(chain: seq<Finalised>, pending: Option<PendingBlock>, i: nat, j: nat)
    requires Linked(chain) && (pending.Some? ==> PendingOk(chain, pending.value))
    requires i < j < |Generated(chain, pending)|
    ensures var g := Generated(chain, pending);
      g[j].blockHeight == g[i].blockHeight + (j - i) && g[i].timestampNs < g[j].timestampNs
  {
    hide Linked;
    var n := |chain| - 1;
    if j < n {
      RisingAlongChain(chain, i + 1, j + 1);
    } else if i + 1 < n {
      RisingAlongChain(chain, i + 1, n);
    }
  }

  lemma RecentCount(blocks: seq<BlockHeader>)
    ensures |Recent(StatesOf(blocks))| == if |blocks| < 20 then |blocks| else 20
  {
  }

  lemma {:induction false} RecentAt(blocks: seq<BlockHeader>, i: nat)
    requires i < |Recent(StatesOf(blocks))|
    ensures var s := Recent(StatesOf(blocks));
      |s| == (if |blocks| < 20 then |blocks| else 20) && s[i] == StateOf(blocks[|blocks| - |s| + i])
  {
  }

  /** The blocks remembered are the last ones generated, at consecutive heights and with rising times. */
  lemma {:induction false} RememberedBlocks(chain: seq<Finalised>, pending: Option<PendingBlock>, i: nat, j: nat)
    requires chain != [] && Linked(chain) && (pending.Some? ==> PendingOk(chain, pending.value))
    requires i < j < 20 && j < |chain| - (if pending.Some? then 0 else 1)
    ensures var g := Generated(chain, pending);
      |Recent(StatesOf(g))| == (if |g| < 20 then |g| else 20) && |g| == |chain| - (if pending.Some? then 0 else 1)
    ensures var s := Recent(StatesOf(Generated(chain, pending)));
      && s[j].height == s[i].height + (j - i)
      && s[i].timestamp < s[j].timestamp
      && s[i].blockhash == BLOCK_DIGEST(Generated(chain, pending)[|Generated(chain, pending)| - |s| + i])
      && s[|s| - 1] == StateOf(if pending.Some? then pending.value.nextBlock.header else Last(chain).header)
  {
    hide Linked;
    hide PendingOk;
    hide Generated;
    hide Recent;
    hide StatesOf;
    hide StateOf;
    var g := Generated(chain, pending);
    var s := Recent(StatesOf(g));
    GeneratedLast(chain, pending);
    RecentCount(g);
    RecentAt(g, i);
    RecentAt(g, j);
    RecentAt(g, |s| - 1);
    var skip := |g| - |s|;
    GeneratedRise(chain, pending, skip + i, skip + j);
    StateFields(g[skip + i]);
    StateFields(g[skip + j]);
  }

  lemma {:induction false} GeneratedLast(chain: seq<Finalised>, pending: Option<PendingBlock>)
    requires chain != []
    ensures var g := Generated(chain, pending);
      && |g| == |chain| - (if pending.Some? then 0 else 1)
      && (g != [] ==> g[|g| - 1] == if pending.Some? then pending.value.nextBlock.header else Last(chain).header)
  {
  }

  lemma {:induction false} StateFields(b: BlockHeader)
    ensures StateOf(b) == LocalConsensusState(b.blockHeight, b.timestampNs, BLOCK_DIGEST(b))
  {
  }
}
