/** Blocks of the guest chain, and what holds of every chain of finalised blocks. */
module GuestChain {
  import opened Wrappers
  import opened Candidates
  import opened Epochs
  import CryptoHash

  const U64_LIMIT: nat := 0x1_0000_0000_0000_0000

  datatype BlockHeader = BlockHeader(
    prevBlockHash: Hash,
    blockHeight: nat,
    hostHeight: nat,
    timestampNs: nat,
    stateRoot: Hash,
    epochId: Hash,
    nextEpochCommitment: Option<Hash>)
  {
    predicate IsGenesis() {
      prevBlockHash == CryptoHash.ZERO && epochId == CryptoHash.ZERO
    }
  }

  /** A header together with the epoch of the following block, if it changes. */
  datatype Block = Block(header: BlockHeader, nextEpoch: Option<Epoch>)

  /** What validators sign. */
  datatype Fingerprint = Fingerprint(genesis: Hash, blockHeight: nat, blockHash: Hash)

  type Signature = nat

  datatype BlockError = BadHostHeight | BadHostTimestamp

  // Hash of a serialised header.
  const BLOCK_DIGEST: BlockHeader -> CryptoHash.NonZeroHash

  // Which signatures the signature scheme accepts.
  const SIGNATURE_VALID: (Fingerprint, PubKey, Signature) -> bool

  function FingerprintOf(genesis: Hash, header: BlockHeader): Fingerprint {
    Fingerprint(genesis, header.blockHeight, BLOCK_DIGEST(header))
  }

  /** A signature is good for one header of one chain only. */
  lemma FingerprintNamesHeader(genesis: Hash, a: BlockHeader, genesis': Hash, b: BlockHeader)
    requires NoHeaderCollision({a, b})
    ensures FingerprintOf(genesis, a) == FingerprintOf(genesis', b) <==> genesis == genesis' && a == b
  {
    assert a in {a, b} && b in {a, b};
  }

  function CommitmentOf(nextEpoch: Option<Epoch>): Option<Hash> {
    match nextEpoch
    case None => None
    case Some(e) => Some(Commitment(e))
  }

  // ----- one block after another

  /** How a header must continue another one. */
  ghost predicate Successor(prev: BlockHeader, b: BlockHeader) {
    && b.prevBlockHash == BLOCK_DIGEST(prev)
    && b.blockHeight == prev.blockHeight + 1
    && prev.hostHeight < b.hostHeight
    && prev.timestampNs < b.timestampNs
    && b.epochId == (if prev.nextEpochCommitment.Some? then BLOCK_DIGEST(prev) else prev.epochId)
  }

  /** The header of a block commits to the epoch the block introduces. */
  ghost predicate Commits(b: Block) {
    && b.header.nextEpochCommitment == CommitmentOf(b.nextEpoch)
    && (b.nextEpoch.Some? ==> EpochOk(b.nextEpoch.value))
  }

  function GenerateNext(prev: BlockHeader, hostHeight: nat, timestampNs: nat, stateRoot: Hash, nextEpoch: Option<Epoch>)
    : (r: Result<Block, BlockError>)
    ensures match r
      case Ok(b) => Successor(prev, b.header) && b.nextEpoch == nextEpoch
                    && b.header.nextEpochCommitment == CommitmentOf(nextEpoch)
      case Err(BadHostHeight) => hostHeight <= prev.hostHeight
      case Err(BadHostTimestamp) => prev.hostHeight < hostHeight && timestampNs <= prev.timestampNs
  {
    if hostHeight <= prev.hostHeight then Err(BadHostHeight)
    else if timestampNs <= prev.timestampNs then Err(BadHostTimestamp)
    else
      var prevBlockHash := BLOCK_DIGEST(prev);
      var epochId := if prev.nextEpochCommitment.Some? then prevBlockHash else prev.epochId;
      Ok(Block(
        BlockHeader(prevBlockHash, prev.blockHeight + 1, hostHeight, timestampNs, stateRoot, epochId, CommitmentOf(nextEpoch)),
        nextEpoch))
  }

  // ----- chains

  /** A block with the validators whose signatures finalised it. */
  datatype Finalised = Finalised(header: BlockHeader, nextEpoch: Option<Epoch>, signers: set<PubKey>)

  ghost predicate HasSigned(fingerprint: Fingerprint, pk: PubKey) {
    exists s: Signature :: SIGNATURE_VALID(fingerprint, pk, s)
  }

  ghost predicate SignedByAll(fingerprint: Fingerprint, signers: set<PubKey>) {
    forall pk | pk in signers :: HasSigned(fingerprint, pk)
  }

  ghost predicate Quorum(epoch: Epoch, fingerprint: Fingerprint, signers: set<PubKey>) {
    && signers <= Keys(epoch.validators)
    && SignedByAll(fingerprint, signers)
    && SignedStake(epoch.validators, signers) >= epoch.quorumStake
  }

  function Last(c: seq<Finalised>): Finalised
    requires c != []
  {
    c[|c| - 1]
  }

  /** Position of the block that introduced the epoch of the block coming next. */
  function EpochStart(c: seq<Finalised>): (i: nat)
    requires c != [] && c[0].nextEpoch.Some?
    ensures i < |c| && c[i].nextEpoch.Some?
    ensures forall j | i < j < |c| :: c[j].nextEpoch.None?
  {
    if Last(c).nextEpoch.Some? then |c| - 1 else EpochStart(c[..|c| - 1])
  }

  /** The epoch whose validators sign the block coming next. */
  function SigningEpoch(c: seq<Finalised>): Epoch
    requires c != [] && c[0].nextEpoch.Some?
  {
    c[EpochStart(c)].nextEpoch.value
  }

  /** A genesis block introduces the first epoch; its quorum may be anything. */
  ghost predicate GenesisOk(f: Finalised) {
    f.header.IsGenesis() && f.nextEpoch.Some? && Commits(Block(f.header, f.nextEpoch))
  }

  ghost predicate Follows(c: seq<Finalised>, f: Finalised)
    requires c != [] && c[0].nextEpoch.Some?
  {
    && Successor(Last(c).header, f.header)
    && Commits(Block(f.header, f.nextEpoch))
    && (f.nextEpoch.Some? ==> Majority(f.nextEpoch.value))
    && Quorum(SigningEpoch(c), FingerprintOf(BLOCK_DIGEST(c[0].header), f.header), f.signers)
  }

  /** Every chain of finalised blocks, from the genesis block on. */
  ghost predicate Linked(c: seq<Finalised>) {
    && c != [] && GenesisOk(c[0])
    && (|c| > 1 ==> Linked(c[..|c| - 1]) && Follows(c[..|c| - 1], Last(c)))
  }

  lemma {:induction false} LinkedMore(c: seq<Finalised>, f: Finalised)
    requires Linked(c) && Follows(c, f)
    ensures Linked(c + [f])
  {
    assert (c + [f])[..|c|] == c;
  }

  lemma {:induction false} LinkedAt(c: seq<Finalised>, i: nat)
    requires Linked(c) && 0 < i <= |c|
    ensures Linked(c[..i]) && c[..i][0] == c[0] && c[0].nextEpoch.Some?
    ensures i < |c| ==> Follows(c[..i], c[i])
    decreases |c|
  {
    if i == |c| {
      assert c[..i] == c;
    } else if i < |c| - 1 {
      LinkedAt(c[..|c| - 1], i);
      assert c[..|c| - 1][..i] == c[..i];
    }
  }

  /** Heights rise by one; host heights and timestamps rise strictly. */
  lemma {:induction false} RisingAlongChain(c: seq<Finalised>, i: nat, j: nat)
    requires Linked(c) && i < j < |c|
    ensures c[j].header.blockHeight == c[i].header.blockHeight + (j - i)
    ensures c[i].header.hostHeight < c[j].header.hostHeight
    ensures c[i].header.timestampNs < c[j].header.timestampNs
    decreases j
  {
    LinkedAt(c, j);
    hide Linked;
    if i + 1 < j {
      RisingAlongChain(c, i, j - 1);
    }
  }

  lemma {:induction false} EpochStartOf(c: seq<Finalised>, i: nat)
    requires Linked(c) && 0 < i < |c|
    ensures c[i].header.epochId == BLOCK_DIGEST(c[EpochStart(c[..i])].header)
    decreases i
  {
    LinkedAt(c, i);
    hide Linked;
    if i > 1 && c[i - 1].nextEpoch.None? {
      EpochStartOf(c, i - 1);
      assert c[..i][..i - 1] == c[..i - 1];
      LinkedAt(c, i - 1);
    }
  }

  /** The epoch identifier of a block is the hash of the block that committed to the epoch whose validators
      signed it, and no block in between committed to another one. */
  lemma {:induction false} EpochIdNamesEpoch(c: seq<Finalised>, i: nat)
    requires Linked(c) && 0 < i < |c|
    ensures var s := EpochStart(c[..i]);
      && c[i].header.epochId == BLOCK_DIGEST(c[s].header)
      && c[s].header.nextEpochCommitment == Some(Commitment(SigningEpoch(c[..i])))
      && Quorum(SigningEpoch(c[..i]), FingerprintOf(BLOCK_DIGEST(c[0].header), c[i].header), c[i].signers)
      && forall j | s < j < i :: c[j].header.nextEpochCommitment == None
  {
    EpochStartOf(c, i);
    var s := EpochStart(c[..i]);
    forall j | s <= j < i
      ensures c[j].header.nextEpochCommitment == CommitmentOf(c[j].nextEpoch)
    {
      BlockCommits(c, j);
    }
    LinkedAt(c, i);
    assert forall j | s < j < i :: c[j] == c[..i][j];
  }

  lemma {:induction false} BlockCommits(c: seq<Finalised>, i: nat)
    requires Linked(c) && i < |c|
    ensures Commits(Block(c[i].header, c[i].nextEpoch))
    ensures 0 < i && c[i].nextEpoch.Some? ==> Majority(c[i].nextEpoch.value)
  {
    if i > 0 {
      LinkedAt(c, i);
    }
  }

  lemma {:induction false} SigningEpochOk(c: seq<Finalised>)
    requires Linked(c)
    ensures EpochOk(SigningEpoch(c))
    ensures Majority(c[0].nextEpoch.value) ==> Majority(SigningEpoch(c))
  {
    BlockCommits(c, EpochStart(c));
  }

  ghost predicate NoHeaderCollision(s: set<BlockHeader>) {
    forall a, b | a in s && b in s && BLOCK_DIGEST(a) == BLOCK_DIGEST(b) :: a == b
  }

  /** A block is the first of its epoch just when its epoch identifier is the hash of its predecessor, and
      then its predecessor is the last block of its own epoch. */
  lemma {:induction false} FirstOfEpoch(c: seq<Finalised>, i: nat)
    requires Linked(c) && 0 < i < |c|
    requires NoHeaderCollision(set f | f in c :: f.header)
    ensures c[i].header.epochId == c[i].header.prevBlockHash <==> c[i - 1].header.nextEpochCommitment.Some?
  {
    LinkedAt(c, i);
    EpochStartOf(c, i);
    var s := EpochStart(c[..i]);
    BlockCommits(c, i - 1);
    BlockCommits(c, s);
    hide Linked;
    assert c[s] in c && c[i - 1] in c;
    if BLOCK_DIGEST(c[s].header) == BLOCK_DIGEST(c[i - 1].header) {
      assert c[s].header == c[i - 1].header;
    } else {
      assert c[..i][i - 1].nextEpoch.None?;
    }
  }

  // ----- forks

  ghost predicate NoEpochCollision(s: set<Epoch>) {
    forall a, b | a in s && b in s && Commitment(a) == Commitment(b) :: a == b
  }

  ghost function EpochsOf(c: seq<Finalised>): set<Epoch> {
    set f | f in c && f.nextEpoch.Some? :: f.nextEpoch.value
  }

  lemma {:induction false} SameHeaderSameEpoch(c: seq<Finalised>, d: seq<Finalised>, i: nat)
    requires Linked(c) && Linked(d) && i < |c| && i < |d| && c[i].header == d[i].header
    requires NoEpochCollision(EpochsOf(c) + EpochsOf(d))
    ensures c[i].nextEpoch == d[i].nextEpoch
  {
    hide Linked;
    hide EpochOk;
    hide Majority;
    BlockCommits(c, i);
    BlockCommits(d, i);
    assert c[i] in c && d[i] in d;
  }

  /** Chains with the same headers have the same epochs. */
  lemma {:induction false} SameHeadersSameEpochs(c: seq<Finalised>, d: seq<Finalised>, k: nat)
    requires Linked(c) && Linked(d) && 0 < k <= |c| && k <= |d|
    requires NoEpochCollision(EpochsOf(c) + EpochsOf(d))
    requires forall i | 0 <= i < k :: c[i].header == d[i].header
    ensures c[..k][0].nextEpoch.Some? && d[..k][0].nextEpoch.Some?
    ensures SigningEpoch(c[..k]) == SigningEpoch(d[..k])
  {
    hide Linked;
    hide NoEpochCollision;
    hide EpochsOf;
    LinkedAt(c, k);
    LinkedAt(d, k);
    forall i | 0 <= i < k
      ensures c[..k][i].nextEpoch == d[..k][i].nextEpoch
    {
      SameHeaderSameEpoch(c, d, i);
    }
    var s, t := EpochStart(c[..k]), EpochStart(d[..k]);
  }

  /** Two chains that part are both signed, at the point where they part, by one and the same validator: it
      put its name under two headers for one height. */
  lemma {:induction false} ForkIsAccountable(c: seq<Finalised>, d: seq<Finalised>, i: nat) returns (k: nat, pk: PubKey)
    requires Linked(c) && Linked(d) && c[0].header == d[0].header && Majority(c[0].nextEpoch.value)
    requires NoEpochCollision(EpochsOf(c) + EpochsOf(d))
    requires i < |c| && i < |d| && c[i].header != d[i].header
    ensures 0 < k <= i && c[k].header != d[k].header
    ensures c[k].header.blockHeight == d[k].header.blockHeight
    ensures pk in Keys(SigningEpoch(c[..k]).validators)
    ensures var genesis := BLOCK_DIGEST(c[0].header);
      HasSigned(FingerprintOf(genesis, c[k].header), pk) && HasSigned(FingerprintOf(genesis, d[k].header), pk)
  {
    hide Linked;
    hide EpochOk;
    hide Majority;
    hide EpochStart;
    hide SigningEpoch;
    hide SignedStake;
    hide Keys;
    hide Commits;
    hide NoEpochCollision;
    k := FirstDifference(c, d, i);
    SameHeadersSameEpochs(c, d, k);
    LinkedAt(c, k);
    LinkedAt(d, k);
    SigningEpochOk(c[..k]);
    QuorumsMeet(SigningEpoch(c[..k]), c[k].signers, d[k].signers);
    pk :| pk in c[k].signers && pk in d[k].signers;
  }

  lemma {:induction false} FirstDifference(c: seq<Finalised>, d: seq<Finalised>, i: nat) returns (k: nat)
    requires i < |c| && i < |d| && c[i].header != d[i].header && c[0].header == d[0].header
    ensures 0 < k <= i && c[k].header != d[k].header
    ensures forall j | 0 <= j < k :: c[j].header == d[j].header
  {
    k := 0;
    while c[k].header == d[k].header
      invariant k <= i
      invariant forall j | 0 <= j < k :: c[j].header == d[j].header
      decreases i - k
    {
      k := k + 1;
    }
  }
}
