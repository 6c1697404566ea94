/** Merkle trees with a fan-out of sixteen over a list of account hashes, and proofs for single accounts. */
module Fanout {
  import opened Wrappers

  const MERKLE_FANOUT: nat := 16

  type Byte = n: nat | n < 256

  type Hash = s: seq<Byte> | |s| == 32 witness seq(32, i => 0)

  function DefaultHash(): Hash {
    seq(32, i => 0)
  }

  // Hash of the concatenation of some hashes.
  const DIGEST: seq<Hash> -> Hash

  // ----- the tree

  function Min(a: nat, b: nat): nat {
    if a < b then a else b
  }

  /** The chunk of sixteen, or fewer at the end, that starts at `start`. */
  function ChunkFrom(hashes: seq<Hash>, start: nat): seq<Hash>
    requires start <= |hashes|
  {
    hashes[start..Min(start + MERKLE_FANOUT, |hashes|)]
  }

  function Parents(n: nat): nat {
    (n + MERKLE_FANOUT - 1) / MERKLE_FANOUT
  }

  function ParentAt(hashes: seq<Hash>, i: nat): Hash
    requires i < Parents(|hashes|)
  {
    DIGEST(ChunkFrom(hashes, i * MERKLE_FANOUT))
  }

  /** The level above: one hash per chunk. */
  function Level(hashes: seq<Hash>): seq<Hash> {
    seq<Hash>(Parents(|hashes|), i requires 0 <= i < Parents(|hashes|) => ParentAt(hashes, i))
  }

  /** Level upon level until at most one hash is left. */
  function Collapse(hashes: seq<Hash>): Hash
    decreases |hashes|
  {
    if hashes == [] then DefaultHash()
    else if |hashes| == 1 then hashes[0]
    else Collapse(Level(hashes))
  }

  /** The root over the accounts' hashes; the lowest level is hashed even when it holds one account only. */
  function MerkleRoot(leaves: seq<Hash>): Hash {
    Collapse(Level(leaves))
  }

  /** Sixteen hashes after another, in order, make one hash of the level above; up to sixteen make the root. */
  lemma {:induction false} LevelInOrder(chunk: seq<Hash>, rest: seq<Hash>)
    requires 0 < |chunk| <= 16 && (|chunk| < 16 ==> rest == [])
    ensures Level(chunk + rest) == [DIGEST(chunk)] + Level(rest)
    ensures rest == [] ==> MerkleRoot(chunk) == DIGEST(chunk)
  {
    var all := chunk + rest;
    assert ChunkFrom(all, 0) == chunk;
    forall i | 0 <= i < Parents(|rest|) ensures ParentAt(all, i + 1) == ParentAt(rest, i) {
      assert ChunkFrom(all, (i + 1) * MERKLE_FANOUT) == ChunkFrom(rest, i * MERKLE_FANOUT);
    }
    assert rest == [] ==> all == chunk;
  }

  /** Computes the root, every level taking the place of the one below in the same buffer. */
  method ComputeMerkleRoot(accounts: seq<Hash>) returns (root: Hash)
    ensures root == MerkleRoot(accounts)
  {
    var hashes := new Hash[Parents(|accounts|)](
      i requires 0 <= i < Parents(|accounts|) => ParentAt(accounts, i));
    var len: nat := hashes.Length;
    assert hashes[..len] == Level(accounts);
    while len > 1
      invariant len <= hashes.Length
      invariant Collapse(hashes[..len]) == MerkleRoot(accounts)
    {
      CollapseLevel(hashes, len);
      len := Parents(len);
    }
    if len == 0 {
      return DefaultHash();
    }
    assert hashes[..len] == [hashes[0]];
    return hashes[0];
  }

  /** Replaces the first `len` hashes by their parents.  The writing never overtakes the reading. */
  method CollapseLevel(hashes: array<Hash>, len: nat)
    requires 1 < len <= hashes.Length
    modifies hashes
    ensures hashes[..Parents(len)] == Level(old(hashes[..len]))
  {
    ghost var level := hashes[..len];
    var out: nat, idx: nat := 0, 0;
    while idx < len
      invariant idx == out * MERKLE_FANOUT && out <= Parents(len)
      invariant hashes[..out] == Level(level)[..out]
      invariant forall k | idx <= k < len :: hashes[k] == level[k]
    {
      var chunk := hashes[idx..Min(idx + MERKLE_FANOUT, len)];
      assert chunk == ChunkFrom(level, idx);
      hashes[out] := DIGEST(chunk);
      out := out + 1;
      idx := idx + MERKLE_FANOUT;
    }
  }

  // ----- proofs

  /** The path holds, from the leaf to the root, position and number of siblings of the node at each level packed
      into a byte; the siblings of all levels follow each other. */
  datatype MerkleProof = MerkleProof(path: seq<Byte>, siblings: seq<Hash>) {
    predicate Valid() {
      Positioned(path) && |siblings| == SiblingCount(path)
    }
  }

  function Pack(index: nat, len: nat): Byte
    requires 0 < len < MERKLE_FANOUT && index <= len
  {
    index * 16 + len
  }

  function Unpack(b: Byte): (nat, nat) {
    (b / 16, b % 16)
  }

  /** No position lies beyond the siblings. */
  predicate Positioned(path: seq<Byte>) {
    path == [] || (Unpack(path[0]).0 <= Unpack(path[0]).1 && Positioned(path[1..]))
  }

  function SiblingCount(path: seq<Byte>): nat {
    if path == [] then 0 else Unpack(path[0]).1 + SiblingCount(path[1..])
  }

  /** The chunk a node and its siblings form. */
  function Chunk(hash: Hash, index: nat, siblings: seq<Hash>): seq<Hash>
    requires index <= |siblings|
  {
    siblings[..index] + [hash] + siblings[index..]
  }

  /** The lowest chunk of a proof. */
  function FirstChunk(hash: Hash, path: seq<Byte>, siblings: seq<Hash>): seq<Hash>
    requires MerkleProof(path, siblings).Valid() && path != []
  {
    var (index, len) := Unpack(path[0]);
    Chunk(hash, index, siblings[..len])
  }

  /** What hashing upwards along a proof gives. */
  function ExpectedRoot(hash: Hash, path: seq<Byte>, siblings: seq<Hash>): Hash
    requires MerkleProof(path, siblings).Valid()
    decreases |path|
  {
    if path == [] then hash
    else ExpectedRoot(DIGEST(FirstChunk(hash, path, siblings)), path[1..], siblings[Unpack(path[0]).1..])
  }

  method ExpectedRootImpl(proof: MerkleProof, account: Hash) returns (hash: Hash)
    requires proof.Valid()
    ensures hash == ExpectedRoot(account, proof.path, proof.siblings)
  {
    hash := account;
    var path, siblings := proof.path, proof.siblings;
    while path != []
      invariant MerkleProof(path, siblings).Valid()
      invariant ExpectedRoot(hash, path, siblings) == ExpectedRoot(account, proof.path, proof.siblings)
      decreases |path|
    {
      var (index, len) := Unpack(path[0]);
      var (head, tail) := (siblings[..index], siblings[index..len]);
      assert head + [hash] + tail == FirstChunk(hash, path, siblings);
      hash := DIGEST(head + [hash] + tail);
      path, siblings := path[1..], siblings[len..];
    }
  }

  function ChunkStart(pos: nat): (start: nat)
    ensures start <= pos < start + MERKLE_FANOUT && pos - start == pos % MERKLE_FANOUT
  {
    pos / MERKLE_FANOUT * MERKLE_FANOUT
  }

  /** Number of nodes among `n` that share a parent with the node at `pos`. */
  function ChunkLen(n: nat, pos: nat): (len: nat)
    requires pos < n
    ensures 0 < len <= MERKLE_FANOUT && pos - ChunkStart(pos) < len
  {
    Min(ChunkStart(pos) + MERKLE_FANOUT, n) - ChunkStart(pos)
  }

  /** Whether the node at `pos` of `n`, and every node above it, has a sibling. */
  predicate NeverAlone(n: nat, pos: nat)
    requires pos < n
    decreases n
  {
    n == 1 || (2 <= ChunkLen(n, pos) && NeverAlone(Parents(n), pos / MERKLE_FANOUT))
  }

  function Siblings(chunk: seq<Hash>, index: nat): seq<Hash>
    requires index < |chunk|
  {
    chunk[..index] + chunk[index + 1..]
  }

  /** Adds a level to a proof; `None` stands for the assertion failure on a node without siblings. */
  method PushLevel(proof: MerkleProof, chunk: seq<Hash>, index: nat) returns (r: Option<MerkleProof>)
    requires index < |chunk| <= MERKLE_FANOUT
    ensures r.None? <==> |chunk| == 1
    ensures r.Some? ==>
      r.value == MerkleProof(proof.path + [Pack(index, |chunk| - 1)], proof.siblings + Siblings(chunk, index))
  {
    if |chunk| == 1 {
      return None;
    }
    var siblings := proof.siblings;
    for i := 0 to |chunk|
      invariant siblings == proof.siblings + (if i <= index then chunk[..i] else chunk[..index] + chunk[index + 1..i])
    {
      if i != index {
        siblings := siblings + [chunk[i]];
      }
    }
    return Some(MerkleProof(proof.path + [Pack(index, |chunk| - 1)], siblings));
  }

  lemma PackUnpack(index: nat, len: nat)
    requires 0 < len < MERKLE_FANOUT && index <= len
    ensures Unpack(Pack(index, len)) == (index, len)
  {
  }

  lemma {:induction false} PathConcat(a: seq<Byte>, b: seq<Byte>)
    ensures SiblingCount(a + b) == SiblingCount(a) + SiblingCount(b)
    ensures Positioned(a + b) <==> Positioned(a) && Positioned(b)
  {
    if a == [] {
      assert a + b == b;
    } else {
      PathConcat(a[1..], b);
      assert (a + b)[1..] == a[1..] + b;
    }
  }

  lemma ConcatValid(a: MerkleProof, b: MerkleProof)
    requires a.Valid() && b.Valid()
    ensures MerkleProof(a.path + b.path, a.siblings + b.siblings).Valid()
    ensures a.path == [] ==> a.siblings == []
  {
    PathConcat(a.path, b.path);
  }

  lemma SameFirstChunk(hash: Hash, a: MerkleProof, b: MerkleProof)
    requires a.Valid() && a.path != [] && MerkleProof(a.path + b.path, a.siblings + b.siblings).Valid()
    ensures FirstChunk(hash, a.path + b.path, a.siblings + b.siblings) == FirstChunk(hash, a.path, a.siblings)
    ensures Unpack(a.path[0]).1 <= |a.siblings|
    ensures MerkleProof(a.path[1..], a.siblings[Unpack(a.path[0]).1..]).Valid()
  {
    hide Chunk;
    var len := Unpack(a.path[0]).1;
    assert (a.siblings + b.siblings)[..len] == a.siblings[..len];
  }

  /** Hashing along one proof and then along another. */
  lemma {:induction false} ExpectedRootConcat(hash: Hash, a: MerkleProof, b: MerkleProof)
    requires a.Valid() && b.Valid()
    ensures MerkleProof(a.path + b.path, a.siblings + b.siblings).Valid()
    ensures ExpectedRoot(hash, a.path + b.path, a.siblings + b.siblings) ==
            ExpectedRoot(ExpectedRoot(hash, a.path, a.siblings), b.path, b.siblings)
    decreases |a.path|
  {
    hide FirstChunk;
    hide MerkleProof.Valid;
    ConcatValid(a, b);
    if a.path == [] {
      assert a.path + b.path == b.path && a.siblings + b.siblings == b.siblings;
    } else {
      SameFirstChunk(hash, a, b);
      var len := Unpack(a.path[0]).1;
      var up := DIGEST(FirstChunk(hash, a.path, a.siblings));
      ExpectedRootConcat(up, MerkleProof(a.path[1..], a.siblings[len..]), b);
      var (path, siblings) := (a.path + b.path, a.siblings + b.siblings);
      assert path[1..] == a.path[1..] + b.path;
      assert siblings[len..] == a.siblings[len..] + b.siblings;
    }
  }

  /** The proof that leads one level up. */
  function LevelProof(hashes: seq<Hash>, pos: nat): MerkleProof
    requires pos < |hashes| && 2 <= ChunkLen(|hashes|, pos)
  {
    var start := ChunkStart(pos);
    var chunk := ChunkFrom(hashes, start);
    MerkleProof([Pack(pos - start, |chunk| - 1)], Siblings(chunk, pos - start))
  }

  lemma OneLevel(hashes: seq<Hash>, pos: nat)
    requires pos < |hashes| && 2 <= ChunkLen(|hashes|, pos)
    ensures var p := LevelProof(hashes, pos);
      && p.Valid() && pos / MERKLE_FANOUT < |Level(hashes)|
      && ExpectedRoot(hashes[pos], p.path, p.siblings) == Level(hashes)[pos / MERKLE_FANOUT]
  {
    var start := ChunkStart(pos);
    var chunk := ChunkFrom(hashes, start);
    var index, len := pos - start, |chunk| - 1;
    var siblings := Siblings(chunk, index);
    var path := [Pack(index, len)];
    PackUnpack(index, len);
    assert path[1..] == [] && SiblingCount(path) == len;
    assert siblings[..len] == siblings && siblings[len..] == [];
    assert chunk[index] == hashes[pos];
    assert Chunk(hashes[pos], index, siblings) == chunk;
  }

  /** The path holds, level by level, the position within the chunk and the number of siblings. */
  predicate PathTells(n: nat, pos: nat, path: seq<Byte>)
    requires pos < n
    decreases n
  {
    if n == 1 then path == []
    else
      && path != [] && path[0] / 16 == pos % 16 && path[0] % 16 + 1 == ChunkLen(n, pos)
      && PathTells(Parents(n), pos / 16, path[1..])
  }

  /** The path leads from one position to another, further up. */
  ghost predicate LeadsTo(n: nat, pos: nat, path: seq<Byte>, n': nat, pos': nat)
    requires pos < n && pos' < n'
  {
    forall rest | PathTells(n', pos', rest) :: PathTells(n, pos, path + rest)
  }

  lemma LeadsNowhere(n: nat, pos: nat)
    requires pos < n
    ensures LeadsTo(n, pos, [], n, pos)
  {
    assert forall rest: seq<Byte> :: [] + rest == rest;
  }

  lemma LeadsOneUp(n: nat, pos: nat, path: seq<Byte>, n': nat, pos': nat)
    requires pos < n && pos' < n' && 1 < n' && 2 <= ChunkLen(n', pos') && pos' / 16 < Parents(n') < n'
    requires LeadsTo(n, pos, path, n', pos')
    ensures LeadsTo(n, pos, path + [Pack(pos' % 16, ChunkLen(n', pos') - 1)], Parents(n'), pos' / 16)
  {
    var step := Pack(pos' % 16, ChunkLen(n', pos') - 1);
    forall rest | PathTells(Parents(n'), pos' / 16, rest) ensures PathTells(n, pos, path + [step] + rest) {
      assert ([step] + rest)[1..] == rest;
      assert path + [step] + rest == path + ([step] + rest);
    }
  }

  lemma LeadsToTop(n: nat, pos: nat, path: seq<Byte>)
    requires pos < n && LeadsTo(n, pos, path, 1, 0)
    ensures PathTells(n, pos, path)
  {
    assert PathTells(1, 0, []) && path + [] == path;
  }

  /** Generates the proof for the account at `pos`; fails just when some node on the way up has no sibling.
      Hashing along the proof gives the root, but for a single account, whose proof is empty. */
  method GenerateMerkleProof(accounts: seq<Hash>, pos0: nat) returns (r: Option<MerkleProof>)
    requires pos0 < |accounts|
    ensures r.Some? <==> NeverAlone(|accounts|, pos0)
    ensures r.Some? ==> r.value.Valid() && PathTells(|accounts|, pos0, r.value.path)
    ensures r.Some? && 1 < |accounts| ==>
      ExpectedRoot(accounts[pos0], r.value.path, r.value.siblings) == MerkleRoot(accounts)
    ensures |accounts| == 1 ==> r == Some(MerkleProof([], []))
  {
    hide Level;
    hide ExpectedRoot;
    hide LevelProof;
    hide MerkleProof.Valid;
    hide LeadsTo;
    hide PathTells;
    hide Siblings;
    var proof := MerkleProof([], []);
    var hashes, pos: nat := accounts, pos0;
    NoProof(accounts[pos]);
    LeadsNowhere(|accounts|, pos);
    LevelSize(accounts);
    while |hashes| > 1
      invariant pos < |hashes| && proof.Valid()
      invariant NeverAlone(|hashes|, pos) <==> NeverAlone(|accounts|, pos0)
      invariant ExpectedRoot(accounts[pos0], proof.path, proof.siblings) == hashes[pos]
      invariant Collapse(hashes) == Collapse(accounts)
      invariant LeadsTo(|accounts|, pos0, proof.path, |hashes|, pos)
      invariant |accounts| == 1 ==> hashes == accounts && proof == MerkleProof([], [])
      decreases |hashes|
    {
      LevelSize(hashes);
      var chunkIndex := pos / MERKLE_FANOUT;
      var start := chunkIndex * MERKLE_FANOUT;
      assert start == ChunkStart(pos) && pos % MERKLE_FANOUT == pos - start;
      var end := Min(start + MERKLE_FANOUT, |hashes|);
      assert end - start == ChunkLen(|hashes|, pos);
      var more := PushLevel(proof, hashes[start..end], pos % MERKLE_FANOUT);
      if more.None? {
        return None;
      }
      OneLevel(hashes, pos);
      LevelProofIs(hashes, pos);
      ExpectedRootConcat(accounts[pos0], proof, LevelProof(hashes, pos));
      LeadsOneUp(|accounts|, pos0, proof.path, |hashes|, pos);
      proof := more.value;
      hashes := Level(hashes);
      pos := chunkIndex;
    }
    LeadsToTop(|accounts|, pos0, proof.path);
    return Some(proof);
  }

  lemma NoProof(hash: Hash)
    ensures MerkleProof([], []).Valid() && ExpectedRoot(hash, [], []) == hash
  {
  }

  lemma LevelSize(hashes: seq<Hash>)
    ensures |Level(hashes)| == Parents(|hashes|)
    ensures 1 < |hashes| ==> 0 < Parents(|hashes|) < |hashes|
  {
  }

  lemma LevelProofIs(hashes: seq<Hash>, pos: nat)
    requires pos < |hashes| && 2 <= ChunkLen(|hashes|, pos)
    ensures var start := ChunkStart(pos);
      var chunk := hashes[start..Min(start + MERKLE_FANOUT, |hashes|)];
      && LevelProof(hashes, pos).path == [Pack(pos - start, |chunk| - 1)]
      && LevelProof(hashes, pos).siblings == Siblings(chunk, pos - start)
  {
  }

  /** For a single account the empty proof gives its hash, which is the root just when it is its own digest. */
  lemma {:induction false} SingleAccount(account: Hash)
    ensures ExpectedRoot(account, [], []) == account
    ensures MerkleRoot([account]) == DIGEST([account])
    ensures ExpectedRoot(account, [], []) == MerkleRoot([account]) <==> DIGEST([account]) == account
  {
    assert ChunkFrom([account], 0) == [account];
    assert Level([account]) == [DIGEST([account])];
  }

  /** The last of seventeen accounts is alone among the leaves; the last sixteen of 258 are alone one level up. */
  lemma {:induction false} AloneSomewhere()
    ensures !NeverAlone(17, 16)
    ensures !NeverAlone(258, 256) && NeverAlone(258, 255)
  {
    assert Parents(258) == 17 && Parents(17) == 2 && Parents(2) == 1;
    assert !NeverAlone(17, 16);
    assert NeverAlone(2, 0);
    assert NeverAlone(17, 15);
  }

  /** No level of the tree over `n` accounts leaves one node over when divided into chunks. */
  predicate NoRemainderOfOne(n: nat)
    decreases n
  {
    n <= 1 || (n % MERKLE_FANOUT != 1 && NoRemainderOfOne(Parents(n)))
  }

  lemma LastAlone(n: nat)
    requires 1 < n
    ensures n % MERKLE_FANOUT == 1 ==> ChunkLen(n, n - 1) == 1
    ensures n % MERKLE_FANOUT != 1 ==> forall pos: nat | pos < n :: 2 <= ChunkLen(n, pos)
  {
    forall pos: nat | pos < n && ChunkLen(n, pos) < 2
      ensures n % MERKLE_FANOUT == 1
    {
      assert n == pos / MERKLE_FANOUT * MERKLE_FANOUT + 1;
    }
  }

  lemma AloneAtTop()
    ensures NeverAlone(1, 0)
  {
  }

  lemma OneStepUp(n: nat, pos: nat)
    requires 1 < n && pos < n
    ensures pos / MERKLE_FANOUT < Parents(n) < n
    ensures NeverAlone(n, pos) <==> 2 <= ChunkLen(n, pos) && NeverAlone(Parents(n), pos / MERKLE_FANOUT)
  {
  }

  /** Proofs can be generated for all accounts just when no level leaves a remainder of one. */
  lemma {:induction false} EveryoneProvable(n: nat)
    requires 0 < n
    ensures NoRemainderOfOne(n) <==> forall pos: nat | pos < n :: NeverAlone(n, pos)
    decreases n
  {
    hide ChunkLen;
    hide NeverAlone;
    if n == 1 {
      assert NeverAlone(1, 0) by { AloneAtTop(); }
    } else {
      LastAlone(n);
      EveryoneProvable(Parents(n));
      if n % MERKLE_FANOUT == 1 {
        OneStepUp(n, n - 1);
      } else if NoRemainderOfOne(Parents(n)) {
        forall pos: nat | pos < n
          ensures NeverAlone(n, pos)
        {
          OneStepUp(n, pos);
        }
      } else {
        var up: nat :| up < Parents(n) && !NeverAlone(Parents(n), up);
        var pos := up * MERKLE_FANOUT;
        assert pos / MERKLE_FANOUT == up && pos < n;
        OneStepUp(n, pos);
      }
    }
  }

  // ----- no two accounts, one proof

  /** Everything hashed along a proof. */
  ghost function Hashed(hash: Hash, path: seq<Byte>, siblings: seq<Hash>): set<seq<Hash>>
    requires MerkleProof(path, siblings).Valid()
    decreases |path|
  {
    if path == [] then {}
    else
      var chunk := FirstChunk(hash, path, siblings);
      {chunk} + Hashed(DIGEST(chunk), path[1..], siblings[Unpack(path[0]).1..])
  }

  ghost predicate NoCollision(s: set<seq<Hash>>) {
    forall a, b | a in s && b in s && DIGEST(a) == DIGEST(b) :: a == b
  }

  /** A proof and a root belong to one account hash only. */
  lemma {:induction false} OneAccount(a: Hash, b: Hash, path: seq<Byte>, siblings: seq<Hash>)
    requires MerkleProof(path, siblings).Valid()
    requires NoCollision(Hashed(a, path, siblings) + Hashed(b, path, siblings))
    requires ExpectedRoot(a, path, siblings) == ExpectedRoot(b, path, siblings)
    ensures a == b
    decreases |path|
  {
    if path != [] {
      var (index, len) := Unpack(path[0]);
      var x, y := FirstChunk(a, path, siblings), FirstChunk(b, path, siblings);
      OneAccount(DIGEST(x), DIGEST(y), path[1..], siblings[len..]);
      assert x[index] == a && y[index] == b;
    }
  }

  // ----- binary form

  const MAX_DEPTH: nat := 16

  datatype DecodeError = Malformed | Panicked

  function Flatten(hashes: seq<Hash>): seq<Byte> {
    if hashes == [] then [] else hashes[0] + Flatten(hashes[1..])
  }

  function Hashes(bytes: seq<Byte>): (r: seq<Hash>)
    requires |bytes| % 32 == 0
    ensures |r| == |bytes| / 32
  {
    if bytes == [] then [] else [bytes[..32]] + Hashes(bytes[32..])
  }

  function ToBinary(p: MerkleProof): seq<Byte>
    requires |p.path| <= MAX_DEPTH
  {
    [|p.path|] + p.path + Flatten(p.siblings)
  }

  /** Decoding; a position beyond the number of siblings trips an assertion. */
  function FromBinary(bytes: seq<Byte>): Result<MerkleProof, DecodeError> {
    if bytes == [] then Err(Malformed)
    else
      var depth, rest := bytes[0], bytes[1..];
      if depth > |rest| || depth > MAX_DEPTH then Err(Malformed)
      else if !Positioned(rest[..depth]) then Err(Panicked)
      else if |rest[depth..]| % 32 != 0 || |rest[depth..]| / 32 != SiblingCount(rest[..depth]) then Err(Malformed)
      else Ok(MerkleProof(rest[..depth], Hashes(rest[depth..])))
  }

  lemma {:induction false} HashesOfFlatten(hashes: seq<Hash>)
    ensures |Flatten(hashes)| == 32 * |hashes|
    ensures Hashes(Flatten(hashes)) == hashes
  {
    if hashes != [] {
      HashesOfFlatten(hashes[1..]);
      assert Flatten(hashes)[..32] == hashes[0] && Flatten(hashes)[32..] == Flatten(hashes[1..]);
    }
  }

  lemma {:induction false} FlattenOfHashes(bytes: seq<Byte>)
    requires |bytes| % 32 == 0
    ensures Flatten(Hashes(bytes)) == bytes
    decreases |bytes|
  {
    if bytes != [] {
      FlattenOfHashes(bytes[32..]);
      var hs := Hashes(bytes);
      assert hs[0] == bytes[..32] && hs[1..] == Hashes(bytes[32..]);
      assert bytes == bytes[..32] + bytes[32..];
    }
  }

  /** The number of levels, their path bytes and the siblings one after another. */
  lemma {:induction false} BinaryLayout(p: MerkleProof, i: nat)
    requires |p.path| <= MAX_DEPTH
    ensures var (bytes, n) := (ToBinary(p), |p.path|);
      && |bytes| == 1 + n + 32 * |p.siblings| && bytes[0] == n && bytes[1..1 + n] == p.path
      && (i < |p.siblings| ==> bytes[1 + n + 32 * i..][..32] == p.siblings[i])
  {
    HashesOfFlatten(p.siblings);
    if i < |p.siblings| {
      FlattenedAt(p.siblings, i);
      assert ToBinary(p)[1 + |p.path| + 32 * i..] == Flatten(p.siblings)[32 * i..];
    }
  }

  lemma {:induction false} FlattenedAt(hashes: seq<Hash>, i: nat)
    requires i < |hashes|
    ensures 32 * i + 32 <= |Flatten(hashes)| && Flatten(hashes)[32 * i..][..32] == hashes[i]
  {
    HashesOfFlatten(hashes);
    if i > 0 {
      FlattenedAt(hashes[1..], i - 1);
      assert Flatten(hashes)[32 * i..] == Flatten(hashes[1..])[32 * (i - 1)..];
    }
  }

  /** Decoding panics exactly on a path, short enough and complete, with a position beyond the siblings. */
  lemma {:induction false} DecodingPanics(bytes: seq<Byte>)
    ensures FromBinary(bytes) == Err(Panicked) <==>
      && bytes != [] && bytes[0] <= 16 && bytes[0] < |bytes|
      && exists i :: 1 <= i <= bytes[0] && bytes[i] / 16 > bytes[i] % 16
  {
    if bytes != [] && bytes[0] < |bytes| {
      PositionedAt(bytes[1..][..bytes[0]]);
      assert forall i | 1 <= i <= bytes[0] :: bytes[i] == bytes[1..][..bytes[0]][i - 1];
      assert forall i | 0 <= i < bytes[0] :: bytes[1..][..bytes[0]][i] == bytes[i + 1];
    }
  }

  lemma {:induction false} PositionedAt(path: seq<Byte>)
    ensures Positioned(path) <==> forall i | 0 <= i < |path| :: path[i] / 16 <= path[i] % 16
  {
    if path != [] {
      PositionedAt(path[1..]);
      assert forall i | 0 < i < |path| :: path[i] == path[1..][i - 1];
    }
  }

  /** Decoding gives back what was encoded. */
  lemma {:induction false} DecodeEncoded(p: MerkleProof)
    requires p.Valid() && |p.path| <= MAX_DEPTH
    ensures FromBinary(ToBinary(p)) == Ok(p)
  {
    HashesOfFlatten(p.siblings);
    var rest := ToBinary(p)[1..];
    assert rest[..|p.path|] == p.path && rest[|p.path|..] == Flatten(p.siblings);
  }

  /** Whatever decodes is the encoding of a valid proof, so no proof has two encodings. */
  lemma {:induction false} EncodeDecoded(bytes: seq<Byte>)
    requires FromBinary(bytes).Ok?
    ensures var p := FromBinary(bytes).value;
      p.Valid() && |p.path| <= MAX_DEPTH && ToBinary(p) == bytes
  {
    var depth, rest := bytes[0], bytes[1..];
    FlattenOfHashes(rest[depth..]);
    assert bytes == [depth] + rest[..depth] + rest[depth..];
  }
}
