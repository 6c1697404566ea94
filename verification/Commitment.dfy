/** What a root hash commits to, as long as no two different nodes share a digest. */
module Commitment {
  import opened Wrappers
  import opened Bits
  import opened Tree
  import opened SetSpec
  import opened History

  /** Everything hashed to obtain the hash of a subtrie. */
  ghost function Contents(t: Tree): set<Content> {
    match t
    case Leaf(_, _) => {}
    case Branch(_, l, r) => {ContentOf(t)} + Contents(l) + Contents(r)
    case Ext(_, c) => {ContentOf(t)} + Contents(c)
  }

  ghost function ContentsOf(s: State): set<Content> {
    if s.Empty? then {} else Contents(s.tree)
  }

  /** Different members of the set have different digests. */
  ghost predicate NoCollision(contents: set<Content>) {
    forall x, y | x in contents && y in contents :: NODE_DIGEST(x) == NODE_DIGEST(y) ==> x == y
  }

  lemma FewerCollisions(some: set<Content>, all: set<Content>)
    requires NoCollision(all) && some <= all
    ensures NoCollision(some)
  {
  }

  lemma SameContent(all: set<Content>, x: Content, y: Content)
    requires NoCollision(all) && x in all && y in all && NODE_DIGEST(x) == NODE_DIGEST(y)
    ensures x == y
  {
  }

  /** The subtrie with all seals forgotten. */
  function Bare(t: Tree): Tree {
    match t
    case Leaf(h, _) => Leaf(h, false)
    case Branch(_, l, r) => Branch(false, Bare(l), Bare(r))
    case Ext(e, c) => Ext(e, Bare(c))
  }

  lemma {:induction false} BareValue(t: Tree, k: seq<bool>)
    ensures Value(Bare(t), k) == Value(t, k)
  {
    match t
    case Leaf(_, _) =>
    case Branch(_, l, r) =>
      if k != [] {
        BareValue(if k[0] then r else l, k[1..]);
      }
    case Ext(e, c) =>
      if e.bits <= k {
        BareValue(c, k[|e.bits|..]);
      }
  }

  /** Subtries with the same hash differ at most in what is sealed. */
  lemma {:induction false} HashDeterminesShape(a: Tree, b: Tree)
    requires NoCollision(Contents(a) + Contents(b))
    requires Owned(a) == Owned(b)
    ensures Bare(a) == Bare(b)
    decreases a
  {
    if !a.Leaf? {
      assert ContentOf(a) in Contents(a) && ContentOf(b) in Contents(b);
      assert NODE_DIGEST(ContentOf(a)) == NODE_DIGEST(ContentOf(b));
      assert ContentOf(a) == ContentOf(b);
      if a.Branch? {
        HashDeterminesShape(a.left, b.left);
        HashDeterminesShape(a.right, b.right);
      } else {
        HashDeterminesShape(a.child, b.child);
      }
    }
  }

  /** Tries with the same root hash hold the same map, keys of any length included. */
  lemma {:induction false} RootBindsMap(a: State, b: State)
    requires Inv(a) && Inv(b) && NoCollision(ContentsOf(a) + ContentsOf(b))
    requires RootHash(a) == RootHash(b)
    ensures Values(EntriesOf(a)) == Values(EntriesOf(b))
  {
    if a.Root? && b.Root? {
      HashDeterminesShape(a.tree, b.tree);
      SameShapeSameMap(a, b);
    }
  }

  /** For tries over short keys, equal root hashes mean equal maps and the other way round. */
  lemma {:induction false} RootCommitsToMap(a: State, b: State)
    requires Inv(a) && Inv(b) && Compact(a) && Compact(b)
    requires NoCollision(ContentsOf(a) + ContentsOf(b))
    ensures RootHash(a) == RootHash(b) <==> Values(EntriesOf(a)) == Values(EntriesOf(b))
  {
    if Values(EntriesOf(a)) == Values(EntriesOf(b)) {
      SameMapSameTree(a, b);
    } else if RootHash(a) == RootHash(b) {
      RootBindsMap(a, b);
    }
  }

  lemma SameShapeSameMap(a: State, b: State)
    requires a.Root? && b.Root? && Bare(a.tree) == Bare(b.tree)
    ensures Values(EntriesOf(a)) == Values(EntriesOf(b))
  {
    forall k
      ensures k in EntriesOf(a) <==> k in EntriesOf(b)
      ensures k in EntriesOf(a) ==> EntriesOf(a)[k].hash == EntriesOf(b)[k].hash
    {
      EntriesAt(a, k);
      EntriesAt(b, k);
      BareValue(a.tree, k);
      BareValue(b.tree, k);
    }
    assert forall k :: k in Values(EntriesOf(a)) <==> k in Values(EntriesOf(b));
  }

  // ----- 34 bytes is the exact limit

  /** Histories over keys of at most `bytes` bytes that leave the same values leave the same root hash. */
  ghost predicate RootIsFunctionOfMap(bytes: nat) {
    forall ops: seq<Op>, ops': seq<Op> ::
      ShortKeys(ops, 8 * bytes) && ShortKeys(ops', 8 * bytes)
      && Values(MapRun(map[], ops)) == Values(MapRun(map[], ops'))
      ==> RootHash(Run(Empty, ops)) == RootHash(Run(Empty, ops'))
  }

  // Two keys of 35 bytes that part at the start of the second byte.
  function FirstKey(): Key { Zeros(280) }

  function SecondKey(): Key { Zeros(8) + [true] + Zeros(271) }

  // The trie that holds both keys when `longFirst` was inserted first: what was inserted first was
  // cut at its 34th byte, what was inserted second at its 35th.
  function CutAt(firstKeyFirst: bool): Tree {
    var older := Ext(Slice(1, Zeros(263)), Ext(Slice(0, Zeros(8)), Leaf(1, false)));
    var newer := Ext(Slice(1, Zeros(271)), Leaf(1, false));
    Ext(Slice(0, Zeros(8)), if firstKeyFirst then Branch(false, older, newer) else Branch(false, newer, older))
  }

  lemma LongChain(key: Key)
    requires |key| == 280 && key[9..] == Zeros(271)
    ensures Chain(Slice(0, key), Leaf(1, false)) ==
            Ext(Slice(0, key[..272]), Ext(Slice(0, Zeros(8)), Leaf(1, false)))
  {
    var slice := Slice(0, key);
    var rest := slice.Drop(272);
    assert slice.FirstChunkLen() == 272;
    assert rest.bits == Zeros(8);
    assert rest.offset == 0 && rest.FirstChunkLen() == 8;
    assert rest.Take(8) == rest && rest.Drop(8).bits == [];
  }

  lemma InsertBoth(first: Key, second: Key)
    requires |first| == |second| == 280
    requires first[..8] == second[..8] == Zeros(8) && first[8] != second[8]
    requires first[9..] == second[9..] == Zeros(271)
    ensures Run(Empty, [OpSet(first, 1), OpSet(second, 1)]) == Root(CutAt(second[8]))
  {
    var ops := [OpSet(first, 1), OpSet(second, 1)];
    LongChain(first);
    var one := Step(Empty, ops[0]);
    var e := Slice(0, first[..272]);
    var slice := Slice(0, second);
    PrefixLenIs(second, first[..272], 8);
    assert MatchLen(slice, e) == 8;
    var rest := slice.Drop(8);
    var ours := rest.Drop(1);
    assert ours.bits == Zeros(271);
    assert ours.offset == 1;
    assert ours.FirstChunkLen() == 271 && ours.Take(271) == ours && ours.Drop(271).bits == [];
    assert Chain(ours, Leaf(1, false)) == Ext(ours, Leaf(1, false));
    assert first[..272][9..] == Zeros(263);
    assert e.Drop(9) == Slice(1, Zeros(263));
    assert slice.Take(8) == Slice(0, Zeros(8));
    assert Set(one, second, 1) == Ok(Root(CutAt(second[8])));
    assert ops[1..] == [OpSet(second, 1)];
    assert Run(one, [OpSet(second, 1)]) == Run(Step(one, OpSet(second, 1)), []);
  }

  /** With keys of 35 bytes the order of insertion shows in the root hash. */
  lemma {:induction false} OrderShows()
    requires NoCollision(Contents(CutAt(true)) + Contents(CutAt(false)))
    ensures var a := [OpSet(FirstKey(), 1), OpSet(SecondKey(), 1)];
      var b := [OpSet(SecondKey(), 1), OpSet(FirstKey(), 1)];
      && Values(MapRun(map[], a)) == Values(MapRun(map[], b))
      && RootHash(Run(Empty, a)) != RootHash(Run(Empty, b))
  {
    var a := [OpSet(FirstKey(), 1), OpSet(SecondKey(), 1)];
    var b := [OpSet(SecondKey(), 1), OpSet(FirstKey(), 1)];
    assert FirstKey()[..8] == Zeros(8) && FirstKey()[9..] == Zeros(271);
    assert SecondKey()[..8] == Zeros(8) && SecondKey()[9..] == Zeros(271);
    InsertBoth(FirstKey(), SecondKey());
    InsertBoth(SecondKey(), FirstKey());
    RunRefines(Empty, a);
    RunRefines(Empty, b);
    SameKeysStored(a, b);
    CutsDiffer();
    if RootHash(Run(Empty, a)) == RootHash(Run(Empty, b)) {
      HashDeterminesShape(CutAt(true), CutAt(false));
    }
  }

  lemma CutsDiffer()
    ensures Bare(CutAt(true)) != Bare(CutAt(false))
  {
    assert |Bare(CutAt(true)).child.left.key.bits| == 263;
    assert |Bare(CutAt(false)).child.left.key.bits| == 271;
  }

  lemma SameKeysStored(a: seq<Op>, b: seq<Op>)
    requires a == [OpSet(FirstKey(), 1), OpSet(SecondKey(), 1)]
    requires b == [OpSet(SecondKey(), 1), OpSet(FirstKey(), 1)]
    ensures MapRun(map[], a) == MapRun(map[], b)
  {
    assert FirstKey()[8] != SecondKey()[8];
    TwoInsertions(FirstKey(), SecondKey());
    TwoInsertions(SecondKey(), FirstKey());
  }

  lemma TwoInsertions(x: Key, y: Key)
    requires 0 < |x| == |y| <= MAX_KEY_BITS && x != y
    ensures MapRun(map[], [OpSet(x, 1), OpSet(y, 1)]) == map[x := Entry(1, false), y := Entry(1, false)]
  {
    var ops := [OpSet(x, 1), OpSet(y, 1)];
    var one := MapStep(map[], ops[0]);
    assert one == map[x := Entry(1, false)];
    assert !Comparable(x, y);
    assert ops[1..] == [OpSet(y, 1)];
    var two := MapStep(one, ops[1]);
    assert MapRun(one, ops[1..]) == MapRun(two, ops[1..][1..]);
  }

  /** The root hash is a function of the map exactly for keys of at most 34 bytes. */
  lemma {:induction false} ThirtyFourBytes(bytes: nat)
    requires NoCollision(Contents(CutAt(true)) + Contents(CutAt(false)))
    ensures RootIsFunctionOfMap(bytes) <==> bytes <= 34
  {
    hide Run;
    hide MapRun;
    hide CutAt;
    if bytes <= 34 {
      forall ops: seq<Op>, ops': seq<Op> |
        ShortKeys(ops, 8 * bytes) && ShortKeys(ops', 8 * bytes)
        && Values(MapRun(map[], ops)) == Values(MapRun(map[], ops'))
        ensures RootHash(Run(Empty, ops)) == RootHash(Run(Empty, ops'))
      {
        SameMapSameRoot(ops, ops');
      }
    } else {
      OrderShows();
      var a := [OpSet(FirstKey(), 1), OpSet(SecondKey(), 1)];
      var b := [OpSet(SecondKey(), 1), OpSet(FirstKey(), 1)];
      assert ShortKeys(a, 8 * bytes) && ShortKeys(b, 8 * bytes);
      assert !RootIsFunctionOfMap(bytes);
    }
  }
}
