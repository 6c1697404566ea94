/** How a trie value is laid out in memory: one block per node, each holding references with the
    pointers and hashes of its children. */
module Heap {
  import opened Wrappers
  import opened Bits
  import opened Tree
  import CryptoHash
  import DoubleFree
  import Memory

  type Ptr = Memory.Ptr

  /** A reference as kept inside a node.  A node reference without a pointer is sealed. */
  datatype Ref = NodeRef(ptr: Option<Ptr>, hash: Hash) | ValueRef(isSealed: bool, hash: Hash) {
    predicate IsSealed() {
      match this
      case NodeRef(p, _) => p.None?
      case ValueRef(s, _) => s
    }
  }

  datatype RawNode = RawBranch(left: Ref, right: Ref) | RawExt(key: Slice, child: Ref)

  function OwnedOf(r: Ref): OwnedRef {
    OwnedRef(r.ValueRef?, r.hash)
  }

  /** Hash of a node: pointers and seals play no part in it. */
  function NodeHashOf(n: RawNode): Hash {
    NODE_DIGEST(match n
                case RawBranch(l, r) => BranchContent(OwnedOf(l), OwnedOf(r))
                case RawExt(k, c) => ExtContent(k, OwnedOf(c)))
  }

  /** The last 32 bytes of the block of a node are zero. */
  predicate EndsInZero(n: RawNode) {
    (match n case RawBranch(_, r) => r.hash case RawExt(_, c) => c.hash) == CryptoHash.ZERO
  }

  /** The allocator looks at the last 32 bytes of a block. */
  ghost predicate ChecksMarker(alloc: Memory.Allocator<RawNode>) {
    forall n :: alloc.looksFree(n) <==> EndsInZero(n)
  }

  /** A trie value together with the block each of its nodes lives in. */
  datatype Placed =
    | PLeaf(hash: Hash, isSealed: bool)
    | PBranch(ptr: Option<Ptr>, left: Placed, right: Placed)
    | PExt(at: Ptr, key: Slice, child: Placed)

  function Shape(p: Placed): Tree {
    match p
    case PLeaf(h, s) => Leaf(h, s)
    case PBranch(ptr, l, r) => Branch(ptr.None?, Shape(l), Shape(r))
    case PExt(_, k, c) => Ext(k, Shape(c))
  }

  function RefOf(p: Placed): Ref {
    match p
    case PLeaf(h, s) => ValueRef(s, h)
    case PBranch(ptr, _, _) => NodeRef(ptr, HashOf(Shape(p)))
    case PExt(at, _, _) => NodeRef(Some(at), HashOf(Shape(p)))
  }

  /** What the block of the topmost node holds. */
  function NodeOf(p: Placed): RawNode
    requires !p.PLeaf?
  {
    match p
    case PBranch(_, l, r) => RawBranch(RefOf(l), RefOf(r))
    case PExt(_, k, c) => RawExt(k, RefOf(c))
  }

  lemma EndsLikeShape(p: Placed)
    requires !p.PLeaf?
    ensures EndsInZero(NodeOf(p)) <==> DoubleFree.LooksFree(Shape(p))
  {
  }

  type Nodes = map<Ptr, RawNode>

  /** The blocks a trie occupies. */
  function NodesOf(p: Placed): Nodes {
    match p
    case PLeaf(_, _) => map[]
    case PBranch(None, l, r) => NodesOf(l) + NodesOf(r)
    case PBranch(Some(at), l, r) => (NodesOf(l) + NodesOf(r))[at := NodeOf(p)]
    case PExt(at, _, c) => NodesOf(c)[at := NodeOf(p)]
  }

  /** No two nodes share a block. */
  predicate Separate(p: Placed) {
    match p
    case PLeaf(_, _) => true
    case PBranch(ptr, l, r) =>
      && Separate(l) && Separate(r)
      && NodesOf(l).Keys !! NodesOf(r).Keys
      && (ptr.Some? ==> ptr.value !in NodesOf(l) && ptr.value !in NodesOf(r))
    case PExt(at, _, c) => Separate(c) && at !in NodesOf(c)
  }

  ghost predicate Within(small: Nodes, big: Nodes) {
    forall p | p in small :: p in big && big[p] == small[p]
  }

  /** `after` is `before` with the blocks of one subtrie replaced by those of another. */
  ghost predicate Replaced(before: Nodes, old_: Nodes, new_: Nodes, after: Nodes) {
    && new_.Keys !! before.Keys - old_.Keys
    && after == (before - old_.Keys) + new_
  }

  /** The key has been followed down to `p`, a subtrie nothing of which has been changed since the operation
      began: what is read from memory and what will be in memory agree on it. */
  ghost predicate Facing(p: Placed, d: nat, key: Slice, read: Nodes, pending: Nodes) {
    && WF(Shape(p), d) && key.offset == BitInByte(d) && Separate(p)
    && Within(NodesOf(p), read) && Within(NodesOf(p), pending)
  }

  lemma HashMatches(p: Placed)
    requires !p.PLeaf?
    ensures NodeHashOf(NodeOf(p)) == HashOf(Shape(p)) == RefOf(p).hash
  {
    assert match p
           case PBranch(_, l, r) => OwnedOf(RefOf(l)) == Owned(Shape(l)) && OwnedOf(RefOf(r)) == Owned(Shape(r))
           case PExt(_, _, c) => OwnedOf(RefOf(c)) == Owned(Shape(c));
    assert ContentOf(Shape(p)) ==
           match NodeOf(p)
           case RawBranch(l, r) => BranchContent(OwnedOf(l), OwnedOf(r))
           case RawExt(k, c) => ExtContent(k, OwnedOf(c));
  }

  /** As many blocks are in use as the trie has nodes in memory. */
  lemma {:induction false} OneBlockPerNode(p: Placed)
    requires Separate(p)
    ensures |NodesOf(p)| == Blocks(Shape(p))
  {
    match p
    case PLeaf(_, _) =>
    case PBranch(ptr, l, r) =>
      OneBlockPerNode(l);
      OneBlockPerNode(r);
      UnionSize(NodesOf(l), NodesOf(r));
      if ptr.Some? {
        InsertSize(NodesOf(l) + NodesOf(r), ptr.value, NodeOf(p));
      }
    case PExt(at, _, c) =>
      OneBlockPerNode(c);
      InsertSize(NodesOf(c), at, NodeOf(p));
  }

  lemma UnionSize(a: Nodes, b: Nodes)
    requires a.Keys !! b.Keys
    ensures |a + b| == |a| + |b|
  {
    assert (a + b).Keys == a.Keys + b.Keys;
    assert |(a + b).Keys| == |a.Keys| + |b.Keys|;
  }

  lemma InsertSize(a: Nodes, p: Ptr, n: RawNode)
    requires p !in a
    ensures |a[p := n]| == |a| + 1
  {
    assert a[p := n].Keys == a.Keys + {p};
    assert |a[p := n].Keys| == |a.Keys| + 1;
  }

  lemma SealedOf(p: Placed)
    ensures RefOf(p).IsSealed() <==> IsSealed(Shape(p))
  {
  }

  // ----- replacing part of a trie

  /** A node updated in place after one of its subtries was replaced; `rest` are the blocks of its other
      subtrie. */
  lemma ReplaceBelow(before: Nodes, at: Ptr, node: RawNode, node': RawNode, rest: Nodes, old_: Nodes, new_: Nodes, mid: Nodes)
    requires at !in rest && at !in old_ && rest.Keys !! old_.Keys
    requires Within((rest + old_)[at := node], before)
    requires Replaced(before, old_, new_, mid)
    ensures at in mid && at !in new_ && rest.Keys !! new_.Keys
    ensures Replaced(before, (rest + old_)[at := node], (rest + new_)[at := node'], mid[at := node'])
  {
    assert at in before && forall p | p in rest :: p in before && before[p] == rest[p];
    assert mid[at := node'] ==
           (before - (rest + old_)[at := node].Keys) + (rest + new_)[at := node'];
  }

  function WithChild(p: Placed, right: bool, c: Placed): Placed
    requires p.PBranch?
  {
    if right then PBranch(p.ptr, p.left, c) else PBranch(p.ptr, c, p.right)
  }

  lemma BranchReplaced(before: Nodes, p: Placed, right: bool, c: Placed, mid: Nodes)
    requires p.PBranch? && p.ptr.Some? && Separate(p) && Within(NodesOf(p), before)
    requires Separate(c) && Replaced(before, NodesOf(if right then p.right else p.left), NodesOf(c), mid)
    ensures var p' := WithChild(p, right, c);
      && Separate(p') && p.ptr.value in mid
      && Replaced(before, NodesOf(p), NodesOf(p'), mid[p.ptr.value := NodeOf(p')])
  {
    var at := p.ptr.value;
    var p' := WithChild(p, right, c);
    var (old_, rest) := if right then (p.right, p.left) else (p.left, p.right);
    assert NodesOf(p) == (NodesOf(rest) + NodesOf(old_))[at := NodeOf(p)];
    ReplaceBelow(before, at, NodeOf(p), NodeOf(p'), NodesOf(rest), NodesOf(old_), NodesOf(c), mid);
    assert NodesOf(p') == (NodesOf(rest) + NodesOf(c))[at := NodeOf(p')];
  }

  lemma ExtReplaced(before: Nodes, p: Placed, c: Placed, mid: Nodes)
    requires p.PExt? && Separate(p) && Within(NodesOf(p), before)
    requires Separate(c) && Replaced(before, NodesOf(p.child), NodesOf(c), mid)
    ensures var p' := PExt(p.at, p.key, c);
      && Separate(p') && p.at in mid
      && Replaced(before, NodesOf(p), NodesOf(p'), mid[p.at := NodeOf(p')])
  {
    hide HashOf;
    hide Shape;
    hide RefOf;
    var p' := PExt(p.at, p.key, c);
    var none: Nodes := map[];
    assert NodesOf(p) == (none + NodesOf(p.child))[p.at := NodeOf(p)];
    assert NodesOf(p') == (none + NodesOf(c))[p.at := NodeOf(p')];
    ReplaceBelow(before, p.at, NodeOf(p), NodeOf(p'), none, NodesOf(p.child), NodesOf(c), mid);
  }

  /** The subtries of a node that is in memory are in memory. */
  lemma PartsWithin(p: Placed, big: Nodes)
    requires Separate(p) && Within(NodesOf(p), big)
    ensures p.PBranch? ==> Separate(p.left) && Separate(p.right)
    ensures p.PExt? ==> Separate(p.child)
    ensures p.PBranch? ==> Within(NodesOf(p.left), big) && Within(NodesOf(p.right), big)
    ensures p.PExt? ==> Within(NodesOf(p.child), big) && p.at in big && big[p.at] == NodeOf(p)
    ensures p.PBranch? && p.ptr.Some? ==> p.ptr.value in big && big[p.ptr.value] == NodeOf(p)
  {
    match p
    case PLeaf(_, _) =>
    case PBranch(ptr, l, r) =>
      forall q | q in NodesOf(l) ensures q in big && big[q] == NodesOf(l)[q] {
        assert q in NodesOf(p) && NodesOf(p)[q] == NodesOf(l)[q];
      }
      forall q | q in NodesOf(r) ensures q in big && big[q] == NodesOf(r)[q] {
        assert q in NodesOf(p) && NodesOf(p)[q] == NodesOf(r)[q];
      }
    case PExt(at, _, c) =>
      forall q | q in NodesOf(c) ensures q in big && big[q] == NodesOf(c)[q] {
        assert q in NodesOf(p) && NodesOf(p)[q] == NodesOf(c)[q];
      }
  }

  /** An Extension turned into a Branch over its old continuation, perhaps behind one more node `link`, and
      freshly built nodes. */
  lemma SplitReplaced(before: Nodes, p: Placed, ours: Placed, theirs: Placed, link: Nodes, bit: bool, mid: Nodes)
    requires p.PExt? && Separate(p) && Within(NodesOf(p), before)
    requires Separate(ours) && NodesOf(ours).Keys !! before.Keys
    requires link.Keys !! before.Keys && link.Keys !! NodesOf(ours).Keys
    requires Separate(theirs) && NodesOf(theirs) == NodesOf(p.child) + link
    requires mid == before + NodesOf(ours) + link
    ensures var p' := if bit then PBranch(Some(p.at), theirs, ours) else PBranch(Some(p.at), ours, theirs);
      && Separate(p') && p.at in mid
      && Replaced(before, NodesOf(p), NodesOf(p'), mid[p.at := NodeOf(p')])
  {
    PartsWithin(p, before);
    var p' := if bit then PBranch(Some(p.at), theirs, ours) else PBranch(Some(p.at), ours, theirs);
    var child, new_ := NodesOf(p.child), NodesOf(ours);
    assert child.Keys <= before.Keys && p.at in before;
    assert NodesOf(p) == child[p.at := NodeOf(p)];
    SplitNodes(before, p.at, child, new_, link, NodeOf(p), NodeOf(p'));
    hide NodesOf;
    assert (child + link).Keys !! new_.Keys;
    assert NodesOf(p') == (child + link + new_)[p.at := NodeOf(p')] by {
      BranchNodes(p');
      assert child + link + new_ == new_ + (child + link);
    }
    assert Separate(p');
  }

  lemma LinkNodes(before: Nodes, p: Placed, link: Placed)
    requires p.PExt? && Separate(p) && Within(NodesOf(p), before)
    requires link.PExt? && link.child == p.child && link.at !in before
    ensures Separate(link) && NodesOf(link) == NodesOf(p.child) + map[link.at := NodeOf(link)]
  {
    PartsWithin(p, before);
  }

  lemma BranchNodes(p: Placed)
    requires p.PBranch? && p.ptr.Some?
    ensures NodesOf(p) == (NodesOf(p.left) + NodesOf(p.right))[p.ptr.value := NodeOf(p)]
  {
  }

  lemma SplitNodes(before: Nodes, at: Ptr, child: Nodes, ours: Nodes, link: Nodes, node: RawNode, node': RawNode)
    requires at !in child && Within(child[at := node], before)
    requires ours.Keys !! before.Keys && link.Keys !! before.Keys && link.Keys !! ours.Keys
    ensures Replaced(before, child[at := node], (child + link + ours)[at := node'],
                     (before + ours + link)[at := node'])
  {
    assert at in before && forall q | q in child :: q in before && before[q] == child[q];
    assert (before - child[at := node].Keys) + (child + link + ours)[at := node'] ==
           (before + ours + link)[at := node'];
  }

  /** One more Extension put on top of what replaced a subtrie. */
  lemma ExtOnTop(before: Nodes, old_: Nodes, p: Placed, mid: Nodes, at: Ptr, key: Slice)
    requires Separate(p) && Replaced(before, old_, NodesOf(p), mid) && Within(old_, before)
    requires at !in mid
    ensures var p' := PExt(at, key, p);
      Separate(p') && Replaced(before, old_, NodesOf(p'), mid[at := NodeOf(p')])
  {
    var p' := PExt(at, key, p);
    assert at !in NodesOf(p);
    assert mid[at := NodeOf(p')] == (before - old_.Keys) + NodesOf(p');
  }

  lemma ReplacedAll(old_: Nodes, new_: Nodes, after: Nodes)
    requires Replaced(old_, old_, new_, after)
    ensures after == new_
  {
  }

  /** The hash of a node is never the hash of the empty trie. */
  lemma RootNodes(p: Placed)
    requires !p.PLeaf?
    ensures RefOf(p).hash != EMPTY_TRIE_ROOT
    ensures Within(NodesOf(p), NodesOf(p))
  {
  }

  lemma FacingSide(p: Placed, d: nat, key: Slice, read: Nodes, pending: Nodes)
    requires Facing(p, d, key, read, pending) && p.PBranch? && key.bits != []
    ensures Facing(if key.bits[0] then p.right else p.left, d + 1, key.Drop(1), read, pending)
  {
    PartsWithin(p, read);
    PartsWithin(p, pending);
    BitInByteAdd(d, 1);
  }
}
