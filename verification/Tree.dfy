/** The trie as a value: the shape of its nodes, the hash every node commits to and the
    finite map the trie stands for.  A sealed subtrie stays in this value although its nodes are
    no longer stored anywhere. */
module Tree {
  import opened Wrappers
  import opened Bits
  import CryptoHash

  type Hash = CryptoHash.Hash

  // Root hash of a trie with no nodes.
  const EMPTY_TRIE_ROOT: Hash := CryptoHash.ZERO

  // Longest supported key: 8191 bytes.
  const MAX_KEY_BITS: nat := 8191 * 8

  /** What a node's hash tells about a child: whether it is a value and its hash. */
  datatype OwnedRef = OwnedRef(isValue: bool, hash: Hash)

  /** The part of a node that takes part in hashing: no pointers and no seals. */
  datatype Content =
    | BranchContent(left: OwnedRef, right: OwnedRef)
    | ExtContent(key: Slice, child: OwnedRef)

  // The node hash.  Nothing is assumed about it but that it never yields the all-zero digest.
  const NODE_DIGEST: Content -> CryptoHash.NonZeroHash

  datatype Tree =
    | Leaf(hash: Hash, isSealed: bool)
    | Branch(freed: bool, left: Tree, right: Tree)
    | Ext(key: Slice, child: Tree)

  datatype Entry = Entry(hash: Hash, isSealed: bool)

  datatype Error = EmptyKey | KeyTooLong | Sealed | BadKeyPrefix | NotFound | OutOfMemory | Panic

  function HashOf(t: Tree): Hash
    decreases t, 1
  {
    match t
    case Leaf(h, _) => h
    case _ => NODE_DIGEST(ContentOf(t))
  }

  function ContentOf(t: Tree): Content
    requires !t.Leaf?
    decreases t, 0
  {
    match t
    case Branch(_, l, r) => BranchContent(OwnedRef(l.Leaf?, HashOf(l)), OwnedRef(r.Leaf?, HashOf(r)))
    case Ext(k, c) => ExtContent(k, OwnedRef(c.Leaf?, HashOf(c)))
  }

  function Owned(t: Tree): OwnedRef {
    OwnedRef(t.Leaf?, HashOf(t))
  }

  predicate IsSealed(t: Tree) {
    (t.Leaf? && t.isSealed) || (t.Branch? && t.freed)
  }

  /** Well-formedness of the subtrie that starts `d` bits below the root. */
  predicate WF(t: Tree, d: nat) {
    match t
    case Leaf(_, _) => 0 < d <= MAX_KEY_BITS && BitInByte(d) == 0
    case Branch(freed, l, r) =>
      (freed <==> IsSealed(l) && IsSealed(r)) && WF(l, d + 1) && WF(r, d + 1)
    case Ext(k, c) => k.IsExtKey() && k.offset == BitInByte(d) && WF(c, d + |k.bits|)
  }

  /** No Extension leads to another Extension. */
  predicate Canonical(t: Tree) {
    match t
    case Leaf(_, _) => true
    case Branch(_, l, r) => Canonical(l) && Canonical(r)
    case Ext(_, c) => !c.Ext? && Canonical(c)
  }

  /** Every value sits at most `limit` bits below the root. */
  predicate Shallow(t: Tree, d: nat, limit: nat) {
    match t
    case Leaf(_, _) => d <= limit
    case Branch(_, l, r) => Shallow(l, d + 1, limit) && Shallow(r, d + 1, limit)
    case Ext(k, c) => Shallow(c, d + |k.bits|, limit)
  }

  /** Number of nodes kept in memory. */
  function Blocks(t: Tree): nat {
    match t
    case Leaf(_, _) => 0
    case Branch(freed, l, r) => (if freed then 0 else 1) + Blocks(l) + Blocks(r)
    case Ext(_, c) => 1 + Blocks(c)
  }

  // ----- the map a trie stands for

  function Lookup(t: Tree, k: seq<bool>): Option<Entry> {
    match t
    case Leaf(h, s) => if k == [] then Some(Entry(h, s)) else None
    case Branch(_, l, r) => if k == [] then None else Lookup(if k[0] then r else l, k[1..])
    case Ext(e, c) => if e.bits <= k then Lookup(c, k[|e.bits|..]) else None
  }

  predicate Comparable(a: seq<bool>, b: seq<bool>) {
    a <= b || b <= a
  }

  /** Some key of the subtrie; every subtrie has one. */
  function SomeKey(t: Tree): seq<bool> {
    match t
    case Leaf(_, _) => []
    case Branch(_, l, _) => [false] + SomeKey(l)
    case Ext(e, c) => e.bits + SomeKey(c)
  }

  lemma {:induction false} SomeKeyIsThere(t: Tree)
    ensures Lookup(t, SomeKey(t)).Some?
  {
    match t
    case Leaf(_, _) =>
    case Branch(_, l, _) =>
      SomeKeyIsThere(l);
      assert SomeKey(t)[1..] == SomeKey(l);
    case Ext(e, c) =>
      SomeKeyIsThere(c);
      assert SomeKey(t)[|e.bits|..] == SomeKey(c);
  }

  /** No key of a trie is a proper prefix of another. */
  lemma {:induction false} PrefixFree(t: Tree, a: seq<bool>, b: seq<bool>)
    requires Lookup(t, a).Some? && Lookup(t, b).Some? && a <= b
    ensures a == b
  {
    match t
    case Leaf(_, _) =>
    case Branch(_, l, r) =>
      PrefixFree(if a[0] then r else l, a[1..], b[1..]);
    case Ext(e, c) =>
      PrefixFree(c, a[|e.bits|..], b[|e.bits|..]);
      assert a == e.bits + a[|e.bits|..];
      assert b == e.bits + b[|e.bits|..];
  }

  /** Keys consist of whole bytes and are at most 8191 bytes long. */
  lemma {:induction false} KeysAreBytes(t: Tree, d: nat, k: seq<bool>)
    requires WF(t, d) && Lookup(t, k).Some?
    ensures 0 < d + |k| <= MAX_KEY_BITS && BitInByte(d + |k|) == 0
  {
    match t
    case Leaf(_, _) =>
    case Branch(_, l, r) => KeysAreBytes(if k[0] then r else l, d + 1, k[1..]);
    case Ext(e, c) => KeysAreBytes(c, d + |e.bits|, k[|e.bits|..]);
  }

  // ----- canonical tries are determined by their maps

  ghost predicate SameValues(a: Tree, b: Tree) {
    forall k :: Value(a, k) == Value(b, k)
  }

  /** The value hash at a key, whether sealed or not. */
  function Value(t: Tree, k: seq<bool>): Option<Hash> {
    match Lookup(t, k)
    case None => None
    case Some(e) => Some(e.hash)
  }

  lemma SameValuesUnder(a: Tree, b: Tree, p: seq<bool>, ca: Tree, cb: Tree)
    requires SameValues(a, b)
    requires forall k :: Lookup(a, p + k) == Lookup(ca, k)
    requires forall k :: Lookup(b, p + k) == Lookup(cb, k)
    ensures SameValues(ca, cb)
  {
    forall k ensures Value(ca, k) == Value(cb, k) {
      assert Value(a, p + k) == Value(b, p + k);
    }
  }

  lemma BranchUnder(t: Tree, bit: bool)
    requires t.Branch?
    ensures forall k :: Lookup(t, [bit] + k) == Lookup(if bit then t.right else t.left, k)
  {
    forall k ensures Lookup(t, [bit] + k) == Lookup(if bit then t.right else t.left, k) {
      assert ([bit] + k)[1..] == k;
    }
  }

  lemma ExtUnder(t: Tree)
    requires t.Ext?
    ensures forall k :: Lookup(t, t.key.bits + k) == Lookup(t.child, k)
  {
    forall k ensures Lookup(t, t.key.bits + k) == Lookup(t.child, k) {
      assert (t.key.bits + k)[|t.key.bits|..] == k;
    }
  }

  /** A Branch holds a key for either first bit. */
  lemma KeyOnSide(t: Tree, bit: bool) returns (k: seq<bool>)
    requires t.Branch?
    ensures Lookup(t, [bit] + k).Some?
  {
    k := SomeKey(if bit then t.right else t.left);
    SomeKeyIsThere(if bit then t.right else t.left);
    BranchUnder(t, bit);
  }

  lemma ExtIsNotBranch(a: Tree, b: Tree)
    requires a.Ext? && a.key.bits != [] && b.Branch?
    ensures !SameValues(a, b)
  {
    var bit := !a.key.bits[0];
    var k := KeyOnSide(b, bit);
    assert Value(b, [bit] + k).Some?;
    assert Value(a, [bit] + k).None?;
  }

  lemma LeafIsNotInner(a: Tree, b: Tree)
    requires a.Leaf? && !b.Leaf? && (b.Ext? ==> b.key.bits != [])
    ensures !SameValues(a, b)
  {
    assert Value(a, []).Some? && Value(b, []).None?;
  }

  /** In canonical tries holding the same values, an Extension cannot be shorter than its twin. */
  lemma ExtKeysAgree(a: Tree, b: Tree)
    requires a.Ext? && b.Ext? && Canonical(a) && a.key.bits != [] && b.key.bits != []
    requires SameValues(a, b)
    ensures b.key.bits <= a.key.bits
  {
    ExtUnder(a);
    if a.child.Leaf? {
      var k := a.key.bits + [];
      assert Lookup(a.child, []).Some?;
      assert Value(a, k).Some?;
      assert Value(b, k).Some?;
      assert k == a.key.bits;
    } else {
      var k0 := KeyOnSide(a.child, false);
      var k1 := KeyOnSide(a.child, true);
      var f0 := a.key.bits + ([false] + k0);
      var f1 := a.key.bits + ([true] + k1);
      assert Value(a, f0).Some? && Value(a, f1).Some?;
      assert Value(b, f0).Some? && Value(b, f1).Some?;
      assert b.key.bits <= f0 && b.key.bits <= f1;
      assert f0[|a.key.bits|] != f1[|a.key.bits|];
    }
  }

  /** Two canonical tries that hold the same values have the same hash, whatever is sealed. */
  lemma {:induction false} CanonicalIsUnique(a: Tree, b: Tree, d: nat)
    requires WF(a, d) && WF(b, d) && Canonical(a) && Canonical(b)
    requires SameValues(a, b)
    ensures Owned(a) == Owned(b)
    decreases a
  {
    match (a, b)
    case (Leaf(h, _), Leaf(g, _)) =>
      assert Value(a, []) == Value(b, []);
    case (Branch(_, al, ar), Branch(_, bl, br)) =>
      BranchUnder(a, false); BranchUnder(b, false);
      BranchUnder(a, true); BranchUnder(b, true);
      SameValuesUnder(a, b, [false], al, bl);
      SameValuesUnder(a, b, [true], ar, br);
      CanonicalIsUnique(al, bl, d + 1);
      CanonicalIsUnique(ar, br, d + 1);
      assert ContentOf(a) == ContentOf(b);
    case (Ext(ak, ac), Ext(bk, bc)) =>
      ExtKeysAgree(a, b);
      ExtKeysAgree(b, a);
      assert ak == bk;
      ExtUnder(a); ExtUnder(b);
      SameValuesUnder(a, b, ak.bits, ac, bc);
      CanonicalIsUnique(ac, bc, d + |ak.bits|);
      assert ContentOf(a) == ContentOf(b);
    case (Leaf(_, _), _) => LeafIsNotInner(a, b);
    case (_, Leaf(_, _)) => LeafIsNotInner(b, a);
    case (Ext(_, _), Branch(_, _, _)) => ExtIsNotBranch(a, b);
    case (Branch(_, _, _), Ext(_, _)) => ExtIsNotBranch(b, a);
  }
}
