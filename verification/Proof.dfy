/** Proofs that a key is, or is not, in a trie: how they are checked against a root hash. */
module Proof {
  import opened Wrappers
  import opened Bits
  import opened Tree
  import opened History
  import opened Commitment
  import SealSpec

  /** One node on the way from the value to the root, described by what the verifier cannot compute. */
  datatype Item = BranchItem(sibling: OwnedRef) | ExtItem(len: nat) {
    /** Number of key bits the node consumes. */
    function Width(): nat {
      match this
      case BranchItem(_) => 1
      case ExtItem(n) => n
    }

    predicate Fits(key: Slice) {
      Width() <= |key.bits| && (ExtItem? ==> key.Take(len).IsExtKey())
    }
  }

  /** The node or value met instead of the looked-up one.  The key of an Extension comes as a buffer;
      `None` stands for one that does not decode to an Extension key. */
  datatype Actual =
    | ActualBranch(left: OwnedRef, right: OwnedRef)
    | ActualExt(keyLeft: nat, key: Option<Slice>, child: OwnedRef)
    | LookupKeyLeft(keyLeft: nat, value: Hash)

  datatype Proof = Positive(items: seq<Item>) | Negative(actual: Option<Actual>, items: seq<Item>)

  // ----- checking

  /** The reference reached from `want` by climbing along all items, the last of which stands closest to
      the root.  The key is consumed from its end. */
  function Climb(want: OwnedRef, key: Slice, items: seq<Item>): Option<OwnedRef>
    requires key.offset < 8
    decreases |items|
  {
    if items == [] then
      if key.bits == [] then Some(want) else None
    else
      match ClimbContent(want, key, items)
      case None => None
      case Some(content) => Some(OwnedRef(false, NODE_DIGEST(content)))
  }

  /** The topmost node a climb goes through. */
  function ClimbContent(want: OwnedRef, key: Slice, items: seq<Item>): Option<Content>
    requires key.offset < 8 && items != []
    decreases |items|, 0
  {
    var top := items[|items| - 1];
    if !top.Fits(key) then None
    else
      match Climb(want, key.Drop(top.Width()), Lower(items)) {
        case None => None
        case Some(us) => Some(Above(top, key, us))
      }
  }

  function Lower(items: seq<Item>): (lower: seq<Item>)
    requires items != []
    ensures |lower| < |items|
  {
    items[..|items| - 1]
  }

  /** The node one item above `us`. */
  function Above(item: Item, key: Slice, us: OwnedRef): Content
    requires item.Width() <= |key.bits|
  {
    match item
    case BranchItem(sibling) => BranchNode(key.bits[0], us, sibling)
    case ExtItem(n) => ExtContent(key.Take(n), us)
  }

  function BranchNode(bit: bool, us: OwnedRef, them: OwnedRef): Content {
    if bit then BranchContent(them, us) else BranchContent(us, them)
  }

  /** What a non-membership proof has to establish instead: that at a shortened key there is the given
      node or value. */
  function GetReference(key: Slice, actual: Option<Actual>): Option<(Slice, OwnedRef)>
    requires key.offset < 8
  {
    match actual
    case None => None
    case Some(ActualBranch(l, r)) => Some((key, OwnedRef(false, NODE_DIGEST(BranchContent(l, r)))))
    case Some(ActualExt(left, ext, child)) =>
      if |key.bits| < left || ext.None? || !ext.value.IsExtKey() then None
      else if key.Drop(|key.bits| - left).StartsWith(ext.value) then None
      else Some((key.Take(|key.bits| - left), OwnedRef(false, NODE_DIGEST(ExtContent(ext.value, child)))))
    case Some(LookupKeyLeft(left, value)) =>
      if |key.bits| < left || left == 0 then None
      else Some((key.Take(|key.bits| - left), OwnedRef(true, value)))
  }

  /** Whether the proof establishes that `key` holds `value`, or nothing, under the root hash. */
  function Verify(proof: Proof, root: Hash, key: Key, value: Option<Hash>): bool {
    match (proof, value)
    case (Positive(items), Some(v)) =>
      root != EMPTY_TRIE_ROOT && FromBits(key).Some?
      && Climb(OwnedRef(true, v), Slice(0, key), items) == Some(OwnedRef(false, root))
    case (Negative(actual, items), None) =>
      root == EMPTY_TRIE_ROOT
      || (FromBits(key).Some?
          && match GetReference(Slice(0, key), actual)
             case None => false
             case Some((k, want)) => Climb(want, k, items) == Some(OwnedRef(false, root)))
    case _ => false
  }

  // ----- the verifier's loop, from the value up

  /** The node built from one item and what is left of the key below it. */
  function Parent(want: OwnedRef, key: Slice, item: Item): Option<(Slice, Content)>
    requires key.offset < 8
  {
    match item
    case BranchItem(sibling) =>
      if key.bits == [] then None
      else
        var m := |key.bits| - 1;
        Some((key.Take(m), BranchNode(key.bits[m], want, sibling)))
    case ExtItem(n) =>
      if |key.bits| < n || !key.Drop(|key.bits| - n).IsExtKey() then None
      else
        var m := |key.bits| - n;
        Some((key.Take(m), ExtContent(key.Drop(m), want)))
  }

  /** Climbing may start with the lowest item as well. */
  lemma {:induction false} ClimbFirst(want: OwnedRef, key: Slice, items: seq<Item>)
    requires key.offset < 8 && items != []
    ensures Climb(want, key, items) ==
            match Parent(want, key, items[0])
            case None => None
            case Some((k, content)) => Climb(OwnedRef(false, NODE_DIGEST(content)), k, items[1..])
    decreases |items|
  {
    hide BitInByte;
    var top := items[|items| - 1];
    if |items| == 1 {
      assert items == [top] && items[1..] == [];
      ClimbOne(want, key, top);
    } else {
      assert Lower(items)[0] == items[0];
      assert Lower(items[1..]) == Lower(items)[1..];
      assert items[1..][|items| - 2] == top;
      ClimbStep(want, key, items);
      if top.Width() <= |key.bits| {
        ClimbFirst(want, key.Drop(top.Width()), Lower(items));
        ParentBelow(want, key, items[0], top.Width());
      }
      match Parent(want, key, items[0])
      case None =>
      case Some((k, content)) =>
        ClimbStep(OwnedRef(false, NODE_DIGEST(content)), k, items[1..]);
        hide Climb;
    }
  }

  lemma ClimbStep(want: OwnedRef, key: Slice, items: seq<Item>)
    requires key.offset < 8 && items != []
    ensures var top := items[|items| - 1];
      Climb(want, key, items) ==
      if !top.Fits(key) then None
      else
        match Climb(want, key.Drop(top.Width()), Lower(items))
        case None => None
        case Some(us) => Some(OwnedRef(false, NODE_DIGEST(Above(top, key, us))))
  {
    hide BitInByte;
  }

  lemma ClimbOne(want: OwnedRef, key: Slice, item: Item)
    requires key.offset < 8
    ensures Climb(want, key, [item]) ==
            match Parent(want, key, item)
            case None => None
            case Some((k, content)) => Climb(OwnedRef(false, NODE_DIGEST(content)), k, [])
  {
    hide BitInByte;
    hide Climb;
    var n := item.Width();
    assert Lower([item]) == [];
    ClimbStep(want, key, [item]);
    if n <= |key.bits| {
      DropZero(key);
      ClimbEnd(want, key.Drop(n));
      match Parent(want, key, item)
      case None =>
      case Some((k, content)) => ClimbEnd(OwnedRef(false, NODE_DIGEST(content)), k);
    }
  }

  lemma ParentBelow(want: OwnedRef, key: Slice, item: Item, n: nat)
    requires key.offset < 8 && n <= |key.bits|
    ensures match (Parent(want, key, item), Parent(want, key.Drop(n), item))
            case (Some((k, c)), Some((k', c'))) =>
              n <= |k.bits| && k' == k.Drop(n) && c' == c && k.Take(n) == key.Take(n)
              && k.offset == key.offset
            case (Some((k, _)), None) => |k.bits| < n
            case (None, Some(_)) => false
            case (None, None) => true
  {
    hide BitInByte;
    var m := if item.BranchItem? then 1 else item.len;
    if m + n <= |key.bits| {
      DropTwice(key, n, |key.bits| - m);
      DropTake(key, n, |key.bits| - m);
    }
  }

  method VerifyImpl(root: Hash, key0: Slice, want0: OwnedRef, items: seq<Item>) returns (ok: bool)
    requires key0.offset < 8
    ensures ok <==> Climb(want0, key0, items) == Some(OwnedRef(false, root))
  {
    hide BitInByte;
    hide Climb;
    var key, want := key0, want0;
    assert items[0..] == items;
    for i := 0 to |items|
      invariant key.offset < 8
      invariant Climb(want0, key0, items) == Climb(want, key, items[i..])
    {
      ClimbFirst(want, key, items[i..]);
      assert items[i..][1..] == items[i + 1..];
      var node: Content;
      match items[i] {
        case BranchItem(sibling) =>
          if key.bits == [] {
            return false;
          }
          var bit := key.bits[|key.bits| - 1];
          key := key.Take(|key.bits| - 1);
          node := if bit then BranchContent(sibling, want) else BranchContent(want, sibling);
        case ExtItem(length) =>
          if |key.bits| < length {
            return false;
          }
          var suffix := key.Drop(|key.bits| - length);
          if !suffix.IsExtKey() {
            return false;
          }
          key := key.Take(|key.bits| - length);
          node := ExtContent(suffix, want);
      }
      want := OwnedRef(false, NODE_DIGEST(node));
    }
    assert items[|items|..] == [];
    ClimbEnd(want, key);
    return key.bits == [] && !want.isValue && root == want.hash;
  }

  // ----- one root, one answer

  /** Everything hashed during a climb. */
  ghost function Climbed(want: OwnedRef, key: Slice, items: seq<Item>): set<Content>
    requires key.offset < 8
    decreases |items|
  {
    if items == [] then {}
    else
      var n := items[|items| - 1].Width();
      (match ClimbContent(want, key, items) case Some(c) => {c} case None => {})
      + if n <= |key.bits| then Climbed(want, key.Drop(n), Lower(items)) else {}
  }

  /** Number of key bits a node consumes. */
  function Width(c: Content): nat {
    match c
    case BranchContent(_, _) => 1
    case ExtContent(k, _) => |k.bits|
  }

  /** The child of a node the key continues to. */
  function Down(c: Content, bit: bool): OwnedRef {
    match c
    case BranchContent(l, r) => if bit then r else l
    case ExtContent(_, child) => child
  }

  /** Taking the topmost item off a climb. */
  lemma ClimbTop(want: OwnedRef, key: Slice, items: seq<Item>) returns (c: Content)
    requires key.offset < 8 && items != [] && Climb(want, key, items).Some?
    ensures ClimbContent(want, key, items) == Some(c)
    ensures Climb(want, key, items) == Some(OwnedRef(false, NODE_DIGEST(c)))
    ensures 0 < Width(c) <= |key.bits|
    ensures c.ExtContent? ==> c.key == key.Take(Width(c))
    ensures Climb(want, key.Drop(Width(c)), Lower(items)) == Some(Down(c, key.bits[0]))
    ensures Climbed(want, key, items) ==
            {c} + Climbed(want, key.Drop(Width(c)), Lower(items))
  {
    hide BitInByte;
    c := ClimbContent(want, key, items).value;
  }

  /** Two climbs to the same reference go through the same topmost node. */
  lemma TopsAgree(a: OwnedRef, ka: Slice, itemsA: seq<Item>, b: OwnedRef, kb: Slice, itemsB: seq<Item>)
    returns (n: nat)
    requires ka.offset == kb.offset < 8 && ka.bits <= kb.bits && itemsA != []
    requires Climb(a, ka, itemsA).Some? && Climb(a, ka, itemsA) == Climb(b, kb, itemsB)
    requires NoCollision(Climbed(a, ka, itemsA) + Climbed(b, kb, itemsB))
    ensures itemsB != [] && n <= |ka.bits|
    ensures ka.Drop(n).offset == kb.Drop(n).offset && ka.Drop(n).bits <= kb.Drop(n).bits
    ensures Climb(a, ka.Drop(n), Lower(itemsA)).Some?
    ensures Climb(a, ka.Drop(n), Lower(itemsA)) == Climb(b, kb.Drop(n), Lower(itemsB))
    ensures Climbed(a, ka.Drop(n), Lower(itemsA)) <= Climbed(a, ka, itemsA)
    ensures Climbed(b, kb.Drop(n), Lower(itemsB)) <= Climbed(b, kb, itemsB)
  {
    hide BitInByte;
    hide Climb;
    hide Climbed;
    hide NoCollision;
    var ca := ClimbTop(a, ka, itemsA);
    if itemsB == [] {
      ClimbEnd(b, kb);
      assert false;
    }
    var cb := ClimbTop(b, kb, itemsB);
    SameContent(Climbed(a, ka, itemsA) + Climbed(b, kb, itemsB), ca, cb);
    n := Width(ca);
    assert ka.bits[0] == kb.bits[0];
  }

  /** Two climbs to the same reference agree as long as their keys do: the longer one passes through the
      start of the shorter one.  Returns how many items lie below that point. */
  lemma {:induction false} ClimbsAgree(
      a: OwnedRef, ka: Slice, itemsA: seq<Item>, b: OwnedRef, kb: Slice, itemsB: seq<Item>)
    returns (m: nat)
    requires ka.offset == kb.offset < 8 && ka.bits <= kb.bits
    requires Climb(a, ka, itemsA).Some? && Climb(a, ka, itemsA) == Climb(b, kb, itemsB)
    requires NoCollision(Climbed(a, ka, itemsA) + Climbed(b, kb, itemsB))
    ensures m <= |itemsB|
    ensures Climb(b, kb.Drop(|ka.bits|), itemsB[..m]) == Some(a)
    ensures Climbed(b, kb.Drop(|ka.bits|), itemsB[..m]) <= Climbed(b, kb, itemsB)
    decreases |itemsA|
  {
    hide BitInByte;
    hide Climb;
    hide Climbed;
    hide NoCollision;
    hide Slice.Drop;
    if itemsA == [] {
      m := |itemsB|;
      ClimbEnd(a, ka);
      DropZero(kb);
      assert itemsB[..m] == itemsB;
    } else {
      var n := TopsAgree(a, ka, itemsA, b, kb, itemsB);
      FewerCollisions(Climbed(a, ka.Drop(n), Lower(itemsA)) + Climbed(b, kb.Drop(n), Lower(itemsB)),
                      Climbed(a, ka, itemsA) + Climbed(b, kb, itemsB));
      m := ClimbsAgree(a, ka.Drop(n), Lower(itemsA), b, kb.Drop(n), Lower(itemsB));
      assert Lower(itemsB)[..m] == itemsB[..m];
      DropTwice(kb, n, |ka.bits|);
    }
  }

  lemma ClimbEnd(want: OwnedRef, key: Slice)
    requires key.offset < 8
    ensures Climb(want, key, []) == if key.bits == [] then Some(want) else None
  {
  }

  ghost function ActualContents(actual: Option<Actual>): set<Content> {
    match actual
    case Some(ActualBranch(l, r)) => {BranchContent(l, r)}
    case Some(ActualExt(_, Some(e), c)) => {ExtContent(e, c)}
    case _ => {}
  }

  /** Everything hashed when a proof is checked. */
  ghost function Hashed(proof: Proof, key: Key, value: Option<Hash>): set<Content> {
    match (proof, value)
    case (Positive(items), Some(v)) => Climbed(OwnedRef(true, v), Slice(0, key), items)
    case (Negative(actual, items), None) =>
      ActualContents(actual)
      + (match GetReference(Slice(0, key), actual)
         case Some((k, want)) => Climbed(want, k, items)
         case None => {})
    case _ => {}
  }

  /** A value below the point a non-membership proof talks about contradicts it. */
  lemma {:induction false} NoValueBelow(key: Slice, actual: Option<Actual>, v: Hash, items: seq<Item>)
    requires key.offset < 8 && GetReference(key, actual).Some?
    requires var (k, want) := GetReference(key, actual).value;
      NoCollision(ActualContents(actual) + Climbed(OwnedRef(true, v), key.Drop(|k.bits|), items))
    ensures var (k, want) := GetReference(key, actual).value;
      Climb(OwnedRef(true, v), key.Drop(|k.bits|), items) != Some(want)
  {
    hide BitInByte;
    var (k, want) := GetReference(key, actual).value;
    var rest := key.Drop(|k.bits|);
    if items != [] && Climb(OwnedRef(true, v), rest, items) == Some(want) {
      var c := ClimbTop(OwnedRef(true, v), rest, items);
    }
  }

  /** Whatever the root hash, a key cannot be proved to hold two values, nor both a value and nothing. */
  lemma {:induction false} OneAnswer(root: Hash, key: Key, v: Hash, p: Proof, other: Option<Hash>, q: Proof)
    requires Verify(p, root, key, Some(v)) && Verify(q, root, key, other)
    requires NoCollision(Hashed(p, key, Some(v)) + Hashed(q, key, other))
    ensures other == Some(v)
  {
    hide BitInByte;
    var slice := Slice(0, key);
    var us := OwnedRef(true, v);
    if other.Some? {
      var m := ClimbsAgree(OwnedRef(true, other.value), slice, q.items, us, slice, p.items);
    } else {
      var (k, want) := GetReference(slice, q.actual).value;
      var m := ClimbsAgree(want, k, q.items, us, slice, p.items);
      NoValueBelow(slice, q.actual, v, p.items[..m]);
    }
  }

  // ----- soundness against a trie

  /** The subtrie that starts exactly at `key`. */
  function Reach(t: Tree, key: Slice): Option<Tree>
    decreases t
  {
    if key.bits == [] then Some(t)
    else
      match t
      case Leaf(_, _) => None
      case Branch(_, l, r) => Reach(if key.bits[0] then r else l, key.Drop(1))
      case Ext(e, c) => if key.StartsWith(e) then Reach(c, key.Drop(|e.bits|)) else None
  }

  /** One step towards a subtrie. */
  lemma {:induction false} ReachStep(t: Tree, key: Slice, n: nat) returns (c: Tree, m: nat)
    requires key.offset < 8 && 0 < n <= |key.bits| && Reach(t, key.Take(n)).Some?
    ensures match t
      case Leaf(_, _) => false
      case Branch(_, l, r) => m == 1 && c == if key.bits[0] then r else l
      case Ext(e, child) => m == |e.bits| && c == child
    ensures m <= n && Reach(c, key.Drop(m).Take(n - m)) == Reach(t, key.Take(n))
    ensures Lookup(t, key.bits) == Lookup(c, key.bits[m..])
  {
    hide BitInByte;
    match t
    case Branch(_, l, r) =>
      c, m := if key.bits[0] then r else l, 1;
      DropTake(key, 1, n);
    case Ext(e, child) =>
      c, m := child, |e.bits|;
      assert e.bits <= key.bits[..n] && e.bits <= key.bits;
      DropTake(key, m, n);
  }

  lemma {:induction false} ReachLookup(t: Tree, d: nat, key: Slice, n: nat)
    requires WF(t, d) && key.offset == BitInByte(d) && n <= |key.bits|
    requires Reach(t, key.Take(n)).Some?
    ensures var s := Reach(t, key.Take(n)).value;
      WF(s, d + n) && Lookup(t, key.bits) == Lookup(s, key.bits[n..])
    decreases t
  {
    hide BitInByte;
    hide Lookup;
    if n == 0 {
      assert key.bits[0..] == key.bits;
    } else {
      var c, m := ReachStep(t, key, n);
      BitInByteAdd(d, m);
      ReachLookup(c, d + m, key.Drop(m), n - m);
      assert key.bits[m..][n - m..] == key.bits[n..];
    }
  }

  /** A climb that ends at the hash of a trie started at a subtrie of it. */
  lemma {:induction false} ClimbIsReach(t: Tree, d: nat, want: OwnedRef, key: Slice, items: seq<Item>)
    requires WF(t, d) && key.offset == BitInByte(d)
    requires Climb(want, key, items) == Some(Owned(t))
    requires NoCollision(Contents(t) + Climbed(want, key, items))
    ensures Reach(t, key).Some? && Owned(Reach(t, key).value) == want
    ensures Contents(Reach(t, key).value) <= Contents(t)
    decreases |items|
  {
    hide BitInByte;
    hide Climb;
    hide Climbed;
    hide NoCollision;
    if items == [] {
      ClimbEnd(want, key);
    } else {
      var c := ClimbTop(want, key, items);
      var all := Contents(t) + Climbed(want, key, items);
      assert ContentOf(t) in Contents(t);
      SameContent(all, c, ContentOf(t));
      var lower := Lower(items);
      var n := Width(c);
      BitInByteAdd(d, n);
      var child := if t.Ext? then t.child else if key.bits[0] then t.right else t.left;
      assert Owned(child) == Down(c, key.bits[0]);
      FewerCollisions(Contents(child) + Climbed(want, key.Drop(n), lower), all);
      ClimbIsReach(child, d + n, want, key.Drop(n), lower);
    }
  }

  lemma {:induction false} SoundMember(t: Tree, key: Key, v: Hash, items: seq<Item>)
    requires WF(t, 0)
    requires Climb(OwnedRef(true, v), Slice(0, key), items) == Some(Owned(t))
    requires NoCollision(Contents(t) + Climbed(OwnedRef(true, v), Slice(0, key), items))
    ensures Value(t, key) == Some(v)
  {
    hide Climb;
    hide Climbed;
    var slice := Slice(0, key);
    ClimbIsReach(t, 0, OwnedRef(true, v), slice, items);
    DropZero(slice);
    ReachLookup(t, 0, slice, |key|);
  }

  lemma {:induction false} SoundAbsent(t: Tree, key: Key, actual: Option<Actual>, items: seq<Item>)
    requires WF(t, 0) && GetReference(Slice(0, key), actual).Some?
    requires var (k, want) := GetReference(Slice(0, key), actual).value;
      && Climb(want, k, items) == Some(Owned(t))
      && NoCollision(Contents(t) + ActualContents(actual) + Climbed(want, k, items))
    ensures Value(t, key) == None
  {
    hide Climb;
    hide Climbed;
    hide BitInByte;
    hide NoCollision;
    var slice := Slice(0, key);
    var (k, want) := GetReference(slice, actual).value;
    var all := Contents(t) + ActualContents(actual) + Climbed(want, k, items);
    FewerCollisions(Contents(t) + Climbed(want, k, items), all);
    ClimbIsReach(t, 0, want, k, items);
    assert slice.Take(|k.bits|) == k;
    ReachLookup(t, 0, slice, |k.bits|);
    NothingAt(Reach(t, k).value, slice, actual, all);
  }

  /** A subtrie whose reference is the one a non-membership proof establishes has no value where the key ends. */
  lemma NothingAt(sub: Tree, key: Slice, actual: Option<Actual>, all: set<Content>)
    requires key.offset < 8 && GetReference(key, actual).Some? && NoCollision(all)
    requires Contents(sub) + ActualContents(actual) <= all
    requires var (k, want) := GetReference(key, actual).value;
      && want == Owned(sub) && k == key.Take(|k.bits|) && k.offset == key.offset
      && (sub.Ext? ==> sub.key.offset == key.Drop(|k.bits|).offset)
    ensures Lookup(sub, key.bits[|GetReference(key, actual).value.0.bits|..]) == None
  {
    hide BitInByte;
    hide NoCollision;
    if !sub.Leaf? {
      assert ContentOf(sub) in Contents(sub);
      match actual.value
      case ActualBranch(l, r) => SameContent(all, ContentOf(sub), BranchContent(l, r));
      case ActualExt(_, e, c) => SameContent(all, ContentOf(sub), ExtContent(e.value, c));
      case LookupKeyLeft(_, _) =>
    }
  }

  /** The verifier accepts only what the map says. */
  lemma {:induction false} Sound(s: State, key: Key, value: Option<Hash>, proof: Proof)
    requires Inv(s) && Verify(proof, RootHash(s), key, value)
    requires NoCollision(ContentsOf(s) + Hashed(proof, key, value))
    ensures ValueAt(s, key) == value
  {
    hide Climb;
    hide Climbed;
    if s.Root? {
      assert Owned(s.tree) == OwnedRef(false, RootHash(s));
      if value.Some? {
        SoundMember(s.tree, key, value.value, proof.items);
      } else {
        SoundAbsent(s.tree, key, proof.actual, proof.items);
      }
    }
  }

  // ----- completeness

  datatype Answer = Answer(value: Option<Hash>, actual: Option<Actual>, items: seq<Item>)

  /** The answer to a lookup together with the items that prove it, the lowest first. */
  function ProveTree(t: Tree, key: Slice): Result<Answer, Error> {
    match t
    case Leaf(h, isSealed) =>
      if isSealed then Err(Sealed)
      else if key.bits == [] then Ok(Answer(Some(h), None, []))
      else Ok(Answer(None, Some(LookupKeyLeft(|key.bits|, h)), []))
    case Branch(freed, l, r) =>
      if freed then Err(Sealed)
      else if key.bits == [] then Ok(Answer(None, Some(ActualBranch(Owned(l), Owned(r))), []))
      else
        var a :- ProveTree(if key.bits[0] then r else l, key.Drop(1));
        Ok(a.(items := a.items + [BranchItem(Owned(if key.bits[0] then l else r))]))
    case Ext(e, c) =>
      if key.StartsWith(e) then
        var a :- ProveTree(c, key.Drop(|e.bits|));
        Ok(a.(items := a.items + [ExtItem(|e.bits|)]))
      else Ok(Answer(None, Some(ActualExt(|key.bits|, Some(e), Owned(c))), []))
  }

  function ProofOf(a: Answer): Proof {
    if a.value.Some? then Positive(a.items) else Negative(a.actual, a.items)
  }

  function Prove(s: State, key: Key): Result<(Option<Hash>, Proof), Error> {
    if FromBits(key).None? then Err(KeyTooLong)
    else if s.Empty? then Ok((None, Negative(None, [])))
    else
      var a :- ProveTree(s.tree, Slice(0, key));
      Ok((a.value, ProofOf(a)))
  }

  /** The climb a verifier makes for an answer about `key`. */
  function AnswerClimb(a: Answer, key: Slice): Option<OwnedRef>
    requires key.offset < 8
  {
    match a.value
    case Some(v) => Climb(OwnedRef(true, v), key, a.items)
    case None =>
      match GetReference(key, a.actual)
      case None => None
      case Some((k, want)) => Climb(want, k, a.items)
  }

  lemma {:induction false} ProveTreeClimbs(t: Tree, d: nat, key: Slice)
    requires WF(t, d) && key.offset == BitInByte(d)
    requires ProveTree(t, key).Ok?
    ensures AnswerClimb(ProveTree(t, key).value, key) == Some(Owned(t))
  {
    hide BitInByte;
    match t
    case Leaf(_, _) =>
      assert key.Take(0).bits == [];
    case Branch(_, l, r) =>
      assert ContentOf(t) == BranchContent(Owned(l), Owned(r));
      if key.bits != [] {
        BitInByteAdd(d, 1);
        var side := if key.bits[0] then r else l;
        ProveTreeClimbs(side, d + 1, key.Drop(1));
        ExtendClimb(ProveTree(side, key.Drop(1)).value, key, BranchItem(Owned(if key.bits[0] then l else r)));
      }
    case Ext(e, c) =>
      assert ContentOf(t) == ExtContent(e, Owned(c));
      if key.StartsWith(e) {
        BitInByteAdd(d, |e.bits|);
        ProveTreeClimbs(c, d + |e.bits|, key.Drop(|e.bits|));
        assert key.Take(|e.bits|) == e;
        ExtendClimb(ProveTree(c, key.Drop(|e.bits|)).value, key, ExtItem(|e.bits|));
      } else {
        DropZero(key);
        assert key.Drop(|key.bits| - |key.bits|) == key;
      }
  }

  lemma ClimbExtended(want: OwnedRef, key: Slice, items: seq<Item>, item: Item)
    requires key.offset < 8 && item.Fits(key)
    requires Climb(want, key.Drop(item.Width()), items).Some?
    ensures Climb(want, key, items + [item]) ==
            Some(OwnedRef(false, NODE_DIGEST(Above(item, key, Climb(want, key.Drop(item.Width()), items).value))))
  {
    hide BitInByte;
    assert Lower(items + [item]) == items;
  }

  lemma ExtendClimb(a: Answer, key: Slice, item: Item)
    requires key.offset < 8 && item.Fits(key)
    requires AnswerClimb(a, key.Drop(item.Width())).Some?
    ensures AnswerClimb(a.(items := a.items + [item]), key) ==
            Some(OwnedRef(false, NODE_DIGEST(Above(item, key, AnswerClimb(a, key.Drop(item.Width())).value))))
  {
    hide BitInByte;
    hide Climb;
    if a.value.Some? {
      ClimbExtended(OwnedRef(true, a.value.value), key, a.items, item);
    } else {
      var n := item.Width();
      ReferenceAbove(a.actual, key, n);
      var (k, want) := GetReference(key, a.actual).value;
      assert n > 0 ==> k.bits[0] == k.Take(n).bits[0] && key.bits[0] == key.Take(n).bits[0];
      ClimbExtended(want, k, a.items, item);
    }
  }

  lemma ReferenceAbove(actual: Option<Actual>, key: Slice, n: nat)
    requires key.offset < 8 && n <= |key.bits|
    requires GetReference(key.Drop(n), actual).Some?
    ensures GetReference(key, actual).Some?
    ensures var (k', want') := GetReference(key.Drop(n), actual).value;
      var (k, want) := GetReference(key, actual).value;
      want == want' && n <= |k.bits| && k.Drop(n) == k' && k.Take(n) == key.Take(n) && k.offset == key.offset
  {
    hide BitInByte;
    match actual.value
    case ActualBranch(_, _) =>
    case _ =>
      var m := actual.value.keyLeft;
      DropTwice(key, n, |key.bits| - m);
      DropTake(key, n, |key.bits| - m);
  }

  /** Every proof the trie hands out is accepted, and its answer is the one retrieval gives. */
  lemma {:induction false} Complete(s: State, key: Key)
    requires Inv(s) && Prove(s, key).Ok?
    ensures var (value, proof) := Prove(s, key).value;
      Verify(proof, RootHash(s), key, value) && Get(s, key) == Ok(value)
  {
    if s.Root? {
      assert !s.tree.Leaf?;
      ProveTreeClimbs(s.tree, 0, Slice(0, key));
      ProveIsGet(s.tree, Slice(0, key));
    }
  }

  lemma {:induction false} ProveIsGet(t: Tree, key: Slice)
    ensures match ProveTree(t, key)
            case Ok(a) => SealSpec.GetTree(t, key) == Ok(a.value) && (a.value.None? ==> a.actual.Some?)
            case Err(e) => SealSpec.GetTree(t, key) == Err(e)
  {
    match t
    case Leaf(_, _) =>
    case Branch(_, l, r) =>
      if key.bits != [] {
        ProveIsGet(if key.bits[0] then r else l, key.Drop(1));
      }
    case Ext(e, c) =>
      if key.StartsWith(e) {
        ProveIsGet(c, key.Drop(|e.bits|));
      }
  }
}
