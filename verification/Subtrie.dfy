/** Listing all entries below a key. */
module Subtrie {
  import opened Wrappers
  import opened Bits
  import opened Tree
  import opened Heap
  import History
  import Memory
  import Trie

  /** An entry below the key asked for.  A sealed part of the trie shows as one entry without hash, as what is
      below it is not known any more. */
  datatype SubEntry = SubEntry(isSealed: bool, subKey: seq<bool>, hash: Option<Hash>)

  // ----- what is listed

  /** All entries of a subtrie, whose keys start with `prefix`. */
  function Below(t: Tree, prefix: seq<bool>): seq<SubEntry> {
    match t
    case Leaf(h, s) => [SubEntry(s, prefix, Some(h))]
    case Branch(freed, l, r) =>
      if freed then [SubEntry(true, prefix, None)]
      else Below(l, prefix + [false]) + Below(r, prefix + [true])
    case Ext(e, c) => Below(c, prefix + e.bits)
  }

  /** The entries below a key. */
  function EntriesBelow(t: Tree, key: Slice): seq<SubEntry> {
    if key.bits == [] then Below(t, [])
    else
      match t
      case Leaf(_, _) => []
      case Branch(freed, l, r) =>
        if freed then [SubEntry(true, [], None)]
        else EntriesBelow(if key.bits[0] then r else l, key.Drop(1))
      case Ext(e, c) =>
        if key.StartsWith(e) then EntriesBelow(c, key.Drop(|e.bits|))
        else if e.StartsWith(key) then Below(c, e.bits[|key.bits|..])
        else []
  }

  function GetSubtrie(s: History.State, key: History.Key): Result<seq<SubEntry>, Error> {
    if s.Empty? then Ok([])
    else if FromBits(key).None? then Err(KeyTooLong)
    else Ok(EntriesBelow(s.tree, Slice(0, key)))
  }

  // ----- and what it means

  /** What is known of a key: the value stored there or that everything from there on is sealed. */
  function Known(t: Tree, k: seq<bool>): Option<(bool, Option<Hash>)> {
    match t
    case Leaf(h, s) => if k == [] then Some((s, Some(h))) else None
    case Branch(freed, l, r) =>
      if freed then (if k == [] then Some((true, None)) else None)
      else if k == [] then None
      else Known(if k[0] then r else l, k[1..])
    case Ext(e, c) => if e.bits <= k then Known(c, k[|e.bits|..]) else None
  }

  /** Whether the way to a key leads through a sealed part. */
  predicate SealedAbove(t: Tree, k: seq<bool>) {
    match t
    case Leaf(_, _) => false
    case Branch(freed, l, r) =>
      if freed then k != [] else k != [] && SealedAbove(if k[0] then r else l, k[1..])
    case Ext(e, c) => e.bits <= k && SealedAbove(c, k[|e.bits|..])
  }

  /** Values known are those of the trie; values not known are behind a seal. */
  lemma {:induction false} KnownOrSealed(t: Tree, k: seq<bool>)
    ensures match Lookup(t, k)
            case Some(e) => Known(t, k) == Some((e.isSealed, Some(e.hash))) || SealedAbove(t, k)
            case None => Known(t, k) == None || Known(t, k) == Some((true, None))
    ensures SealedAbove(t, k) ==>
      Known(t, k) == None && exists n :: 0 <= n < |k| && Known(t, k[..n]) == Some((true, None))
  {
    match t
    case Leaf(_, _) =>
    case Branch(freed, l, r) =>
      if freed {
        assert k[..0] == [];
      } else if k != [] {
        KnownOrSealed(if k[0] then r else l, k[1..]);
        if SealedAbove(t, k) {
          var n :| 0 <= n < |k| - 1 && Known(if k[0] then r else l, k[1..][..n]) == Some((true, None));
          assert k[..n + 1][1..] == k[1..][..n];
        }
      }
    case Ext(e, c) =>
      var m := |e.bits|;
      if e.bits <= k {
        KnownOrSealed(c, k[m..]);
        if SealedAbove(t, k) {
          var n :| 0 <= n < |k| - m && Known(c, k[m..][..n]) == Some((true, None));
          assert k[..n + m][m..] == k[m..][..n];
        }
      }
  }

  predicate Tells(known: Option<(bool, Option<Hash>)>, e: SubEntry) {
    known == Some((e.isSealed, e.hash))
  }

  lemma PrefixExact(prefix: seq<bool>, k: seq<bool>)
    ensures prefix == k <==> prefix <= k && k[|prefix|..] == []
  {
  }

  lemma {:induction false} BelowTells(t: Tree, prefix: seq<bool>, e: SubEntry)
    ensures e in Below(t, prefix) <==> prefix <= e.subKey && Tells(Known(t, e.subKey[|prefix|..]), e)
    decreases t
  {
    var k := e.subKey;
    PrefixExact(prefix, k);
    match t
    case Leaf(_, _) =>
    case Branch(freed, l, r) =>
      if !freed {
        BelowTells(l, prefix + [false], e);
        BelowTells(r, prefix + [true], e);
        ConcatPrefix(prefix, [false], k);
        ConcatPrefix(prefix, [true], k);
      }
    case Ext(x, c) =>
      BelowTells(c, prefix + x.bits, e);
      ConcatPrefix(prefix, x.bits, k);
  }

  /** The entries below a key are exactly what is known of the keys it is a prefix of; below a seal there is just
      one entry that says so. */
  lemma {:induction false} EntriesTell(t: Tree, d: nat, key: Slice, e: SubEntry)
    requires WF(t, d) && key.offset == BitInByte(d)
    ensures e in EntriesBelow(t, key) <==>
            if SealedAbove(t, key.bits) then e == SubEntry(true, [], None)
            else Tells(Known(t, key.bits + e.subKey), e)
    decreases t
  {
    hide BitInByte;
    var k := key.bits + e.subKey;
    if key.bits == [] {
      BelowTells(t, [], e);
      assert k == e.subKey == e.subKey[0..];
      NotAbove(t);
    } else {
      match t
      case Leaf(_, _) =>
      case Branch(freed, l, r) =>
        if !freed {
          BitInByteAdd(d, 1);
          EntriesTell(if key.bits[0] then r else l, d + 1, key.Drop(1), e);
          assert k[1..] == key.bits[1..] + e.subKey;
        }
      case Ext(x, c) =>
        var m := |x.bits|;
        if key.StartsWith(x) {
          BitInByteAdd(d, m);
          EntriesTell(c, d + m, key.Drop(m), e);
          assert x.bits <= k && k[m..] == key.bits[m..] + e.subKey;
        } else if x.StartsWith(key) {
          PartOfExt(x.bits, key.bits, e.subKey);
          BelowTells(c, x.bits[|key.bits|..], e);
        } else {
          Apart(x.bits, key.bits, e.subKey);
        }
    }
  }

  lemma NotAbove(t: Tree)
    ensures !SealedAbove(t, [])
    decreases t
  {
    if t.Ext? && t.key.bits == [] {
      NotAbove(t.child);
    }
  }

  lemma PartOfExt(x: seq<bool>, key: seq<bool>, sub: seq<bool>)
    requires key <= x
    ensures var rest := x[|key|..];
      (x <= key + sub <==> rest <= sub) && (rest <= sub ==> (key + sub)[|x|..] == sub[|rest|..])
  {
    var rest := x[|key|..];
    assert x == key + rest;
    if x <= key + sub {
      assert forall i | 0 <= i < |rest| :: x[|key| + i] == rest[i] && (key + sub)[|key| + i] == sub[i];
    }
    if rest <= sub {
      assert (key + sub)[..|x|] == key + sub[..|rest|];
    }
  }

  lemma Apart(x: seq<bool>, key: seq<bool>, sub: seq<bool>)
    requires !(x <= key) && !(key <= x)
    ensures !(x <= key + sub)
  {
    var n := if |x| <= |key| then |x| else |key|;
    assert x == x[..n] + x[n..] && key == key[..n] + key[n..];
    var i :| 0 <= i < n && x[i] != key[i];
    assert (key + sub)[i] == key[i];
  }

  /** Order of keys that are not prefixes of each other. */
  predicate KeyBefore(a: seq<bool>, b: seq<bool>) {
    a != [] && b != [] && if a[0] == b[0] then KeyBefore(a[1..], b[1..]) else b[0]
  }

  ghost predicate InOrder(es: seq<SubEntry>) {
    forall i, j | 0 <= i < j < |es| :: KeyBefore(es[i].subKey, es[j].subKey)
  }

  lemma {:induction false} SidesInOrder(prefix: seq<bool>, a: seq<bool>, b: seq<bool>)
    requires prefix + [false] <= a && prefix + [true] <= b
    ensures KeyBefore(a, b)
  {
    if prefix == [] {
      assert a[0] == (prefix + [false])[0] && b[0] == (prefix + [true])[0];
    } else {
      assert a[0] == (prefix + [false])[0] && b[0] == (prefix + [true])[0];
      assert (prefix + [false])[1..] == prefix[1..] + [false] && (prefix + [true])[1..] == prefix[1..] + [true];
      SidesInOrder(prefix[1..], a[1..], b[1..]);
    }
  }

  lemma {:induction false} BelowInOrder(t: Tree, prefix: seq<bool>)
    ensures InOrder(Below(t, prefix))
    decreases t
  {
    match t
    case Leaf(_, _) =>
    case Branch(freed, l, r) =>
      if !freed {
        BelowInOrder(l, prefix + [false]);
        BelowInOrder(r, prefix + [true]);
        var (a, b) := (Below(l, prefix + [false]), Below(r, prefix + [true]));
        forall i, j | 0 <= i < |a| && 0 <= j < |b|
          ensures KeyBefore(a[i].subKey, b[j].subKey)
        {
          BelowTells(l, prefix + [false], a[i]);
          BelowTells(r, prefix + [true], b[j]);
          SidesInOrder(prefix, a[i].subKey, b[j].subKey);
        }
      }
    case Ext(e, c) => BelowInOrder(c, prefix + e.bits);
  }

  /** Entries come in the order of their keys, none twice. */
  lemma {:induction false} EntriesInOrder(t: Tree, key: Slice)
    ensures InOrder(EntriesBelow(t, key))
    decreases t
  {
    if key.bits == [] {
      BelowInOrder(t, []);
    } else {
      match t
      case Leaf(_, _) =>
      case Branch(freed, l, r) =>
        if !freed {
          EntriesInOrder(if key.bits[0] then r else l, key.Drop(1));
        }
      case Ext(e, c) =>
        if key.StartsWith(e) {
          EntriesInOrder(c, key.Drop(|e.bits|));
        } else if e.StartsWith(key) {
          BelowInOrder(c, e.bits[|key.bits|..]);
        }
    }
  }

  // ----- walking the nodes

  /** A prefix that ends where a node `d` bits below the root starts. */
  predicate Meets(prefix: Slice, d: nat) {
    BitInByte(prefix.offset + |prefix.bits|) == BitInByte(d) && |prefix.bits| <= d
  }

  lemma {:induction false} NotTooDeep(t: Tree, d: nat)
    requires WF(t, d)
    ensures d <= MAX_KEY_BITS
  {
    SomeKeyIsThere(t);
    KeysAreBytes(t, d, SomeKey(t));
  }

  lemma MeetsExt(prefix: Slice, d: nat, key: Slice, c: Tree)
    requires Meets(prefix, d) && WF(Ext(key, c), d)
    ensures var longer := Concat(prefix, key);
      && longer.Some? && longer.value.bits == prefix.bits + key.bits && longer.value.offset == prefix.offset
      && Meets(longer.value, d + |key.bits|) && WF(c, d + |key.bits|)
  {
    hide BitInByte;
    NotTooDeep(c, d + |key.bits|);
    BitInByteAdd(d, |key.bits|);
    BitInByteAdd(prefix.offset + |prefix.bits|, |key.bits|);
  }

  /** The prefix of a Branch is short enough for one more bit. */
  lemma RoomForBit(prefix: Slice, d: nat, child: Tree)
    requires Meets(prefix, d) && WF(child, d + 1)
    ensures |prefix.bits| + 1 <= MAX_SLICE_LENGTH
  {
    NotTooDeep(child, d + 1);
  }

  lemma MeetsBranch(prefix: Slice, d: nat, bit: bool)
    requires Meets(prefix, d)
    ensures Meets(Slice(prefix.offset, prefix.bits + [bit]), d + 1)
  {
    hide BitInByte;
    BitInByteAdd(d, 1);
    BitInByteAdd(prefix.offset + |prefix.bits|, 1);
  }

  lemma MeetsRest(e: Slice, n: nat, d: nat)
    requires e.offset == BitInByte(d) && n <= |e.bits|
    ensures Meets(e.Drop(n), d + |e.bits|)
  {
    hide BitInByte;
    BitInByteAdd(d, n);
    BitInByteAdd(d + n, |e.bits| - n);
  }

  class Context {
    const alloc: Memory.Allocator<RawNode>
    // What has been followed since the key asked for; shared by all calls.
    var prefix: Slice
    var entries: seq<SubEntry>

    constructor (alloc: Memory.Allocator<RawNode>, prefix: Slice)
      ensures this.alloc == alloc && this.prefix == prefix && entries == []
    {
      this.alloc := alloc;
      this.prefix := prefix;
      entries := [];
    }

    /** The subtrie `p` has been reached and the prefix leads there. */
    ghost predicate At(p: Placed, d: nat, len: nat)
      reads this, alloc
    {
      && alloc.Valid() && WF(Shape(p), d) && Separate(p) && Within(NodesOf(p), alloc.Live())
      && (!RefOf(p).IsSealed() ==> Meets(prefix, d)) && len <= |prefix.bits|
    }

    /** Adds the entries of a node and its children; the prefix is cut back to `len` bits. */
    method HandleNode(nodePtr: Option<Ptr>, len: nat, ghost p: Placed, ghost d: nat)
      requires !p.PLeaf? && RefOf(p).ptr == nodePtr && At(p, d, len)
      modifies this
      ensures entries == old(entries) + Below(Shape(p), old(prefix.bits))
      ensures prefix == old(prefix).Take(len)
      decreases p, 1
    {
      hide BitInByte;
      hide Meets;
      hide Within;
      hide Memory.Allocator.Valid;
      hide Memory.Allocator.Live;
      if nodePtr.None? {
        entries := entries + [SubEntry(true, prefix.bits, None)];
        prefix := prefix.Take(len);
        return;
      }
      PartsWithin(p, alloc.Live());
      var node := alloc.Get(nodePtr.value);
      match node {
        case RawBranch(l, r) =>
          HandleBranch(l, r, len, p, d);
        case RawExt(key, child) =>
          ghost var before := prefix;
          MeetsExt(prefix, d, key, Shape(p.child));
          prefix := Concat(prefix, key).value;
          HandleRef(child, len, p.child, d + |key.bits|);
          assert prefix.bits == before.bits[..len];
      }
    }

    method HandleBranch(l: Ref, r: Ref, len: nat, ghost p: Placed, ghost d: nat)
      requires p.PBranch? && p.ptr.Some? && At(p, d, len) && l == RefOf(p.left) && r == RefOf(p.right)
      modifies this
      ensures entries == old(entries) + Below(Shape(p), old(prefix.bits))
      ensures prefix == old(prefix).Take(len)
      decreases p, 0
    {
      hide BitInByte;
      hide Meets;
      hide Within;
      hide Memory.Allocator.Valid;
      hide Memory.Allocator.Live;
      PartsWithin(p, alloc.Live());
      MeetsBranch(prefix, d, false);
      MeetsBranch(prefix, d, true);
      ghost var before := prefix;
      RoomForBit(prefix, d, Shape(p.left));
      assert |prefix.bits| + 1 <= MAX_SLICE_LENGTH;
      prefix := Slice(prefix.offset, prefix.bits + [false]);
      HandleRef(l, |prefix.bits|, p.left, d + 1);
      prefix := Slice(prefix.offset, prefix.bits[|prefix.bits| - 1 := true]);
      assert prefix.bits == before.bits + [true];
      HandleRef(r, len, p.right, d + 1);
      assert prefix.bits == before.bits[..len];
    }

    /** Adds the entries below a reference. */
    method HandleRef(r: Ref, len: nat, ghost p: Placed, ghost d: nat)
      requires r == RefOf(p) && At(p, d, len)
      modifies this
      ensures entries == old(entries) + Below(Shape(p), old(prefix.bits))
      ensures prefix == old(prefix).Take(len)
      decreases p, 2
    {
      match r {
        case NodeRef(ptr, _) => HandleNode(ptr, len, p, d);
        case ValueRef(isSealed, hash) =>
          entries := entries + [SubEntry(isSealed, prefix.bits, Some(hash))];
          prefix := prefix.Take(len);
      }
    }
  }

  // ----- finding where the key ends

  /** Where listing starts: at a node, below what its key has in excess of the one asked for; nowhere; or with a
      single value. */
  datatype Start = Root(prefix: Slice, nodePtr: Option<Ptr>) | Nowhere | Single(entry: SubEntry)

  /** What is left to list once the walk has reached `p` with the rest of the key. */
  function Left(p: Placed, key: Slice, prefix: Slice): seq<SubEntry> {
    if key.bits == [] then Below(Shape(p), prefix.bits) else EntriesBelow(Shape(p), key)
  }

  /** Where a step down leads: to a subtrie `d` bits below the root, with so much of the key and such a prefix. */
  datatype Step = Stop | To(p: Placed, d: nat, rest: Slice, prefix: Slice)

  function Down(p: Placed, d: nat, key: Slice): Step
    requires !p.PLeaf? && key.bits != []
  {
    match p
    case PBranch(_, l, r) => To(if key.bits[0] then r else l, d + 1, key.Drop(1), Slice(0, []))
    case PExt(_, e, c) =>
      if key.StartsWith(e) then To(c, d + |e.bits|, key.Drop(|e.bits|), Slice(0, []))
      else if e.StartsWith(key) then To(c, d + |e.bits|, Slice(0, []), e.Drop(|key.bits|))
      else Stop
  }

  /** What a step down has to preserve. */
  ghost predicate Kept(all: seq<SubEntry>, n: nat, to: Step) {
    match to
    case Stop => all == []
    case To(q, d, rest, prefix) =>
      && WF(Shape(q), d) && all == Left(q, rest, prefix)
      && (rest.bits != [] ==> rest.offset == BitInByte(d) && d + |rest.bits| == n && prefix == Slice(0, []))
      && (rest.bits == [] ==> Meets(prefix, d))
  }

  lemma StepKept(all: seq<SubEntry>, n: nat, q: Placed, d: nat, rest: Slice)
    requires WF(Shape(q), d) && all == Left(q, rest, Slice(0, []))
    requires rest.offset == BitInByte(d) && d + |rest.bits| == n && BitInByte(n) == 0
    ensures Kept(all, n, To(q, d, rest, Slice(0, [])))
  {
    hide WF;
    hide Left;
    hide BitInByte;
    hide Meets;
    ZeroMeets(d);
  }

  /** A step that follows `m` bits of the key. */
  lemma Followed(key: Slice, d: nat, m: nat)
    requires key.offset == BitInByte(d) && m <= |key.bits|
    ensures key.Drop(m).offset == BitInByte(d + m) && |key.Drop(m).bits| == |key.bits| - m
  {
    hide BitInByte;
    BitInByteAdd(d, m);
  }

  lemma DownKeeps(p: Placed, d: nat, key: Slice, n: nat)
    requires !p.PLeaf? && key.bits != [] && RefOf(p).ptr.Some?
    requires WF(Shape(p), d) && key.offset == BitInByte(d) && d + |key.bits| == n && BitInByte(n) == 0
    ensures Kept(EntriesBelow(Shape(p), key), n, Down(p, d, key))
    ensures Down(p, d, key).To? ==> |Down(p, d, key).rest.bits| < |key.bits|
  {
    hide BitInByte;
    hide Meets;
    hide EntriesBelow;
    hide Left;
    hide Slice.Drop;
    hide Kept;
    DownLists(p, d, key);
    var all := EntriesBelow(Shape(p), key);
    match p
    case PBranch(_, l, r) =>
      Followed(key, d, 1);
      StepKept(all, n, if key.bits[0] then r else l, d + 1, key.Drop(1));
    case PExt(_, e, c) =>
      ExtKept(all, n, e, c, d, key);
  }

  lemma ExtKept(all: seq<SubEntry>, n: nat, e: Slice, c: Placed, d: nat, key: Slice)
    requires WF(Shape(c), d + |e.bits|) && e.offset == key.offset == BitInByte(d) && 0 < |e.bits| && key.bits != []
    requires d + |key.bits| == n && BitInByte(n) == 0
    requires if key.StartsWith(e) then all == Left(c, key.Drop(|e.bits|), Slice(0, []))
             else if e.StartsWith(key) then all == Left(c, Slice(0, []), e.Drop(|key.bits|))
             else all == []
    ensures Kept(all, n,
      if key.StartsWith(e) then To(c, d + |e.bits|, key.Drop(|e.bits|), Slice(0, []))
      else if e.StartsWith(key) then To(c, d + |e.bits|, Slice(0, []), e.Drop(|key.bits|))
      else Stop)
  {
    hide BitInByte;
    hide Meets;
    hide Left;
    hide Slice.Drop;
    hide WF;
    if key.StartsWith(e) {
      Followed(key, d, |e.bits|);
      StepKept(all, n, c, d + |e.bits|, key.Drop(|e.bits|));
    } else if e.StartsWith(key) {
      MeetsRest(e, |key.bits|, d);
    }
  }

  lemma DownLists(p: Placed, d: nat, key: Slice)
    requires !p.PLeaf? && key.bits != [] && RefOf(p).ptr.Some?
    ensures match Down(p, d, key)
            case Stop => EntriesBelow(Shape(p), key) == []
            case To(q, _, rest, prefix) => EntriesBelow(Shape(p), key) == Left(q, rest, prefix)
  {
    hide BitInByte;
    hide Below;
  }

  lemma ZeroMeets(d: nat)
    ensures BitInByte(d) == 0 ==> Meets(Slice(0, []), d)
  {
  }

  method GetSubtrieRoot(alloc: Memory.Allocator<RawNode>, rootPtr: Option<Ptr>, key0: Slice, ghost root: Placed)
    returns (start: Start, ghost q: Placed, ghost d: nat)
    requires alloc.Valid() && WF(Shape(root), 0) && Separate(root) && Within(NodesOf(root), alloc.Live())
    requires !root.PLeaf? && RefOf(root).ptr == rootPtr
    requires key0.offset == 0 && BitInByte(|key0.bits|) == 0
    ensures match start
            case Root(prefix, nodePtr) =>
              && EntriesBelow(Shape(root), key0) == Below(Shape(q), prefix.bits)
              && !q.PLeaf? && RefOf(q).ptr == nodePtr
              && WF(Shape(q), d) && Separate(q) && Within(NodesOf(q), alloc.Live())
              && (nodePtr.Some? ==> Meets(prefix, d))
            case Nowhere => EntriesBelow(Shape(root), key0) == []
            case Single(e) => EntriesBelow(Shape(root), key0) == [e]
  {
    var key, nodePtr, prefix := key0, rootPtr, Slice(0, []);
    q, d := root, 0;
    ZeroMeets(0);
    hide BitInByte;
    hide Meets;
    hide Within;
    hide WF;
    hide Separate;
    hide Memory.Allocator.Valid;
    hide Memory.Allocator.Live;
    while key.bits != [] && nodePtr.Some?
      invariant !q.PLeaf? && RefOf(q).ptr == nodePtr
      invariant WF(Shape(q), d) && Separate(q) && Within(NodesOf(q), alloc.Live())
      invariant EntriesBelow(Shape(root), key0) == Left(q, key, prefix)
      invariant key.bits != [] ==> key.offset == BitInByte(d) && d + |key.bits| == |key0.bits| && prefix == Slice(0, [])
      invariant key.bits == [] ==> Meets(prefix, d)
      decreases |key.bits|
    {
      PartsWithin(q, alloc.Live());
      DownKeeps(q, d, key, |key0.bits|);
      var node := alloc.Get(nodePtr.value);
      ghost var down := Down(q, d, key);
      var child;
      match node {
        case RawBranch(l, r) =>
          child := if key.bits[0] then r else l;
          key := key.Drop(1);
        case RawExt(e, c) =>
          child := c;
          if key.StartsWith(e) {
            key := key.Drop(|e.bits|);
          } else if e.StartsWith(key) {
            prefix := e.Drop(|key.bits|);
            key := Slice(0, []);
          } else {
            return Nowhere, q, d;
          }
      }
      q, d := down.p, down.d;
      match child {
        case NodeRef(ptr, _) =>
          nodePtr := ptr;
        case ValueRef(isSealed, hash) =>
          if key.bits == [] {
            return Single(SubEntry(isSealed, prefix.bits, Some(hash))), q, d;
          } else {
            return Nowhere, q, d;
          }
      }
    }
    return Root(prefix, nodePtr), q, d;
  }

  lemma ByteKey(key: History.Key)
    ensures BitInByte(|key|) == 0
  {
  }

  /** All entries below a key. */
  method GetEntries(trie: Trie.Trie, key: History.Key) returns (r: Result<seq<SubEntry>, Error>)
    requires trie.Valid()
    ensures r == GetSubtrie(trie.State(), key)
  {
    var empty := trie.IsEmpty();
    if empty {
      return Ok([]);
    }
    if FromBits(key).None? {
      return Err(KeyTooLong);
    }
    hide BitInByte;
    hide Below;
    hide EntriesBelow;
    hide Meets;
    RootNodes(trie.root.value);
    ByteKey(key);
    var start, q, d := GetSubtrieRoot(trie.alloc, trie.rootPtr, FromBits(key).value, trie.root.value);
    match start {
      case Nowhere => return Ok([]);
      case Single(e) => return Ok([e]);
      case Root(prefix, nodePtr) =>
        var context := new Context(trie.alloc, prefix);
        context.HandleNode(nodePtr, |prefix.bits|, q, d);
        assert context.entries == Below(Shape(q), prefix.bits);
        return Ok(context.entries);
    }
  }
}
