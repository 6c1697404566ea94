/** Deletion on trie values: how Extensions merge, and what it means for the map. */
module DelSpec {
  import opened Wrappers
  import opened Bits
  import opened Tree
  import opened SetSpec

  /** What is left of a subtrie once a key below it is gone.  An `ActExt` is not a node yet: it may
      still merge with Extensions above it. */
  datatype Action = ActDrop | ActExt(key: Slice, child: Tree) | ActRef(tree: Tree)

  /** Turns the outcome into a subtrie; `None` when nothing is left. */
  function Resolve(a: Action): Option<Tree>
    requires a.ActExt? ==> a.key.offset < 8
  {
    match a
    case ActDrop => None
    case ActExt(k, c) => Some(Chain(k, c))
    case ActRef(t) => Some(t)
  }

  function DelTree(t: Tree, key: Slice): (r: Result<Action, Error>)
    requires key.offset < 8
    ensures r.Ok? && r.value.ActExt? ==> r.value.key.offset < 8
  {
    match t
    case Leaf(_, isSealed) =>
      if isSealed then Err(Sealed) else if key.bits == [] then Ok(ActDrop) else Err(NotFound)
    case Branch(freed, l, r) =>
      if freed then Err(Sealed)
      else if key.bits == [] then Err(NotFound)
      else if key.bits[0] then
        var action :- DelTree(r, key.Drop(1));
        match Resolve(action) {
          case Some(c) => Ok(ActRef(Branch(false, l, c)))
          case None => Collapse(false, l, key.offset)
        }
      else
        var action :- DelTree(l, key.Drop(1));
        match Resolve(action) {
          case Some(c) => Ok(ActRef(Branch(false, c, r)))
          case None => Collapse(true, r, key.offset)
        }
    case Ext(e, c) =>
      if !key.StartsWith(e) then Err(NotFound)
      else
        var action :- DelTree(c, key.Drop(|e.bits|));
        match action {
          case ActDrop => Ok(ActDrop)
          case ActRef(c') => Ok(ActExt(e, c'))
          case ActExt(s, c') =>
            match Concat(e, s) {
              case Some(k) => Ok(ActExt(k, c'))
              case None => Err(Panic)
            }
        }
  }

  /** A Branch that lost one child becomes an Extension over the other one's bit; when that child is
      itself an Extension the two merge. */
  function Collapse(bit: bool, child: Tree, offset: nat): (r: Result<Action, Error>)
    requires offset < 8
    ensures r.Ok? && r.value.ActExt? ==> r.value.key.offset < 8
  {
    if child.Ext? then
      match ConcatBit(bit, child.key) {
        case Some(k) => Ok(ActExt(k, child.child))
        case None => Err(Panic)
      }
    else Ok(ActExt(Slice(offset, [bit]), child))
  }

  function ActionLookup(a: Action, k: seq<bool>): Option<Entry> {
    match a
    case ActDrop => None
    case ActExt(e, c) => if e.bits <= k then Lookup(c, k[|e.bits|..]) else None
    case ActRef(t) => Lookup(t, k)
  }

  predicate ActionWF(a: Action, d: nat) {
    match a
    case ActDrop => true
    case ActExt(k, c) => k.offset == BitInByte(d) && k.bits != [] && WF(c, d + |k.bits|)
    case ActRef(t) => WF(t, d) && t.Branch? && !t.freed
  }

  predicate ActionCanonical(a: Action) {
    match a
    case ActDrop => true
    case ActExt(_, c) => !c.Ext? && Canonical(c)
    case ActRef(t) => Canonical(t)
  }

  predicate ActionShallow(a: Action, d: nat, limit: nat) {
    match a
    case ActDrop => true
    case ActExt(k, c) => Shallow(c, d + |k.bits|, limit)
    case ActRef(t) => Shallow(t, d, limit)
  }

  lemma {:induction false} DepthBound(t: Tree, d: nat, limit: nat)
    requires WF(t, d)
    ensures d <= MAX_KEY_BITS
    ensures Shallow(t, d, limit) ==> d <= limit
  {
    hide BitInByte;
    match t
    case Leaf(_, _) =>
    case Branch(_, l, _) => DepthBound(l, d + 1, limit);
    case Ext(e, c) => DepthBound(c, d + |e.bits|, limit);
  }

  lemma BitBefore(d: nat)
    ensures BitInByte(BitInByte(d + 1) + 7) == BitInByte(d)
  {
  }

  lemma CollapseShape(bit: bool, child: Tree, d: nat, limit: nat)
    requires WF(child, d + 1)
    ensures var r := Collapse(bit, child, BitInByte(d));
      && r.Ok? && r.value.ActExt? && ActionWF(r.value, d)
      && (Canonical(child) ==> ActionCanonical(r.value))
      && (Shallow(child, d + 1, limit) ==> ActionShallow(r.value, d, limit))
  {
    BitBefore(d);
    hide BitInByte;
    if child.Ext? {
      DepthBound(child.child, d + 1 + |child.key.bits|, limit);
    }
  }

  lemma ResolveShape(a: Action, d: nat, limit: nat)
    requires ActionWF(a, d)
    ensures var r := Resolve(a);
      r.Some? ==>
        && WF(r.value, d) && !IsSealed(r.value) && !r.value.Leaf?
        && (ActionShallow(a, d, limit) ==> Shallow(r.value, d, limit))
        && (ActionCanonical(a) && ActionShallow(a, d, MAX_EXTENSION_KEY_BITS) ==> Canonical(r.value))
  {
    hide BitInByte;
    hide Chain;
    if a.ActExt? {
      ChainShape(a.key, a.child, d, limit);
      DepthBound(a.child, d + |a.key.bits|, MAX_EXTENSION_KEY_BITS);
    }
  }

  /** Deletion cannot panic and keeps well-formedness and, while keys are short, canonical shape. */
  lemma {:induction false} DelShape(t: Tree, d: nat, key: Slice, limit: nat)
    requires WF(t, d) && key.offset == BitInByte(d)
    ensures DelTree(t, key).Ok? || DelTree(t, key).error == Sealed || DelTree(t, key).error == NotFound
    ensures DelTree(t, key).Ok? ==>
      var a := DelTree(t, key).value;
      && ActionWF(a, d)
      && (Shallow(t, d, limit) ==> ActionShallow(a, d, limit))
      && (Canonical(t) && Shallow(t, d, MAX_EXTENSION_KEY_BITS) ==> ActionCanonical(a))
  {
    hide BitInByte;
    hide Resolve;
    hide Collapse;
    match t
    case Leaf(_, _) =>
    case Branch(freed, l, r) =>
      if !freed && key.bits != [] {
        BitInByteAdd(d, 1);
        var side := if key.bits[0] then r else l;
        DelShape(side, d + 1, key.Drop(1), limit);
        DelShape(side, d + 1, key.Drop(1), MAX_EXTENSION_KEY_BITS);
        CollapseShape(!key.bits[0], if key.bits[0] then l else r, d, limit);
        var action := DelTree(side, key.Drop(1));
        if action.Ok? {
          ResolveShape(action.value, d + 1, limit);
        }
      }
    case Ext(e, c) =>
      if key.StartsWith(e) {
        BitInByteAdd(d, |e.bits|);
        DelShape(c, d + |e.bits|, key.Drop(|e.bits|), limit);
        var action := DelTree(c, key.Drop(|e.bits|));
        if action.Ok? && action.value.ActExt? {
          DepthBound(action.value.child, d + |e.bits| + |action.value.key.bits|, limit);
        }
      }
  }

  lemma {:induction false} CollapseLookup(bit: bool, child: Tree, offset: nat, k: seq<bool>)
    requires offset < 8 && Collapse(bit, child, offset).Ok?
    ensures ActionLookup(Collapse(bit, child, offset).value, k) ==
            if k != [] && k[0] == bit then Lookup(child, k[1..]) else None
  {
    hide BitInByte;
    if k != [] {
      assert k == [k[0]] + k[1..];
      if child.Ext? {
        assert [bit] + child.key.bits <= k <==> k[0] == bit && child.key.bits <= k[1..];
        if [bit] + child.key.bits <= k {
          assert k[1..][|child.key.bits|..] == k[|child.key.bits| + 1..];
        }
      }
    }
  }

  lemma ResolveLookup(a: Action, k: seq<bool>)
    requires a.ActExt? ==> a.key.offset < 8
    ensures ActionLookup(a, k) == if Resolve(a).Some? then Lookup(Resolve(a).value, k) else None
  {
    if a.ActExt? {
      ChainLookup(a.key, a.child, k);
    }
  }

  /** Deletion removes exactly one key from the map. */
  lemma {:induction false} DelLookup(t: Tree, d: nat, key: Slice, k: seq<bool>)
    requires WF(t, d) && key.offset == BitInByte(d)
    requires DelTree(t, key).Ok?
    ensures ActionLookup(DelTree(t, key).value, k) == if k == key.bits then None else Lookup(t, k)
  {
    hide BitInByte;
    hide Resolve;
    hide Collapse;
    match t
    case Leaf(_, _) =>
    case Branch(_, l, r) =>
      BitInByteAdd(d, 1);
      var bit := key.bits[0];
      var side := if bit then r else l;
      var action := DelTree(side, key.Drop(1)).value;
      assert key.bits == [bit] + key.bits[1..];
      if k != [] && k[0] == bit {
        assert k == [bit] + k[1..];
        DelLookup(side, d + 1, key.Drop(1), k[1..]);
        ResolveLookup(action, k[1..]);
      }
      if Resolve(action).None? {
        CollapseLookup(!bit, if bit then l else r, key.offset, k);
      }
    case Ext(e, c) =>
      BitInByteAdd(d, |e.bits|);
      assert key.bits == e.bits + key.bits[|e.bits|..];
      if e.bits <= k {
        assert k == e.bits + k[|e.bits|..];
        DelLookup(c, d + |e.bits|, key.Drop(|e.bits|), k[|e.bits|..]);
      }
      var action := DelTree(c, key.Drop(|e.bits|)).value;
      if action.ActExt? {
        ConcatPrefix(e.bits, action.key.bits, k);
      }
  }

  /** Deletion succeeds exactly on unsealed entries; on a sealed entry it reports the seal. */
  lemma {:induction false} DelOutcome(t: Tree, d: nat, key: Slice)
    requires WF(t, d) && key.offset == BitInByte(d)
    ensures DelTree(t, key).Ok? <==> Lookup(t, key.bits).Some? && !Lookup(t, key.bits).value.isSealed
    ensures Lookup(t, key.bits).Some? && Lookup(t, key.bits).value.isSealed ==> DelTree(t, key) == Err(Sealed)
  {
    hide BitInByte;
    hide Resolve;
    hide Collapse;
    DelShape(t, d, key, 0);
    match t
    case Leaf(_, _) =>
    case Branch(freed, l, r) =>
      if key.bits != [] {
        BitInByteAdd(d, 1);
        var side := if key.bits[0] then r else l;
        DelOutcome(side, d + 1, key.Drop(1));
        CollapseShape(!key.bits[0], if key.bits[0] then l else r, d, 0);
        if freed && Lookup(t, key.bits).Some? {
          FreedEntries(t, d, key.bits);
        }
      }
    case Ext(e, c) =>
      if key.StartsWith(e) {
        BitInByteAdd(d, |e.bits|);
        DelOutcome(c, d + |e.bits|, key.Drop(|e.bits|));
      }
  }

  /** Every entry below a sealed reference is sealed. */
  lemma {:induction false} FreedEntries(t: Tree, d: nat, k: seq<bool>)
    requires WF(t, d) && IsSealed(t) && Lookup(t, k).Some?
    ensures Lookup(t, k).value.isSealed
  {
    hide BitInByte;
    match t
    case Leaf(_, _) =>
    case Branch(_, l, r) => FreedEntries(if k[0] then r else l, d + 1, k[1..]);
  }

  // ----- memory: deletion frees at least as many nodes as it needs

  /** Number of Extension nodes a key is cut into. */
  function Chunks(key: Slice): nat
    requires key.offset < 8
    decreases |key.bits|
  {
    if key.bits == [] then 0 else 1 + Chunks(key.Drop(key.FirstChunkLen()))
  }

  lemma {:induction false} ChunksClosedForm(key: Slice)
    requires key.offset < 8 && key.bits != []
    ensures Chunks(key) == (key.offset + |key.bits| + MAX_EXTENSION_KEY_BITS - 1) / MAX_EXTENSION_KEY_BITS
    decreases |key.bits|
  {
    var rest := key.Drop(key.FirstChunkLen());
    if rest.bits != [] {
      assert rest.offset == 0;
      ChunksClosedForm(rest);
    }
  }

  lemma {:induction false} ChainBlocks(key: Slice, t: Tree)
    requires key.offset < 8
    ensures Blocks(Chain(key, t)) == Chunks(key) + Blocks(t)
    decreases |key.bits|
  {
    hide BitInByte;
    if key.bits != [] {
      ChainBlocks(key.Drop(key.FirstChunkLen()), t);
    }
  }

  lemma ConcatChunks(e: Slice, s: Slice)
    requires e.IsExtKey() && s.offset == BitInByte(e.offset + |e.bits|) && s.bits != []
    ensures Chunks(Slice(e.offset, e.bits + s.bits)) <= 1 + Chunks(s)
  {
    ChunksClosedForm(s);
    ChunksClosedForm(Slice(e.offset, e.bits + s.bits));
  }

  lemma ConcatBitChunks(bit: bool, e: Slice, d: nat)
    requires e.IsExtKey() && e.offset == BitInByte(d + 1)
    ensures Chunks(Slice(BitInByte(d), [bit] + e.bits)) <= 2
  {
    ChunksClosedForm(Slice(BitInByte(d), [bit] + e.bits));
  }

  lemma ShortChunks(e: Slice)
    requires e.IsExtKey()
    ensures Chunks(e) == 1
  {
    ChunksClosedForm(e);
  }

  function ActionBlocks(a: Action): nat {
    match a
    case ActDrop => 0
    case ActExt(_, c) => Blocks(c)
    case ActRef(t) => Blocks(t)
  }

  function ActionChunks(a: Action): nat
    requires a.ActExt? ==> a.key.offset < 8
  {
    if a.ActExt? then Chunks(a.key) else 0
  }

  /** The nodes freed on the way cover the Extension nodes the outcome still asks for. */
  lemma {:induction false} DelCredit(t: Tree, d: nat, key: Slice)
    requires WF(t, d) && key.offset == BitInByte(d)
    requires DelTree(t, key).Ok?
    ensures ActionBlocks(DelTree(t, key).value) + ActionChunks(DelTree(t, key).value) <= Blocks(t)
  {
    hide BitInByte;
    hide Chain;
    DelShape(t, d, key, 0);
    match t
    case Leaf(_, _) =>
    case Branch(_, l, r) =>
      BitInByteAdd(d, 1);
      var side := if key.bits[0] then r else l;
      var other := if key.bits[0] then l else r;
      var action := DelTree(side, key.Drop(1)).value;
      DelCredit(side, d + 1, key.Drop(1));
      if action.ActExt? {
        ChainBlocks(action.key, action.child);
      }
      if action.ActDrop? {
        if other.Ext? {
          ConcatBitChunks(!key.bits[0], other.key, d);
          BitBefore(d);
        } else {
          ShortChunks(Slice(key.offset, [!key.bits[0]]));
        }
      }
    case Ext(e, c) =>
      BitInByteAdd(d, |e.bits|);
      var rest := key.Drop(|e.bits|);
      DelShape(c, d + |e.bits|, rest, 0);
      DelCredit(c, d + |e.bits|, rest);
      var action := DelTree(c, rest).value;
      if action.ActExt? {
        ConcatChunks(e, action.key);
      }
      ShortChunks(e);
  }
}
