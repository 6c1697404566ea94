/** Insertion into the trie in memory. */
module TrieSet {
  import opened Wrappers
  import opened Bits
  import opened Tree
  import opened SetSpec
  import opened DelSpec
  import opened DoubleFree
  import opened Heap
  import CryptoHash
  import Memory

  /** Where the last chunk starts when a slice is cut into Extension keys. */
  function LastChunkStart(key: Slice): (n: nat)
    requires key.offset < 8 && key.bits != []
    ensures n < |key.bits|
  {
    var end := key.offset + |key.bits|;
    if end <= MAX_EXTENSION_KEY_BITS then 0
    else (end - 1) / MAX_EXTENSION_KEY_BITS * MAX_EXTENSION_KEY_BITS - key.offset
  }

  lemma LastChunkBehindFirst(key: Slice)
    requires key.offset < 8 && key.offset + |key.bits| > MAX_EXTENSION_KEY_BITS
    ensures var first := MAX_EXTENSION_KEY_BITS - key.offset;
      && key.FirstChunkLen() == first < |key.bits|
      && key.Drop(first).offset == 0
      && LastChunkStart(key) == first + LastChunkStart(key.Drop(first))
  {
    assert (key.offset + (MAX_EXTENSION_KEY_BITS - key.offset)) % 8 == 0;
  }

  /** Cutting off the last chunk gives the same chunks as cutting off the first one. */
  lemma {:induction false} ChainLast(key: Slice, t: Tree)
    requires key.offset < 8 && key.bits != []
    ensures var n := LastChunkStart(key);
      && key.Drop(n).IsExtKey()
      && Chain(key, t) == Chain(key.Take(n), Ext(key.Drop(n), t))
      && Chunks(key) == Chunks(key.Take(n)) + 1
  {
    hide BitInByte;
    hide LastChunkStart;
    hide Chain;
    hide Chunks;
    var n := LastChunkStart(key);
    ChainCut(key, t);
    ChainBlocks(key, t);
    ChainBlocks(key.Take(n), Ext(key.Drop(n), t));
  }

  lemma {:induction false} ChainCut(key: Slice, t: Tree)
    requires key.offset < 8 && key.bits != []
    ensures var n := LastChunkStart(key);
      key.Drop(n).IsExtKey() && Chain(key, t) == Chain(key.Take(n), Ext(key.Drop(n), t))
    decreases |key.bits|
  {
    hide BitInByte;
    hide LastChunkStart;
    hide Chain;
    DropZero(key);
    var n := LastChunkStart(key);
    var last := Ext(key.Drop(n), t);
    ChainStep(key, t);
    if key.offset + |key.bits| > MAX_EXTENSION_KEY_BITS {
      LastChunkBehindFirst(key);
      var first := key.FirstChunkLen();
      ChainCut(key.Drop(first), t);
      DropTwice(key, first, n);
      DropTake(key, first, n);
      ChainStep(key.Take(n), last);
    } else {
      LastChunkAlone(key);
      ChainStep(key.Drop(|key.bits|), t);
      ChainStep(key.Take(0), last);
    }
  }

  lemma ChainStep(key: Slice, t: Tree)
    requires key.offset < 8
    ensures key.bits == [] ==> Chain(key, t) == t
    ensures key.bits != [] ==>
      Chain(key, t) == Ext(key.Take(key.FirstChunkLen()), Chain(key.Drop(key.FirstChunkLen()), t))
  {
  }

  lemma LastChunkAlone(key: Slice)
    requires key.offset < 8 && key.bits != [] && key.offset + |key.bits| <= MAX_EXTENSION_KEY_BITS
    ensures LastChunkStart(key) == 0 && key.FirstChunkLen() == |key.bits|
  {
  }

  lemma ChainEmpty(key: Slice, t: Tree)
    requires key.offset < 8
    ensures key.bits == [] ==> Chain(key, t) == t && Chunks(key) == 0
    ensures Blocks(Chain(key, t)) == Chunks(key) + Blocks(t)
  {
    ChainBlocks(key, t);
  }

  /** What insertion makes of an Extension the key leaves after `n` bits. */
  lemma SplitOutcome(e: Slice, c: Tree, key: Slice, n: nat, value: Hash)
    requires key.offset < 8 && n < |key.bits| && n == MatchLen(key, e) < |e.bits|
    ensures var below := Split(e, c, key.Drop(n), n, value);
      && SetTree(Ext(e, c), key, value) == Ok(if n == 0 then below else Ext(key.Take(n), below))
      && Drawn(Ext(e, c), key, value) ==
         DrawnForSplit(e, c, key.Drop(n), n, value) + if n == 0 then [] else [false]
  {
    hide BitInByte;
    hide MatchLen;
    hide Split;
    hide DrawnForSplit;
  }

  /** Of the blocks wanted, as many have been drawn as there were. */
  ghost predicate RanOut(was: seq<bool>, marks: seq<bool>, wanted: seq<bool>, room: nat) {
    was <= marks < was + wanted && |marks| == room
  }

  lemma RanOutEarly(was: seq<bool>, marks: seq<bool>, wanted: seq<bool>, more: seq<bool>, room: nat)
    requires RanOut(was, marks, wanted, room)
    ensures RanOut(was, marks, wanted + more, room)
  {
    assert was + (wanted + more) == (was + wanted) + more;
  }

  lemma RanOutLate(was: seq<bool>, drawn: seq<bool>, more: seq<bool>, room: nat)
    requires more != [] && |was + drawn| == room
    ensures RanOut(was, was + drawn, drawn + more, room)
  {
    assert was + (drawn + more) == (was + drawn) + more;
  }

  /** The outcome of storing a value below `p`: in memory exactly `p`'s nodes have been replaced.  Memory runs
      out only when the new subtrie needs more blocks than there were.  Marked are those of the drawn blocks,
      first `was` and now `marks`, that look free. */
  ghost predicate Stored(
    p: Placed, key: Slice, value: Hash, before: Nodes, after: Nodes, was: seq<bool>, marks: seq<bool>, room: nat,
    r: Result<Ref, Error>, out: Placed)
    requires key.offset < 8
  {
    match r
    case Ok(ref) =>
      && SetTree(Shape(p), key, value) == Ok(Shape(out))
      && ref == RefOf(out) && Separate(out)
      && Replaced(before, NodesOf(p), NodesOf(out), after)
      && marks == was + Drawn(Shape(p), key, value)
    case Err(OutOfMemory) =>
      && SetTree(Shape(p), key, value).Ok?
      && RanOut(was, marks, Drawn(Shape(p), key, value), room)
    case Err(e) => SetTree(Shape(p), key, value) == Err(e) && marks == was
  }

  lemma SplitStored(
      p: Placed, key: Slice, n: nat, value: Hash, before: Nodes, after: Nodes, was: seq<bool>, marks: seq<bool>,
      room: nat, r: Result<Ref, Error>, out: Placed)
    requires p.PExt? && key.offset < 8 && MatchLen(key, p.key) == n < |p.key.bits| && n < |key.bits|
    requires var below := Split(p.key, Shape(p.child), key.Drop(n), n, value);
      var wanted := DrawnForSplit(p.key, Shape(p.child), key.Drop(n), n, value) + if n == 0 then [] else [false];
      match r
      case Ok(ref) =>
        && Shape(out) == (if n == 0 then below else Ext(key.Take(n), below)) && ref == RefOf(out) && Separate(out)
        && Replaced(before, NodesOf(p), NodesOf(out), after) && marks == was + wanted
      case Err(e) => e == OutOfMemory && RanOut(was, marks, wanted, room)
    ensures Stored(p, key, value, before, after, was, marks, room, r, out)
  {
    hide BitInByte;
    hide MatchLen;
    hide Split;
    hide Separate;
    hide HashOf;
    hide Replaced;
    hide Chunks;
    hide DrawnForChain;
    SplitOutcome(p.key, Shape(p.child), key, n, value);
  }

  lemma DropOutcome(wanted: seq<bool>, marks: seq<bool>, room: nat)
    ensures marks == wanted && |marks| <= room ==> !DropPanics(wanted, room)
    ensures RanOut([], marks, wanted, room) ==> room < |wanted| && (true in marks <==> DropPanics(wanted, room))
  {
    if RanOut([], marks, wanted, room) {
      assert [] + wanted == wanted;
      assert marks == wanted[..room];
    }
  }

  class Context {
    // Part of the key yet to be traversed.
    var key: Slice
    const valueHash: Hash
    const wlog: Memory.WriteLog<RawNode>

    ghost predicate Valid()
      reads this, wlog, wlog.alloc
    {
      wlog.Valid() && wlog.freed == [] && key.offset < 8 && ChecksMarker(wlog.alloc)
    }

    constructor (alloc: Memory.Allocator<RawNode>, key: Slice, valueHash: Hash)
      requires alloc.Valid() && key.offset < 8 && ChecksMarker(alloc)
      ensures Valid() && this.key == key && this.valueHash == valueHash
      ensures fresh(wlog) && wlog.alloc == alloc && wlog.initial == alloc.Live() == wlog.Pending()
      ensures wlog.room == alloc.Room() && wlog.drawn == []
    {
      this.key := key;
      this.valueHash := valueHash;
      wlog := new Memory.WriteLog(alloc);
    }

    method AllocNode(node: RawNode) returns (r: Result<(Ptr, Hash), Error>)
      requires Valid()
      modifies wlog, wlog.alloc
      ensures Valid()
      ensures match r
              case Ok((ptr, hash)) =>
                && hash == NodeHashOf(node) && ptr !in old(wlog.Pending())
                && wlog.Pending() == old(wlog.Pending())[ptr := node]
                && wlog.DrawnMarks() == old(wlog.DrawnMarks()) + [EndsInZero(node)]
              case Err(e) =>
                && e == OutOfMemory && wlog.DrawnMarks() == old(wlog.DrawnMarks())
                && wlog.room == |wlog.DrawnMarks()|
    {
      var ptr := wlog.Alloc(node);
      if ptr.Err? {
        return Err(Error.OutOfMemory);
      }
      return Ok((ptr.value, NodeHashOf(node)));
    }

    method SetNode(ptr: Ptr, node: RawNode) returns (r: (Ptr, Hash))
      requires Valid() && ptr in wlog.Pending()
      modifies wlog
      ensures Valid() && r == (ptr, NodeHashOf(node))
      ensures wlog.Pending() == old(wlog.Pending())[ptr := node] && wlog.DrawnMarks() == old(wlog.DrawnMarks())
    {
      wlog.Set(ptr, node);
      return (ptr, NodeHashOf(node));
    }

    /** Stores the value under what is left of the key: nothing but a reference when the key has ended,
        otherwise a chain of Extensions, built from its end. */
    method InsertValue() returns (r: Result<Ref, Error>, ghost out: Placed)
      requires Valid()
      modifies wlog, wlog.alloc
      ensures Valid()
      ensures match r
              case Ok(ref) =>
                && Shape(out) == Chain(key, Leaf(valueHash, false)) && ref == RefOf(out) && Separate(out)
                && NodesOf(out).Keys !! old(wlog.Pending()).Keys
                && wlog.Pending() == old(wlog.Pending()) + NodesOf(out)
                && wlog.DrawnMarks() == old(wlog.DrawnMarks()) + DrawnForChain(Chunks(key), valueHash)
              case Err(e) =>
                && e == OutOfMemory
                && RanOut(old(wlog.DrawnMarks()), wlog.DrawnMarks(), DrawnForChain(Chunks(key), valueHash), wlog.room)
    {
      hide BitInByte;
      hide Chain;
      hide Chunks;
      hide LastChunkStart;
      hide Memory.WriteLog.Valid;
      hide Memory.WriteLog.Pending;
      hide Memory.WriteLog.DrawnMarks;
      hide ChecksMarker;
      hide RanOut;
      var rest := key;
      out := PLeaf(valueHash, false);
      var child := ValueRef(false, valueHash);
      ghost var done := 0;
      while rest.bits != []
        invariant Valid() && rest.offset < 8
        invariant Chain(key, Leaf(valueHash, false)) == Chain(rest, Shape(out))
        invariant child == RefOf(out) && Separate(out)
        invariant NodesOf(out).Keys !! old(wlog.Pending()).Keys
        invariant wlog.Pending() == old(wlog.Pending()) + NodesOf(out)
        invariant done + Chunks(rest) == Chunks(key) && (done == 0 ==> out == PLeaf(valueHash, false))
        invariant done > 0 ==> !out.PLeaf?
        invariant wlog.DrawnMarks() == old(wlog.DrawnMarks()) + DrawnForChain(done, valueHash)
        decreases |rest.bits|
      {
        var n := LastChunkStart(rest);
        ChainLast(rest, Shape(out));
        var chunk := rest.Drop(n);
        var node := RawExt(chunk, child);
        var p := AllocNode(node);
        if p.Err? {
          ChainRunsOut(old(wlog.DrawnMarks()), done, Chunks(key), valueHash, wlog.room);
          return Err(p.error), out;
        }
        ChainMark(out, chunk, done, valueHash);
        done := done + 1;
        out := PExt(p.value.0, chunk, out);
        HashMatches(out);
        child := NodeRef(Some(p.value.0), p.value.1);
        rest := rest.Take(n);
      }
      ChainEmpty(rest, Shape(out));
      return Ok(child), out;
    }

    /** Stores the value below a reference, which may lead to a node or to a value. */
    method HandleReference(child: Ref, ghost p: Placed, ghost d: nat)
      returns (r: Result<Ref, Error>, ghost out: Placed)
      requires Valid() && Facing(p, d, key, wlog.initial, wlog.Pending()) && child == RefOf(p)
      modifies this, wlog, wlog.alloc
      ensures Valid()
      ensures Stored(p, old(key), valueHash, old(wlog.Pending()), wlog.Pending(), old(wlog.DrawnMarks()),
                     wlog.DrawnMarks(), wlog.room, r, out)
      decreases p, 2
    {
      match child
      case NodeRef(_, _) =>
        r, out := Handle(child, p, d);
      case ValueRef(isSealed, _) =>
        out := p;
        if key.bits != [] {
          r := Err(BadKeyPrefix);
        } else if isSealed {
          r := Err(Sealed);
        } else {
          out := PLeaf(valueHash, false);
          r := Ok(ValueRef(false, valueHash));
        }
    }

    /** Stores the value below a node. */
    method Handle(nref: Ref, ghost p: Placed, ghost d: nat)
      returns (r: Result<Ref, Error>, ghost out: Placed)
      requires Valid() && Facing(p, d, key, wlog.initial, wlog.Pending()) && nref == RefOf(p) && nref.NodeRef?
      modifies this, wlog, wlog.alloc
      ensures Valid()
      ensures Stored(p, old(key), valueHash, old(wlog.Pending()), wlog.Pending(), old(wlog.DrawnMarks()),
                     wlog.DrawnMarks(), wlog.room, r, out)
      decreases p, 1
    {
      if nref.ptr.None? {
        return Err(Sealed), p;
      }
      var nptr := nref.ptr.value;
      PartsWithin(p, wlog.initial);
      var node := wlog.alloc.Get(nptr);
      match node
      case RawBranch(left, right) =>
        r, out := HandleBranch(nptr, left, right, p, d);
      case RawExt(extKey, child) =>
        r, out := HandleExtension(nptr, extKey, child, p, d);
    }

    method HandleBranch(nptr: Ptr, left: Ref, right: Ref, ghost p: Placed, ghost d: nat)
      returns (r: Result<Ref, Error>, ghost out: Placed)
      requires Valid() && Facing(p, d, key, wlog.initial, wlog.Pending())
      requires p.PBranch? && p.ptr == Some(nptr) && NodeOf(p) == RawBranch(left, right)
      modifies this, wlog, wlog.alloc
      ensures Valid()
      ensures Stored(p, old(key), valueHash, old(wlog.Pending()), wlog.Pending(), old(wlog.DrawnMarks()),
                     wlog.DrawnMarks(), wlog.room, r, out)
      decreases p, 0
    {
      hide BitInByte;
      hide Memory.WriteLog.Valid;
      hide Memory.WriteLog.Pending;
      hide Memory.WriteLog.DrawnMarks;
      hide ChecksMarker;
      hide RanOut;
      if key.bits == [] {
        return Err(BadKeyPrefix), p;
      }
      FacingSide(p, d, key, wlog.initial, wlog.Pending());
      var bit := key.bits[0];
      key := key.Drop(1);
      ghost var c: Placed;
      r, c := HandleReference(if bit then right else left, if bit then p.right else p.left, d + 1);
      if r.Err? {
        return r, p;
      }
      out := WithChild(p, bit, c);
      BranchReplaced(old(wlog.Pending()), p, bit, c, wlog.Pending());
      HashMatches(out);
      var node := if bit then RawBranch(left, r.value) else RawBranch(r.value, right);
      var updated := SetNode(nptr, node);
      r := Ok(NodeRef(Some(updated.0), updated.1));
    }

    /** The whole Extension key matched: its child is updated and so is the node. */
    method FollowExtension(nptr: Ptr, extKey: Slice, child: Ref, ghost p: Placed, ghost d: nat, ghost key0: Slice)
      returns (r: Result<Ref, Error>, ghost out: Placed)
      requires Valid() && p.PExt? && p.at == nptr && NodeOf(p) == RawExt(extKey, child)
      requires WF(Shape(p), d) && Separate(p)
      requires Within(NodesOf(p), wlog.initial) && Within(NodesOf(p), wlog.Pending())
      requires key0.offset == BitInByte(d) && key0.bits != [] && MatchLen(key0, extKey) == |extKey.bits|
      requires key == key0.Drop(|extKey.bits|)
      modifies this, wlog, wlog.alloc
      ensures Valid()
      ensures Stored(p, key0, valueHash, old(wlog.Pending()), wlog.Pending(), old(wlog.DrawnMarks()),
                     wlog.DrawnMarks(), wlog.room, r, out)
      decreases p, 0, 0
    {
      hide BitInByte;
      hide MatchLen;
      hide Memory.WriteLog.Valid;
      hide Memory.WriteLog.Pending;
      hide Memory.WriteLog.DrawnMarks;
      hide ChecksMarker;
      hide RanOut;
      PartsWithin(p, wlog.initial);
      PartsWithin(p, wlog.Pending());
      BitInByteAdd(d, |extKey.bits|);
      ghost var c: Placed;
      r, c := HandleReference(child, p.child, d + |extKey.bits|);
      if r.Err? {
        return r, p;
      }
      out := PExt(nptr, extKey, c);
      ExtReplaced(old(wlog.Pending()), p, c, wlog.Pending());
      HashMatches(out);
      var updated := SetNode(nptr, RawExt(extKey, r.value));
      r := Ok(NodeRef(Some(updated.0), updated.1));
    }

    /** The key leaves the Extension after `n` bits: a Branch takes the Extension's place, with an Extension
        over the common bits above it and one over the remaining bits below it where there are any. */
    method SplitExtension(
        nptr: Ptr, extKey: Slice, child: Ref, ghost p: Placed, n: nat, prefix: Slice, ghost key0: Slice)
      returns (r: Result<Ref, Error>, ghost out: Placed)
      requires Valid() && p.PExt? && p.at == nptr && NodeOf(p) == RawExt(extKey, child)
      requires Separate(p) && Within(NodesOf(p), wlog.Pending())
      requires key0.offset < 8 && key0.bits != []
      requires MatchLen(key0, extKey) == n < |extKey.bits| && key.bits != []
      requires key == key0.Drop(n) && prefix == key0.Take(n)
      modifies this, wlog, wlog.alloc
      ensures Valid()
      ensures Stored(p, key0, valueHash, old(wlog.Pending()), wlog.Pending(), old(wlog.DrawnMarks()),
                     wlog.DrawnMarks(), wlog.room, r, out)
    {
      hide BitInByte;
      hide MatchLen;
      hide Split;
      hide Memory.WriteLog.Valid;
      hide Memory.WriteLog.Pending;
      hide Memory.WriteLog.DrawnMarks;
      hide ChecksMarker;
      hide RanOut;
      hide DrawnForSplit;
      hide Stored;
      hide SetTree;
      hide NodesOf;
      hide HashOf;
      ghost var before := wlog.Pending();
      ghost var was := wlog.DrawnMarks();
      ghost var wanted := DrawnForSplit(extKey, Shape(p.child), key, n, valueHash);
      r, out := PutBranch(nptr, extKey, child, p, n);
      if r.Err? {
        RanOutEarly(was, wlog.DrawnMarks(), wanted, if n == 0 then [] else [false], wlog.room);
      } else if prefix.bits != [] {
        HashMatches(out);
        r, out := PutExtension(prefix, r.value, out, before, NodesOf(p));
        if r.Err? {
          RanOutLate(was, wanted, [false], wlog.room);
        }
      }
      SplitStored(p, key0, n, valueHash, before, wlog.Pending(), was, wlog.DrawnMarks(), wlog.room, r, out);
    }

    /** The Branch put in the Extension's place. */
    method PutBranch(nptr: Ptr, extKey: Slice, child: Ref, ghost p: Placed, n: nat)
      returns (r: Result<Ref, Error>, ghost out: Placed)
      requires Valid() && p.PExt? && p.at == nptr && NodeOf(p) == RawExt(extKey, child)
      requires Separate(p) && Within(NodesOf(p), wlog.Pending())
      requires n < |extKey.bits| && key.bits != []
      modifies this, wlog, wlog.alloc
      ensures Valid()
      ensures match r
              case Ok(ref) =>
                && Shape(out) == Split(extKey, Shape(p.child), old(key), n, valueHash) && out.PBranch?
                && ref == RefOf(out) && Separate(out)
                && Replaced(old(wlog.Pending()), NodesOf(p), NodesOf(out), wlog.Pending())
                && wlog.DrawnMarks() ==
                   old(wlog.DrawnMarks()) + DrawnForSplit(extKey, Shape(p.child), old(key), n, valueHash)
              case Err(e) =>
                && e == OutOfMemory
                && RanOut(old(wlog.DrawnMarks()), wlog.DrawnMarks(),
                          DrawnForSplit(extKey, Shape(p.child), old(key), n, valueHash), wlog.room)
    {
      hide BitInByte;
      hide Chain;
      hide Chunks;
      hide Memory.WriteLog.Valid;
      hide Memory.WriteLog.Pending;
      hide Memory.WriteLog.DrawnMarks;
      hide ChecksMarker;
      hide RanOut;
      hide NodesOf;
      hide Separate;
      hide HashOf;
      ghost var before := wlog.Pending();
      PartsWithin(p, before);
      var our := key.bits[0];
      key := key.Drop(1);
      ghost var ours: Placed;
      var ourRef;
      ghost var was := wlog.DrawnMarks();
      ghost var chain := DrawnForChain(Chunks(key), valueHash);
      ghost var last := [HashOf(Shape(p.child)) == CryptoHash.ZERO];
      ourRef, ours := InsertValue();
      if ourRef.Err? {
        RanOutEarly(was, wlog.DrawnMarks(), chain, if n + 1 == |extKey.bits| then [] else last, wlog.room);
        return ourRef, p;
      }
      var suffix := extKey.Drop(n + 1);
      var theirRef;
      ghost var theirs, link;
      theirRef, theirs, link := PutSuffix(suffix, child, p, before);
      if theirRef.Err? {
        RanOutLate(was, chain, last, wlog.room);
        return theirRef, p;
      }
      SplitReplaced(before, p, ours, theirs, link, our, wlog.Pending());
      out := if our then PBranch(Some(nptr), theirs, ours) else PBranch(Some(nptr), ours, theirs);
      HashMatches(out);
      var node :=
        if our then RawBranch(theirRef.value, ourRef.value) else RawBranch(ourRef.value, theirRef.value);
      var branch := SetNode(nptr, node);
      r := Ok(NodeRef(Some(branch.0), branch.1));
    }

    /** The continuation of the split Extension behind another Extension over what remains of its key, if
        anything does. */
    method PutSuffix(suffix: Slice, child: Ref, ghost p: Placed, ghost before: Nodes)
      returns (r: Result<Ref, Error>, ghost theirs: Placed, ghost link: Nodes)
      requires Valid() && p.PExt? && child == RefOf(p.child)
      requires Separate(p) && Within(NodesOf(p), before) && before.Keys <= wlog.Pending().Keys
      modifies wlog, wlog.alloc
      ensures Valid()
      ensures match r
              case Ok(ref) =>
                && Shape(theirs) == (if suffix.bits == [] then Shape(p.child) else Ext(suffix, Shape(p.child)))
                && ref == RefOf(theirs) && Separate(theirs)
                && link.Keys !! old(wlog.Pending()).Keys && NodesOf(theirs) == NodesOf(p.child) + link
                && wlog.Pending() == old(wlog.Pending()) + link
                && wlog.DrawnMarks() ==
                   old(wlog.DrawnMarks())
                   + if suffix.bits == [] then [] else [HashOf(Shape(p.child)) == CryptoHash.ZERO]
              case Err(e) =>
                && e == OutOfMemory && suffix.bits != [] && wlog.DrawnMarks() == old(wlog.DrawnMarks())
                && wlog.room == |wlog.DrawnMarks()|
    {
      hide Memory.WriteLog.Valid;
      hide Memory.WriteLog.Pending;
      hide Memory.WriteLog.DrawnMarks;
      hide ChecksMarker;
      hide RanOut;
      PartsWithin(p, before);
      theirs, link := p.child, map[];
      if suffix.bits == [] {
        return Ok(child), theirs, link;
      }
      var their := AllocNode(RawExt(suffix, child));
      if their.Err? {
        return Err(their.error), theirs, link;
      }
      theirs := PExt(their.value.0, suffix, p.child);
      link := map[their.value.0 := NodeOf(theirs)];
      LinkNodes(before, p, theirs);
      HashMatches(theirs);
      r := Ok(NodeRef(Some(their.value.0), their.value.1));
    }

    /** One more Extension on top of the subtrie `p` that is replacing another one. */
    method PutExtension(prefix: Slice, below: Ref, ghost p: Placed, ghost before: Nodes, ghost old_: Nodes)
      returns (r: Result<Ref, Error>, ghost out: Placed)
      requires Valid() && below == RefOf(p) && Separate(p)
      requires Within(old_, before) && Replaced(before, old_, NodesOf(p), wlog.Pending())
      modifies wlog, wlog.alloc
      ensures Valid()
      ensures match r
              case Ok(ref) =>
                && Shape(out) == Ext(prefix, Shape(p)) && ref == RefOf(out) && Separate(out)
                && Replaced(before, old_, NodesOf(out), wlog.Pending())
                && wlog.DrawnMarks() == old(wlog.DrawnMarks()) + [EndsInZero(RawExt(prefix, below))]
              case Err(e) =>
                && e == OutOfMemory && wlog.DrawnMarks() == old(wlog.DrawnMarks())
                && wlog.room == |wlog.DrawnMarks()|
    {
      hide Memory.WriteLog.Valid;
      hide Memory.WriteLog.Pending;
      hide Memory.WriteLog.DrawnMarks;
      hide ChecksMarker;
      hide RanOut;
      ghost var mid := wlog.Pending();
      out := p;
      var top := AllocNode(RawExt(prefix, below));
      if top.Err? {
        return Err(top.error), p;
      }
      ExtOnTop(before, old_, p, mid, top.value.0, prefix);
      out := PExt(top.value.0, prefix, p);
      HashMatches(out);
      r := Ok(NodeRef(Some(top.value.0), top.value.1));
    }

    method HandleExtension(nptr: Ptr, extKey: Slice, child: Ref, ghost p: Placed, ghost d: nat)
      returns (r: Result<Ref, Error>, ghost out: Placed)
      requires Valid() && Facing(p, d, key, wlog.initial, wlog.Pending())
      requires p.PExt? && p.at == nptr && NodeOf(p) == RawExt(extKey, child)
      modifies this, wlog, wlog.alloc
      ensures Valid()
      ensures Stored(p, old(key), valueHash, old(wlog.Pending()), wlog.Pending(), old(wlog.DrawnMarks()),
                     wlog.DrawnMarks(), wlog.room, r, out)
      decreases p, 0, 1
    {
      hide BitInByte;
      hide Memory.WriteLog.Valid;
      hide Memory.WriteLog.Pending;
      hide Memory.WriteLog.DrawnMarks;
      hide ChecksMarker;
      hide RanOut;
      out := p;
      if key.bits == [] {
        return Err(BadKeyPrefix), p;
      }
      var n := MatchLen(key, extKey);
      var prefix := key.Take(n);
      key := key.Drop(n);
      BitInByteAdd(d, n);
      if n == |extKey.bits| {
        r, out := FollowExtension(nptr, extKey, child, p, d, old(key));
      } else if key.bits == [] {
        r := Err(BadKeyPrefix);
      } else {
        r, out := SplitExtension(nptr, extKey, child, p, n, prefix, old(key));
      }
    }

    /** Closes the log: changes are kept exactly when the operation succeeded.  Dropping the log frees the blocks
        drawn, which fails when one of them looks free. */
    method Close(r0: Result<Ref, Error>) returns (r: Result<Ref, Error>)
      requires wlog.Valid() && wlog.freed == []
      modifies wlog, wlog.alloc
      ensures wlog.alloc.Valid()
      ensures r == if r0.Err? && true in old(wlog.DrawnMarks()) then Err(Panic) else r0
      ensures r0.Ok? ==>
        && wlog.alloc.Live() == old(wlog.Pending())
        && wlog.alloc.Room() + |old(wlog.drawn)| == wlog.room
      ensures r0.Err? && true !in old(wlog.DrawnMarks()) ==>
        wlog.alloc.Live() == wlog.initial && wlog.alloc.Room() == wlog.room
    {
      var ok;
      if r0.Ok? {
        ok := wlog.Commit();
      } else {
        ok := wlog.Drop();
      }
      r := if ok then r0 else Err(Panic);
    }

    /** The whole operation on a trie held by the pool.  On success the pool holds the updated trie and
        nothing else; otherwise it is as before.  It panics just when blocks run out and one of those drawn by
        then looks free. */
    method Set(rootPtr: Option<Ptr>, rootHash: Hash, ghost root: Placed)
      returns (r: Result<Ref, Error>, ghost out: Placed)
      requires Valid() && wlog.drawn == [] && key.offset == 0
      requires wlog.Pending() == wlog.initial == NodesOf(root)
      requires WF(Shape(root), 0) && Separate(root) && RefOf(root) == NodeRef(rootPtr, rootHash)
      modifies this, wlog, wlog.alloc
      ensures wlog.alloc.Valid()
      ensures r == Err(Panic) <==>
        && SetTree(Shape(root), old(key), valueHash).Ok?
        && DropPanics(Drawn(Shape(root), old(key), valueHash), wlog.room)
      ensures match r
              case Ok(ref) =>
                && SetTree(Shape(root), old(key), valueHash) == Ok(Shape(out))
                && wlog.alloc.Live() == NodesOf(out) && Separate(out) && ref == RefOf(out)
                && wlog.alloc.Room() == wlog.room - |Drawn(Shape(root), old(key), valueHash)|
              case Err(e) => e != Panic ==>
                && wlog.alloc.Live() == wlog.initial && wlog.alloc.Room() == wlog.room
                && (if e == OutOfMemory then
                      && SetTree(Shape(root), old(key), valueHash).Ok?
                      && wlog.room < |Drawn(Shape(root), old(key), valueHash)|
                    else SetTree(Shape(root), old(key), valueHash) == Err(e))
    {
      hide BitInByte;
      hide NodesOf;
      hide SetTree;
      hide Drawn;
      hide RanOut;
      hide DropPanics;
      hide ChecksMarker;
      hide Memory.WriteLog.DrawnMarks;
      hide Memory.WriteLog.Valid;
      hide Memory.WriteLog.Pending;
      RootNodes(root);
      if rootPtr.Some? {
        r, out := Handle(NodeRef(rootPtr, rootHash), root, 0);
        if r.Ok? {
          ReplacedAll(NodesOf(root), NodesOf(out), wlog.Pending());
        }
      } else {
        r, out := Err(Sealed), root;
        SetFreed(Shape(root), key, valueHash);
      }
      if SetTree(Shape(root), old(key), valueHash).Err? {
        SetErrors(Shape(root), old(key), valueHash);
      }
      DropOutcome(Drawn(Shape(root), old(key), valueHash), wlog.DrawnMarks(), wlog.room);
      r := Close(r);
    }

    /** The whole operation on an empty trie. */
    method SetFirst() returns (r: Result<Ref, Error>, ghost out: Placed)
      requires Valid() && wlog.drawn == [] && wlog.Pending() == wlog.initial == map[]
      modifies wlog, wlog.alloc
      ensures key.offset < 8 && wlog.alloc.Valid()
      ensures r == Err(Panic) <==> key.bits != [] && DropPanics(DrawnForChain(Chunks(key), valueHash), wlog.room)
      ensures match r
              case Ok(ref) =>
                && key.bits != [] && Shape(out) == Chain(key, Leaf(valueHash, false))
                && wlog.alloc.Live() == NodesOf(out) && Separate(out) && ref == RefOf(out)
                && wlog.alloc.Room() == wlog.room - Chunks(key)
              case Err(e) => e != Panic ==>
                && wlog.alloc.Live() == wlog.initial && wlog.alloc.Room() == wlog.room
                && (if e == EmptyKey then key.bits == []
                    else e == OutOfMemory && key.bits != [] && wlog.room < Chunks(key))
    {
      hide BitInByte;
      hide Chain;
      hide Chunks;
      hide NodesOf;
      hide RanOut;
      hide DropPanics;
      hide ChecksMarker;
      hide DrawnForChain;
      hide HashOf;
      hide Separate;
      hide Memory.WriteLog.Valid;
      hide Memory.WriteLog.Pending;
      hide Memory.WriteLog.DrawnMarks;
      ChainEmpty(key, Leaf(valueHash, false));
      ChainIsExt(key, Leaf(valueHash, false));
      r, out := InsertValue();
      DropOutcome(DrawnForChain(Chunks(key), valueHash), wlog.DrawnMarks(), wlog.room);
      if r.Ok? && r.value.ValueRef? {
        r := Err(EmptyKey);
      }
      r := Close(r);
    }
  }

  /** Only the first block of a chain can look free: all others lead to a node. */
  lemma ChainMark(p: Placed, chunk: Slice, done: nat, value: Hash)
    requires if done == 0 then p == PLeaf(value, false) else !p.PLeaf?
    ensures DrawnForChain(done, value) + [EndsInZero(RawExt(chunk, RefOf(p)))] == DrawnForChain(done + 1, value)
  {
    if done > 0 {
      HashMatches(p);
    }
  }

  lemma {:induction false} ChainRunsOut(was: seq<bool>, done: nat, all: nat, value: Hash, room: nat)
    requires done < all && |was| + done == room
    ensures RanOut(was, was + DrawnForChain(done, value), DrawnForChain(all, value), room)
    decreases all
  {
    var last := [all == 1 && value == CryptoHash.ZERO];
    if done < all - 1 {
      ChainRunsOut(was, done, all - 1, value, room);
      RanOutEarly(was, was + DrawnForChain(done, value), DrawnForChain(all - 1, value), last, room);
    } else {
      RanOutLate(was, DrawnForChain(done, value), last, room);
    }
  }

  lemma SetFreed(t: Tree, key: Slice, value: Hash)
    requires key.offset < 8
    ensures t.Branch? && t.freed ==> SetTree(t, key, value) == Err(Sealed)
  {
  }

  lemma ChainIsExt(key: Slice, t: Tree)
    requires key.offset < 8
    ensures key.bits != [] ==> Chain(key, t).Ext?
  {
  }
}
