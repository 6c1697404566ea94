/** Sealing in memory.  Nothing is written before the whole key has been followed, so the pool is changed
    directly. */
module TrieSeal {
  import opened Wrappers
  import opened Bits
  import opened Tree
  import opened SealSpec
  import opened DoubleFree
  import opened Heap
  import Memory

  /** A sealed subtrie occupies no blocks. */
  lemma {:induction false} SealedIsGone(p: Placed, d: nat)
    requires WF(Shape(p), d) && IsSealed(Shape(p))
    ensures NodesOf(p) == map[]
  {
    hide BitInByte;
    match p
    case PLeaf(_, _) =>
    case PBranch(_, l, r) =>
      SealedIsGone(l, d + 1);
      SealedIsGone(r, d + 1);
  }

  /** The outcome of sealing below `p`: the nodes of `p` have been replaced, hashes are as before, and the
      blocks freed are back in the pool.  A refused call changes nothing. */
  ghost predicate Sealing(p: Placed, key: Slice, before: Nodes, after: Nodes, freed: int, r: Result<bool, Error>, out: Placed)
  {
    match r
    case Ok(removed) =>
      && SealTree(Shape(p), key) == Ok(Shape(out)) && Separate(out)
      && Replaced(before, NodesOf(p), NodesOf(out), after)
      && RefOf(out) == (if removed then NodeRef(None, RefOf(p).hash) else RefOf(p))
      && freed == Blocks(Shape(p)) - Blocks(Shape(out))
    case Err(e) => SealTree(Shape(p), key) == Err(e) && after == before && freed == 0
  }

  class Context {
    // Part of the key yet to be traversed.
    var key: Slice
    const alloc: Memory.Allocator<RawNode>

    ghost predicate Valid()
      reads this, alloc
    {
      alloc.Valid() && key.offset < 8 && ChecksMarker(alloc)
    }

    constructor (alloc: Memory.Allocator<RawNode>, key: Slice)
      requires alloc.Valid() && key.offset < 8 && ChecksMarker(alloc)
      ensures Valid() && this.alloc == alloc && this.key == key
    {
      this.alloc := alloc;
      this.key := key;
    }

    /** Seals below a node; tells whether the node itself has been freed.  It panics just when a Branch to be freed
        looks free. */
    method Seal(nref: Ref, ghost p: Placed, ghost d: nat) returns (r: Result<bool, Error>, ghost out: Placed)
      requires Valid() && Facing(p, d, key, alloc.Live(), alloc.Live()) && nref == RefOf(p) && nref.NodeRef?
      modifies this, alloc
      ensures Valid() && (r == Err(Panic) <==> SealPanics(Shape(p), old(key)))
      ensures r != Err(Panic) ==>
        Sealing(p, old(key), old(alloc.Live()), alloc.Live(), alloc.Room() - old(alloc.Room()), r, out)
      decreases p, 1
    {
      if nref.ptr.None? {
        return Err(Sealed), p;
      }
      var ptr := nref.ptr.value;
      PartsWithin(p, alloc.Live());
      var node := alloc.Get(ptr);
      match node
      case RawBranch(left, right) =>
        r, out := SealBranch(ptr, left, right, p, d);
      case RawExt(extKey, child) =>
        r, out := SealExtension(ptr, extKey, child, p, d);
    }

    method SealBranch(ptr: Ptr, left: Ref, right: Ref, ghost p: Placed, ghost d: nat)
      returns (r: Result<bool, Error>, ghost out: Placed)
      requires Valid() && Facing(p, d, key, alloc.Live(), alloc.Live())
      requires p.PBranch? && p.ptr == Some(ptr) && NodeOf(p) == RawBranch(left, right)
      modifies this, alloc
      ensures Valid() && (r == Err(Panic) <==> SealPanics(Shape(p), old(key)))
      ensures r != Err(Panic) ==>
        Sealing(p, old(key), old(alloc.Live()), alloc.Live(), alloc.Room() - old(alloc.Room()), r, out)
      decreases p, 0
    {
      hide SealPanics;
      hide LooksFree;
      hide ChecksMarker;
      hide BitInByte;
      hide Memory.Allocator.Valid;
      hide Memory.Allocator.Live;
      hide Memory.Allocator.Room;
      hide NodesOf;
      hide HashOf;
      hide Separate;
      hide SealTree;
      out := p;
      SealBranchFails(p, key);
      if key.bits == [] {
        return Err(NotFound), p;
      }
      ghost var before := alloc.Live();
      FacingSide(p, d, key, before, before);
      var side := key.bits[0];
      key := key.Drop(1);
      ghost var us, other := if side then p.right else p.left, if side then p.left else p.right;
      var child;
      ghost var c: Placed;
      child, c := SealChild(if side then right else left, us, d + 1);
      if child.Err? {
        return Err(child.error), p;
      }
      r, out := UpdateBranch(side, ptr, left, right, child.value, p, c, before, old(key), d);
    }

    /** The child on one side has been sealed; a Branch whose other child is sealed as well is freed. */
    method UpdateBranch(
        side: bool, ptr: Ptr, left: Ref, right: Ref, child: Option<Ref>,
        ghost p: Placed, ghost c: Placed, ghost before: Nodes, ghost key0: Slice, ghost d: nat)
      returns (r: Result<bool, Error>, ghost out: Placed)
      requires Valid() && p.PBranch? && p.ptr == Some(ptr) && NodeOf(p) == RawBranch(left, right)
      requires WF(Shape(p), d) && Separate(p) && Within(NodesOf(p), before) && Separate(c)
      requires key0.offset == BitInByte(d) && key0.bits != [] && side == key0.bits[0]
      requires SealTree(Shape(if side then p.right else p.left), key0.Drop(1)) == Ok(Shape(c))
      requires SealTree(Shape(p), key0).Ok?
      requires RefOf(c) == (if child.Some? then child.value else RefOf(if side then p.right else p.left))
      requires child.Some? <==> RefOf(c).IsSealed()
      requires Replaced(before, NodesOf(if side then p.right else p.left), NodesOf(c), alloc.Live())
      modifies alloc
      ensures Valid()
      ensures if IsSealed(SealTree(Shape(p), key0).value) && LooksFree(Shape(p)) then r == Err(Panic) else r.Ok?
      ensures r.Ok? ==>
        && SealTree(Shape(p), key0) == Ok(Shape(out)) && Separate(out)
        && Replaced(before, NodesOf(p), NodesOf(out), alloc.Live())
        && RefOf(out) == (if r.value then NodeRef(None, RefOf(p).hash) else RefOf(p))
        && alloc.Room() + Blocks(Shape(out)) ==
           old(alloc.Room()) + 1 + Blocks(Shape(c)) + Blocks(Shape(if side then p.left else p.right))
    {
      hide SealPanics;
      hide LooksFree;
      hide BitInByte;
      hide SealTree;
      hide Memory.Allocator.Valid;
      hide Memory.Allocator.Live;
      hide Memory.Allocator.Room;
      hide HashOf;
      ghost var other := if side then p.left else p.right;
      ghost var updated := WithChild(p, side, c);
      SealBranchOutcome(p, key0, d, c);
      SealedOf(other);
      SealedOf(c);
      BranchReplaced(before, p, side, c, alloc.Live());
      if child.None? {
        BranchUntouched(before, p, side, c, alloc.Live());
        return Ok(false), updated;
      }
      if (if side then left else right).IsSealed() {
        SealedIsGone(c, d + 1);
        SealedIsGone(other, d + 1);
        FreeBranch(before, p, side, c, alloc.Live());
        EndsLikeShape(p);
        var ok := alloc.Free(ptr);
        if !ok {
          return Err(Panic), p;
        }
        out := PBranch(None, updated.left, updated.right);
        assert NodesOf(out) == map[];
        return Ok(true), out;
      }
      alloc.Set(ptr, if side then RawBranch(left, child.value) else RawBranch(child.value, right));
      return Ok(false), updated;
    }

    method SealExtension(ptr: Ptr, extKey: Slice, child: Ref, ghost p: Placed, ghost d: nat)
      returns (r: Result<bool, Error>, ghost out: Placed)
      requires Valid() && Facing(p, d, key, alloc.Live(), alloc.Live())
      requires p.PExt? && p.at == ptr && NodeOf(p) == RawExt(extKey, child)
      modifies this, alloc
      ensures Valid() && (r == Err(Panic) <==> SealPanics(Shape(p), old(key)))
      ensures r != Err(Panic) ==>
        Sealing(p, old(key), old(alloc.Live()), alloc.Live(), alloc.Room() - old(alloc.Room()), r, out)
      decreases p, 0
    {
      hide LooksFree;
      hide ChecksMarker;
      hide BitInByte;
      hide Memory.Allocator.Valid;
      hide Memory.Allocator.Live;
      hide Memory.Allocator.Room;
      out := p;
      if !key.StartsWith(extKey) {
        return Err(NotFound), p;
      }
      ghost var before := alloc.Live();
      key := key.Drop(|extKey.bits|);
      PartsWithin(p, before);
      BitInByteAdd(d, |extKey.bits|);
      var sealedChild;
      ghost var c: Placed;
      sealedChild, c := SealChild(child, p.child, d + |extKey.bits|);
      if sealedChild.Err? {
        return Err(sealedChild.error), p;
      }
      out := PExt(ptr, extKey, c);
      ExtReplaced(before, p, c, alloc.Live());
      assert SealTree(Shape(p), old(key)) == Ok(Shape(out));
      SealShape(Shape(p), d, old(key), 0);
      if sealedChild.value.None? {
        assert NodeOf(out) == NodeOf(p);
        ExtUntouched(before, p, c, alloc.Live());
        return Ok(false), out;
      }
      alloc.Set(ptr, RawExt(extKey, sealedChild.value.value));
      return Ok(false), out;
    }

    /** Seals below a reference; yields the reference to put in its place if it has to change. */
    method SealChild(child: Ref, ghost p: Placed, ghost d: nat)
      returns (r: Result<Option<Ref>, Error>, ghost out: Placed)
      requires Valid() && Facing(p, d, key, alloc.Live(), alloc.Live()) && child == RefOf(p)
      modifies this, alloc
      ensures Valid() && (r == Err(Panic) <==> SealPanics(Shape(p), old(key)))
      ensures match r
              case Ok(ref) =>
                && SealTree(Shape(p), old(key)) == Ok(Shape(out)) && Separate(out)
                && Replaced(old(alloc.Live()), NodesOf(p), NodesOf(out), alloc.Live())
                && RefOf(out) == (if ref.Some? then ref.value else RefOf(p))
                && (ref.Some? <==> RefOf(out).IsSealed())
                && alloc.Room() + Blocks(Shape(out)) == old(alloc.Room()) + Blocks(Shape(p))
              case Err(e) => e != Panic ==>
                && SealTree(Shape(p), old(key)) == Err(e)
                && alloc.Live() == old(alloc.Live()) && alloc.Room() == old(alloc.Room())
      decreases p, 2
    {
      out := p;
      match child
      case NodeRef(_, _) =>
        var removed;
        removed, out := Seal(child, p, d);
        match removed {
          case Err(e) => r := Err(e);
          case Ok(true) => r := Ok(Some(NodeRef(None, child.hash)));
          case Ok(false) => r := Ok(None);
        }
      case ValueRef(isSealed, hash) =>
        if isSealed {
          r := Err(Sealed);
        } else if key.bits == [] {
          r := Ok(Some(ValueRef(true, hash)));
          out := PLeaf(hash, true);
        } else {
          r := Err(NotFound);
        }
    }
  }

  lemma BranchUntouched(before: Nodes, p: Placed, side: bool, c: Placed, after: Nodes)
    requires p.PBranch? && p.ptr.Some? && Separate(p) && Within(NodesOf(p), before)
    requires Replaced(before, NodesOf(if side then p.right else p.left), NodesOf(c), after)
    ensures p.ptr.value in after && after[p.ptr.value] == NodeOf(p)
    ensures after[p.ptr.value := NodeOf(p)] == after
  {
    PartsWithin(p, before);
  }

  lemma ExtUntouched(before: Nodes, p: Placed, c: Placed, after: Nodes)
    requires p.PExt? && Separate(p) && Within(NodesOf(p), before)
    requires Replaced(before, NodesOf(p.child), NodesOf(c), after)
    ensures p.at in after && after[p.at] == NodeOf(p)
    ensures after[p.at := NodeOf(p)] == after
  {
    PartsWithin(p, before);
  }

  lemma FreeBranch(before: Nodes, p: Placed, side: bool, c: Placed, after: Nodes)
    requires p.PBranch? && p.ptr.Some? && Separate(p) && Within(NodesOf(p), before)
    requires NodesOf(c) == map[] && NodesOf(if side then p.left else p.right) == map[]
    requires Replaced(before, NodesOf(if side then p.right else p.left), NodesOf(c), after)
    ensures p.ptr.value in after && after[p.ptr.value] == NodeOf(p)
    ensures Replaced(before, NodesOf(p), map[], after - {p.ptr.value})
  {
    PartsWithin(p, before);
  }

  lemma SealBranchFails(p: Placed, key: Slice)
    requires p.PBranch? && p.ptr.Some?
    ensures key.bits == [] ==> SealTree(Shape(p), key) == Err(NotFound) && !SealPanics(Shape(p), key)
    ensures key.bits != [] ==>
      var side := Shape(if key.bits[0] then p.right else p.left);
      var r := SealTree(side, key.Drop(1));
      && (if r.Err? then SealTree(Shape(p), key) == Err(r.error) else SealTree(Shape(p), key).Ok?)
      && (SealPanics(Shape(p), key) <==>
            SealPanics(side, key.Drop(1))
            || (r.Ok? && IsSealed(SealTree(Shape(p), key).value) && LooksFree(Shape(p))))
  {
  }

  lemma SealBranchOutcome(p: Placed, key: Slice, d: nat, c: Placed)
    requires p.PBranch? && p.ptr.Some? && key.bits != [] && WF(Shape(p), d) && key.offset == BitInByte(d)
    requires SealTree(Shape(if key.bits[0] then p.right else p.left), key.Drop(1)) == Ok(Shape(c))
    ensures var other := Shape(if key.bits[0] then p.left else p.right);
      var freed := IsSealed(Shape(c)) && IsSealed(other);
      var t := if key.bits[0] then Branch(freed, other, Shape(c)) else Branch(freed, Shape(c), other);
      && SealTree(Shape(p), key) == Ok(t)
      && HashOf(t) == HashOf(Shape(p))
      && HashOf(Shape(WithChild(p, key.bits[0], c))) == HashOf(t)
      && HashOf(Shape(PBranch(None, WithChild(p, key.bits[0], c).left, WithChild(p, key.bits[0], c).right))) == HashOf(t)
      && WF(Shape(c), d + 1)
  {
    SealShape(Shape(p), d, key, 0);
    BitInByteAdd(d, 1);
    SealShape(Shape(if key.bits[0] then p.right else p.left), d + 1, key.Drop(1), 0);
    var w := WithChild(p, key.bits[0], c);
    assert ContentOf(Shape(w)) == ContentOf(SealTree(Shape(p), key).value);
    assert ContentOf(Shape(PBranch(None, w.left, w.right))) == ContentOf(SealTree(Shape(p), key).value);
  }
}
