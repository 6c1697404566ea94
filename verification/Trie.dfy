/** The trie: a root reference, the root hash and the pool its nodes live in. */
module Trie {
  import opened Wrappers
  import opened Bits
  import opened Tree
  import opened SetSpec
  import opened DelSpec
  import opened SealSpec
  import opened Proof
  import opened Heap
  import opened DoubleFree
  import History
  import Answers
  import Memory
  import TrieSet
  import TrieDel
  import TrieSeal

  type Key = History.Key

  function Reversed<T>(s: seq<T>): seq<T> {
    if s == [] then [] else Reversed(s[1..]) + [s[0]]
  }

  lemma {:induction false} ReversedAppend<T>(s: seq<T>, x: T)
    ensures Reversed(s + [x]) == [x] + Reversed(s)
  {
    if s == [] {
      assert s + [x] == [x] && [x][1..] == [];
    } else {
      ReversedAppend(s[1..], x);
      assert (s + [x])[1..] == s[1..] + [x];
    }
  }

  /** Deletion finds nothing just where retrieval does, and then it does not panic. */
  lemma DelFinds(s: History.State, key: Key, cap: nat)
    requires History.Inv(s)
    ensures !DelPanicsIn(s, key) ==>
      StepIn(s, cap, History.OpDel(key)) == Some(if History.Del(s, key).Ok? then History.Del(s, key).value.0 else s)
    ensures History.Get(s, key) == Ok(None) <==> History.Del(s, key).Ok? && !History.Del(s, key).value.1
    ensures History.Get(s, key) == Ok(None) ==> !DelPanicsIn(s, key)
  {
    hide GetTree;
    hide DelTree;
    hide Resolve;
    Answers.DelFindsNothing(s, key);
  }

  /** The answer with the items for the nodes passed on the way, the root's first, put behind its own. */
  function Passed(r: Result<Answer, Error>, passed: seq<Item>): Result<Answer, Error> {
    match r
    case Ok(a) => Ok(a.(items := a.items + Reversed(passed)))
    case Err(e) => Err(e)
  }

  lemma PassedOne(r: Result<Answer, Error>, passed: seq<Item>, item: Item)
    ensures Passed(r, passed + [item]) ==
            Passed(match r case Ok(a) => Ok(a.(items := a.items + [item])) case Err(e) => Err(e), passed)
  {
    ReversedAppend(passed, item);
    if r.Ok? {
      assert r.value.items + ([item] + Reversed(passed)) == r.value.items + [item] + Reversed(passed);
    }
  }

  lemma PassedNone(r: Result<Answer, Error>)
    ensures Passed(r, []) == r
  {
    if r.Ok? {
      assert r.value.items + [] == r.value.items;
    }
  }

  /** What a node tells about a key: either that nothing is stored there or where to continue. */
  datatype Seen = Nothing(actual: Actual) | Onward(rest: Slice, item: Item, child: Ref)

  function Look(node: RawNode, key: Slice): Seen {
    match node
    case RawBranch(l, r) =>
      if key.bits == [] then Nothing(ActualBranch(OwnedOf(l), OwnedOf(r)))
      else if key.bits[0] then Onward(key.Drop(1), BranchItem(OwnedOf(l)), r)
      else Onward(key.Drop(1), BranchItem(OwnedOf(r)), l)
    case RawExt(e, c) =>
      if key.StartsWith(e) then Onward(key.Drop(|e.bits|), ExtItem(|e.bits|), c)
      else Nothing(ActualExt(|key.bits|, Some(e), OwnedOf(c)))
  }

  /** The subtrie a key continues to. */
  function Next(p: Placed, key: Slice): Placed {
    match p
    case PLeaf(_, _) => p
    case PBranch(_, l, r) => if key.bits != [] && key.bits[0] then r else l
    case PExt(_, _, c) => c
  }

  lemma NextWithin(p: Placed, key: Slice, live: Nodes)
    requires !p.PLeaf? && Separate(p) && Within(NodesOf(p), live)
    ensures Separate(Next(p, key)) && Within(NodesOf(Next(p, key)), live)
    ensures RefOf(p).ptr.Some? ==> RefOf(p).ptr.value in live && live[RefOf(p).ptr.value] == NodeOf(p)
  {
    PartsWithin(p, live);
  }

  lemma RefKinds(p: Placed)
    ensures RefOf(p).NodeRef? <==> !p.PLeaf?
    ensures RefOf(p).NodeRef? && RefOf(p).ptr.None? ==> p.PBranch? && p.ptr.None?
    ensures p.PLeaf? ==> RefOf(p) == ValueRef(p.isSealed, p.hash)
  {
  }

  lemma LookIsProof(p: Placed, d: nat, key: Slice, way: seq<Item>)
    requires !p.PLeaf? && RefOf(p).ptr.Some?
    requires WF(Shape(p), d) && key.offset == BitInByte(d)
    ensures match Look(NodeOf(p), key)
            case Nothing(actual) => ProveTree(Shape(p), key) == Ok(Answer(None, Some(actual), []))
            case Onward(rest, item, child) =>
              && |rest.bits| < |key.bits|
              && child == RefOf(Next(p, key))
              && rest.offset == BitInByte(d + |key.bits| - |rest.bits|)
              && WF(Shape(Next(p, key)), d + |key.bits| - |rest.bits|)
              && Passed(ProveTree(Shape(p), key), way) ==
                 Passed(ProveTree(Shape(Next(p, key)), rest), way + [item])
  {
    hide Passed;
    if p.PBranch? && key.bits != [] {
      BitInByteAdd(d, 1);
      PassedOne(ProveTree(Shape(Next(p, key)), key.Drop(1)), way,
                BranchItem(OwnedOf(RefOf(if key.bits[0] then p.left else p.right))));
    } else if p.PExt? && key.StartsWith(p.key) {
      BitInByteAdd(d, |p.key.bits|);
      PassedOne(ProveTree(Shape(p.child), key.Drop(|p.key.bits|)), way, ExtItem(|p.key.bits|));
    }
  }

  /** The answer together with its proof, if one was asked for. */
  function Reply(value: Option<Hash>, actual: Option<Actual>, passed: seq<Item>, includeProof: bool)
    : (Option<Hash>, Option<Proof>)
  {
    (value, if includeProof then Some(ProofOf(Answer(value, actual, Reversed(passed)))) else None)
  }

  function AsAsked(r: Result<Answer, Error>, includeProof: bool): Result<(Option<Hash>, Option<Proof>), Error> {
    match r
    case Ok(a) => Ok((a.value, if includeProof then Some(ProofOf(a)) else None))
    case Err(e) => Err(e)
  }

  lemma ReplyEnds(a: Answer, way: seq<Item>, passed: seq<Item>, includeProof: bool)
    requires a.items == [] && (includeProof ==> passed == way)
    ensures Ok(Reply(a.value, a.actual, passed, includeProof)) == AsAsked(Passed(Ok(a), way), includeProof)
  {
    assert [] + Reversed(way) == Reversed(way);
  }

  lemma FreedIsProof(p: Placed, key: Slice, way: seq<Item>, includeProof: bool)
    requires p.PBranch? && p.ptr.None?
    ensures AsAsked(Passed(ProveTree(Shape(p), key), way), includeProof) == Err(Sealed)
  {
  }

  lemma LeafIsProof(p: Placed, key: Slice, way: seq<Item>, passed: seq<Item>, includeProof: bool)
    requires includeProof ==> passed == way
    ensures p.PLeaf? ==>
      AsAsked(Passed(ProveTree(Shape(p), key), way), includeProof) ==
        if p.isSealed then Err(Sealed)
        else if key.bits != [] then Ok(Reply(None, Some(LookupKeyLeft(|key.bits|, p.hash)), passed, includeProof))
        else Ok(Reply(Some(p.hash), None, passed, includeProof))
  {
    if p.PLeaf? && !p.isSealed {
      if key.bits != [] {
        ReplyEnds(Answer(None, Some(LookupKeyLeft(|key.bits|, p.hash)), []), way, passed, includeProof);
      } else {
        ReplyEnds(Answer(Some(p.hash), None, []), way, passed, includeProof);
      }
    }
  }

  lemma AtRoot()
    ensures BitInByte(0) == 0
  {
  }

  class Trie {
    // Pointer to the root node; `None` if the trie is empty or the root has been sealed.
    var rootPtr: Option<Ptr>
    // Hash of the root node.
    var rootHash: Hash
    const alloc: Memory.Allocator<RawNode>

    // The trie and where its nodes are.
    ghost var root: Option<Placed>

    /** The blocks in use are exactly the nodes of the trie, each in a block of its own. */
    ghost predicate Valid()
      reads this, alloc
    {
      && alloc.Valid() && ChecksMarker(alloc)
      && match root
         case None => rootPtr == None && rootHash == EMPTY_TRIE_ROOT && alloc.Live() == map[]
         case Some(p) =>
           && WF(Shape(p), 0) && Separate(p) && alloc.Live() == NodesOf(p)
           && RefOf(p) == NodeRef(rootPtr, rootHash)
    }

    /** What the trie stands for. */
    ghost function State(): History.State
      reads this
    {
      match root
      case None => History.Empty
      case Some(p) => History.Root(Shape(p))
    }

    ghost function BlocksInUse(): nat
      reads this
    {
      BlocksOf(State())
    }

    /** Blocks in use and blocks that can still be handed out. */
    ghost function Capacity(): nat
      requires Valid()
      reads this, alloc
    {
      BlocksInUse() + alloc.Room()
    }

    constructor (alloc: Memory.Allocator<RawNode>)
      requires alloc.Valid() && alloc.Live() == map[] && ChecksMarker(alloc)
      ensures Valid() && State() == History.Empty && this.alloc == alloc
      ensures Capacity() == alloc.Room()
    {
      rootPtr, rootHash := None, EMPTY_TRIE_ROOT;
      root := None;
      this.alloc := alloc;
    }

    /** No leak and no sharing: there are as many blocks in use as nodes, the stored root hash is the hash of
        the trie and the state is well formed. */
    lemma {:induction false} Faithful()
      requires Valid()
      ensures History.Inv(State()) && rootHash == History.RootHash(State())
      ensures |alloc.Live()| == BlocksInUse()
    {
      if root.Some? {
        OneBlockPerNode(root.value);
      }
    }

    method IsEmpty() returns (r: bool)
      requires Valid()
      ensures r <==> State() == History.Empty
    {
      r := rootHash == EMPTY_TRIE_ROOT;
    }

    /** Looks a key up, collecting the proof of the answer on the way if asked to. */
    method GetImpl(key0: Key, includeProof: bool) returns (r: Result<(Option<Hash>, Option<Proof>), Error>)
      requires Valid()
      ensures r == match Prove(State(), key0)
                   case Ok((value, proof)) => Ok((value, if includeProof then Some(proof) else None))
                   case Err(e) => Err(e)
    {
      if FromBits(key0).None? {
        return Err(KeyTooLong);
      }
      if rootHash == EMPTY_TRIE_ROOT {
        return Ok((None, if includeProof then Some(Negative(None, [])) else None));
      }
      RootNodes(root.value);
      r := Walk(FromBits(key0).value, includeProof);
    }

    /** Follows a key down from the root. */
    method Walk(key0: Slice, includeProof: bool) returns (r: Result<(Option<Hash>, Option<Proof>), Error>)
      requires Valid() && root.Some? && key0.offset == 0
      ensures r == AsAsked(ProveTree(Shape(root.value), key0), includeProof)
    {
      hide BitInByte;
      hide NodesOf;
      hide Separate;
      hide HashOf;
      hide Reply;
      hide AsAsked;
      hide Passed;
      hide Look;
      hide ProveTree;
      hide WF;
      hide Next;
      hide Shape;
      hide RefOf;
      hide NodeOf;
      hide Within;
      hide Memory.Allocator.Valid;
      hide Memory.Allocator.Live;
      var key, passed, nodePtr := key0, [], rootPtr;
      ghost var p := root.value;
      ghost var d: nat := 0;
      ghost var want := ProveTree(Shape(p), key);
      ghost var way: seq<Item> := [];
      PassedNone(want);
      RefKinds(p);
      RootNodes(p);
      AtRoot();
      while true
        invariant key.offset == BitInByte(d) && WF(Shape(p), d)
        invariant !p.PLeaf? && RefOf(p).NodeRef? && RefOf(p).ptr == nodePtr
        invariant Separate(p) && Within(NodesOf(p), alloc.Live())
        invariant Passed(ProveTree(Shape(p), key), way) == want
        invariant includeProof ==> passed == way
        decreases |key.bits|
      {
        RefKinds(p);
        if nodePtr.None? {
          FreedIsProof(p, key, way, includeProof);
          return Err(Sealed);
        }
        NextWithin(p, key, alloc.Live());
        var node := alloc.Get(nodePtr.value);
        LookIsProof(p, d, key, way);
        var seen := Look(node, key);
        if seen.Nothing? {
          ReplyEnds(Answer(None, Some(seen.actual), []), way, passed, includeProof);
          return Ok(Reply(None, Some(seen.actual), passed, includeProof));
        }
        p, d := Next(p, key), d + |key.bits| - |seen.rest.bits|;
        key := seen.rest;
        way := way + [seen.item];
        if includeProof {
          passed := passed + [seen.item];
        }
        RefKinds(p);
        match seen.child {
          case NodeRef(ptr, _) =>
            nodePtr := ptr;
          case ValueRef(isSealed, hash) =>
            LeafIsProof(p, key, way, passed, includeProof);
            if isSealed {
              return Err(Sealed);
            } else if key.bits != [] {
              return Ok(Reply(None, Some(LookupKeyLeft(|key.bits|, hash)), passed, includeProof));
            } else {
              return Ok(Reply(Some(hash), None, passed, includeProof));
            }
        }
      }
    }

    method Get(key: Key) returns (r: Result<Option<Hash>, Error>)
      requires Valid()
      ensures r == History.Get(State(), key)
    {
      var found := GetImpl(key, false);
      if root.Some? && FromBits(key).Some? {
        ProveIsGet(Shape(root.value), Slice(0, key));
      }
      match found
      case Ok((value, _)) => r := Ok(value);
      case Err(e) => r := Err(e);
    }

    /** Every proof handed out is accepted by the verifier under the current root hash. */
    method ProveKey(key: Key) returns (r: Result<(Option<Hash>, Proof), Error>)
      requires Valid()
      ensures r == Prove(State(), key)
      ensures r.Ok? ==> Verify(r.value.1, rootHash, key, r.value.0) && History.Get(State(), key) == Ok(r.value.0)
    {
      var found := GetImpl(key, true);
      Faithful();
      match found
      case Ok((value, proof)) =>
        r := Ok((value, proof.value));
        Complete(State(), key);
      case Err(e) => r := Err(e);
    }

    method SetImpl(key: Key, value: Hash) returns (r: Result<(), Error>)
      requires Valid() && FromBits(key).Some?
      modifies this, alloc
      ensures r == Err(Panic) <==> SetPanicsIn(old(State()), key, value, old(alloc.Room()))
      ensures r != Err(Panic) ==> Valid() && Capacity() == old(Capacity())
      ensures match r
              case Ok(_) => History.Set(old(State()), key, value) == Ok(State())
              case Err(e) => e != Panic ==>
                && State() == old(State()) && alloc.Live() == old(alloc.Live())
                && (if e == OutOfMemory
                    then
                      && History.Set(old(State()), key, value).Ok?
                      && old(Capacity()) < BlocksOf(History.Set(old(State()), key, value).value)
                    else History.Set(old(State()), key, value) == Err(e))
    {
      hide BitInByte;
      hide Chain;
      hide Chunks;
      hide SetTree;
      hide History.Set;
      hide SetPanicsIn;
      hide DropPanics;
      hide Drawn;
      hide DrawnForChain;
      hide NodesOf;
      hide HashOf;
      hide Separate;
      hide ChecksMarker;
      hide Memory.Allocator.Valid;
      hide Memory.Allocator.Live;
      hide Memory.Allocator.Room;
      hide Memory.WriteLog.Valid;
      hide Memory.WriteLog.Pending;
      hide Memory.WriteLog.FreedMarks;
      hide Memory.WriteLog.DrawnMarks;
      var slice := FromBits(key).value;
      var ctx := new TrieSet.Context(alloc, slice, value);
      var ref;
      ghost var p: Placed;
      if root.Some? {
        RootNodes(root.value);
      }
      if rootPtr.Some? || rootHash != EMPTY_TRIE_ROOT {
        SetSummary(Shape(root.value), key, value, alloc.Room());
        ref, p := ctx.Set(rootPtr, rootHash, root.value);
      } else {
        SetFirstSummary(key, value, alloc.Room());
        ref, p := ctx.SetFirst();
      }
      match ref
      case Err(e) => r := Err(e);
      case Ok(NodeRef(ptr, hash)) =>
        rootPtr, rootHash, root := ptr, hash, Some(p);
        r := Ok(());
    }

    /** Stores a value.  A refused call changes nothing; memory runs out only when the updated trie needs more
        blocks than there are.  Then the call panics if a block drawn by then looks free. */
    method Set(key: Key, value: Hash) returns (r: Result<(), Error>)
      requires Valid()
      modifies this, alloc
      ensures r == Err(Panic) <==> SetPanicsIn(old(State()), key, value, old(alloc.Room()))
      ensures r != Err(Panic) ==> Valid() && Capacity() == old(Capacity())
      ensures r != Err(Panic) ==> StepIn(old(State()), old(Capacity()), History.OpSet(key, value)) == Some(State())
      ensures match r
              case Ok(_) => History.Set(old(State()), key, value) == Ok(State())
              case Err(e) => e != Panic ==>
                && State() == old(State()) && alloc.Live() == old(alloc.Live())
                && (if e == OutOfMemory
                    then
                      && History.Set(old(State()), key, value).Ok?
                      && old(Capacity()) < BlocksOf(History.Set(old(State()), key, value).value)
                    else History.Set(old(State()), key, value) == Err(e))
    {
      hide History.Set;
      hide SetPanicsIn;
      hide Memory.Allocator.Valid;
      hide Memory.Allocator.Live;
      hide Memory.Allocator.Room;
      SetTooLong(State(), key, value, alloc.Room());
      if FromBits(key).None? {
        return Err(KeyTooLong);
      }
      r := SetImpl(key, value);
    }

    /** Deletes a key; tells whether it was there.  Deletion never runs out of memory, however full the pool,
        and never uses more blocks than before.  It panics just when a block freed for good looks free. */
    method Del(key: Key) returns (r: Result<bool, Error>)
      requires Valid()
      modifies this, alloc
      ensures r == Err(Panic) <==> DelPanicsIn(old(State()), key)
      ensures r != Err(Panic) ==> Valid() && Capacity() == old(Capacity()) && BlocksInUse() <= old(BlocksInUse())
      ensures r != Err(Panic) ==> StepIn(old(State()), old(Capacity()), History.OpDel(key)) == Some(State())
      ensures match r
              case Ok(removed) => History.Del(old(State()), key) == Ok((State(), removed))
              case Err(e) => e != Panic ==> History.Del(old(State()), key) == Err(e) && e != OutOfMemory
      ensures r == Ok(false) <==> History.Get(old(State()), key) == Ok(None)
      ensures r != Ok(true) && r != Err(Panic) ==> State() == old(State()) && alloc.Live() == old(alloc.Live())
    {
      hide DelPanics;
      hide ChecksMarker;
      hide Separate;
      hide Memory.WriteLog.Valid;
      hide Memory.WriteLog.Pending;
      hide Memory.WriteLog.FreedMarks;
      hide Memory.WriteLog.DrawnMarks;
      hide BitInByte;
      hide DelTree;
      hide History.Get;
      hide GetTree;
      hide WF;
      hide StepIn;
      hide HashOf;
      hide IsSealed;
      hide Resolve;
      hide NodesOf;
      hide Memory.Allocator.Valid;
      hide Memory.Allocator.Live;
      hide Memory.Allocator.Room;
      DelFinds(State(), key, Capacity());
      if FromBits(key).None? {
        return Err(KeyTooLong);
      }
      var slice := FromBits(key).value;
      var ctx := new TrieDel.Context(alloc, slice);
      var res;
      ghost var p: Option<Placed>;
      res, p := ctx.Del(rootPtr, rootHash, root);
      if root.Some? {
        DelSummary(Shape(root.value), slice);
      }
      match res
      case Ok(child) =>
        rootPtr := if child.Some? then child.value.ptr else None;
        rootHash := if child.Some? then child.value.hash else EMPTY_TRIE_ROOT;
        root := p;
        r := Ok(true);
      case Err(NotFound) => r := Ok(false);
      case Err(e) => r := Err(e);
    }

    method SealImpl(key: Key) returns (r: Result<(), Error>)
      requires Valid() && root.Some? && FromBits(key).Some?
      modifies this, alloc
      ensures r == Err(Panic) <==> SealPanicsIn(old(State()), key)
      ensures r != Err(Panic) ==> Valid() && Capacity() == old(Capacity()) && rootHash == old(rootHash)
      ensures r != Err(Panic) ==> BlocksInUse() <= old(BlocksInUse())
      ensures match r
              case Ok(_) => History.Seal(old(State()), key) == Ok(State())
              case Err(e) => e != Panic ==>
                && History.Seal(old(State()), key) == Err(e) && State() == old(State())
                && alloc.Live() == old(alloc.Live())
    {
      hide BitInByte;
      hide SealTree;
      var slice := FromBits(key).value;
      RootNodes(root.value);
      var ctx := new TrieSeal.Context(alloc, slice);
      var removed;
      ghost var p: Placed;
      removed, p := ctx.Seal(NodeRef(rootPtr, rootHash), root.value, 0);
      match removed
      case Err(e) => r := Err(e);
      case Ok(gone) =>
        SealShape(Shape(root.value), 0, slice, 0);
        ReplacedAll(NodesOf(root.value), NodesOf(p), alloc.Live());
        root := Some(p);
        if gone {
          rootPtr := None;
        }
        r := Ok(());
    }

    /** Seals a key.  The root hash stays the same and no block is drawn.  It panics just when a Branch that
        becomes sealed looks free. */
    method Seal(key: Key) returns (r: Result<(), Error>)
      requires Valid()
      modifies this, alloc
      ensures r == Err(Panic) <==> SealPanicsIn(old(State()), key)
      ensures r != Err(Panic) ==> Valid() && Capacity() == old(Capacity()) && rootHash == old(rootHash)
      ensures r != Err(Panic) ==> BlocksInUse() <= old(BlocksInUse())
      ensures r != Err(Panic) ==> StepIn(old(State()), old(Capacity()), History.OpSeal(key)) == Some(State())
      ensures match r
              case Ok(_) => History.Seal(old(State()), key) == Ok(State())
              case Err(e) => e != Panic ==>
                && History.Seal(old(State()), key) == Err(e) && State() == old(State())
                && alloc.Live() == old(alloc.Live())
    {
      if rootHash == EMPTY_TRIE_ROOT {
        return Err(NotFound);
      }
      if FromBits(key).None? {
        return Err(KeyTooLong);
      }
      r := SealImpl(key);
    }

    /** Stores a value and seals it at once.  Sealing cannot fail once the value is stored, so a refused call
        changes nothing. */
    method SetAndSeal(key: Key, value: Hash) returns (r: Result<(), Error>)
      requires Valid()
      modifies this, alloc
      ensures r == Err(Panic) <==> StepIn(old(State()), old(Capacity()), History.OpSetAndSeal(key, value)) == None
      ensures r != Err(Panic) ==> Valid() && Capacity() == old(Capacity())
      ensures r != Err(Panic) ==>
        StepIn(old(State()), old(Capacity()), History.OpSetAndSeal(key, value)) == Some(State())
      ensures r != Err(OutOfMemory) && r != Err(Panic) ==>
        History.SetAndSeal(old(State()), key, value) == (State(), r)
      ensures r.Err? && r.error != Panic ==> State() == old(State()) && alloc.Live() == old(alloc.Live())
    {
      hide History.Set;
      hide History.Seal;
      hide SetPanicsIn;
      hide SealPanicsIn;
      hide Memory.Allocator.Valid;
      hide Memory.Allocator.Live;
      hide Memory.Allocator.Room;
      Faithful();
      ghost var before := State();
      SealAfterSet(before, key, value);
      SetTooLong(before, key, value, alloc.Room());
      if FromBits(key).None? {
        return Err(KeyTooLong);
      }
      r := SetImpl(key, value);
      if r.Err? {
        return;
      }
      r := SealImpl(key);
      assert r.Ok? ==> r.value == ();
    }
  }

  lemma SetTooLong(s: History.State, key: Key, value: Hash, room: nat)
    ensures FromBits(key).None? ==> History.Set(s, key, value) == Err(KeyTooLong)
    ensures History.Set(s, key, value).Err? ==> !SetPanicsIn(s, key, value, room)
  {
  }

  lemma SetSummary(t: Tree, key: Key, value: Hash, room: nat)
    requires WF(t, 0) && FromBits(key).Some?
    ensures var r := SetTree(t, Slice(0, key), value);
      && History.Set(History.Root(t), key, value) == (match r case Ok(t') => Ok(History.Root(t')) case Err(e) => Err(e))
      && (r.Ok? ==>
            && WF(r.value, 0) && !r.value.Leaf? && !IsSealed(r.value)
            && BlocksOf(History.Root(r.value)) == Blocks(r.value)
            && Blocks(r.value) == Blocks(t) + |Drawn(t, Slice(0, key), value)|)
      && (r.Err? ==> r.error != OutOfMemory)
      && (SetPanicsIn(History.Root(t), key, value, room) <==> r.Ok? && DropPanics(Drawn(t, Slice(0, key), value), room))
  {
    History.SetMeaning(History.Root(t), key, value);
    if SetTree(t, Slice(0, key), value).Ok? {
      SetShape(t, 0, Slice(0, key), value, 0);
      DrawnAreNew(t, Slice(0, key), value);
    } else {
      SetErrors(t, Slice(0, key), value);
    }
  }

  lemma SetFirstSummary(key: Key, value: Hash, room: nat)
    requires FromBits(key).Some?
    ensures SetPanicsIn(History.Empty, key, value, room) <==>
            key != [] && DropPanics(DrawnForChain(Chunks(Slice(0, key)), value), room)
    ensures key == [] ==> History.Set(History.Empty, key, value) == Err(EmptyKey)
    ensures key != [] ==>
      var t := Chain(Slice(0, key), Leaf(value, false));
      && History.Set(History.Empty, key, value) == Ok(History.Root(t))
      && WF(t, 0) && !t.Leaf? && !IsSealed(t)
      && BlocksOf(History.Root(t)) == Blocks(t) == Chunks(Slice(0, key))
  {
    if key != [] {
      ChainShape(Slice(0, key), Leaf(value, false), 0, 0);
      ChainBlocks(Slice(0, key), Leaf(value, false));
    }
  }

  lemma SealAfterSet(s: History.State, key: Key, value: Hash)
    requires History.Inv(s)
    ensures FromBits(key).None? ==> History.Set(s, key, value) == Err(KeyTooLong)
    ensures History.Set(s, key, value).Ok? ==>
      var mid := History.Set(s, key, value).value;
      mid.Root? && History.Seal(mid, key).Ok?
    ensures History.SetAndSeal(s, key, value) ==
      match History.Set(s, key, value)
      case Err(e) => (s, Err(e))
      case Ok(mid) => (match History.Seal(mid, key) case Ok(s') => (s', Ok(())) case Err(e) => (mid, Err(e)))
  {
    History.SetMeaning(s, key, value);
    if History.Set(s, key, value).Ok? {
      History.SealFresh(History.Set(s, key, value).value, History.EntriesOf(s), key, value);
    }
  }

  lemma DelSummary(t: Tree, key: Slice)
    requires WF(t, 0) && key.offset == 0
    ensures var r := DelTree(t, key);
      && (r.Err? ==> r.error == Sealed || r.error == NotFound)
      && (r.Ok? && Resolve(r.value).Some? ==>
            var t' := Resolve(r.value).value;
            WF(t', 0) && !t'.Leaf? && Blocks(t') <= Blocks(t))
  {
    DelShape(t, 0, key, 0);
    if DelTree(t, key).Ok? {
      DelCredit(t, 0, key);
      ResolveShape(DelTree(t, key).value, 0, 0);
      var a := DelTree(t, key).value;
      if a.ActExt? {
        ChainBlocks(a.key, a.child);
      }
    }
  }
}
