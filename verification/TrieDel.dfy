/** Deletion from the trie in memory. */
module TrieDel {
  import opened Wrappers
  import opened Bits
  import opened Tree
  import opened SetSpec
  import opened DelSpec
  import opened DoubleFree
  import opened Heap
  import opened TrieSet
  import Memory

  /** What a parent has to do about a subtrie it followed. */
  datatype Todo = Drop | Extend(key: Slice, child: Ref) | Replace(ref: Ref)

  /** The same with the blocks of the remaining nodes. */
  datatype PlacedTodo = PDrop | PExtend(key: Slice, child: Placed) | PReplace(p: Placed)

  function ActionOf(t: PlacedTodo): Action {
    match t
    case PDrop => ActDrop
    case PExtend(k, c) => ActExt(k, Shape(c))
    case PReplace(p) => ActRef(Shape(p))
  }

  function TodoOf(t: PlacedTodo): Todo {
    match t
    case PDrop => Drop
    case PExtend(k, c) => Extend(k, RefOf(c))
    case PReplace(p) => Replace(RefOf(p))
  }

  function NodesLeft(t: PlacedTodo): Nodes {
    match t
    case PDrop => map[]
    case PExtend(_, c) => NodesOf(c)
    case PReplace(p) => NodesOf(p)
  }

  predicate SeparateTodo(t: PlacedTodo) {
    match t
    case PDrop => true
    case PExtend(_, c) => Separate(c)
    case PReplace(p) => Separate(p)
  }

  lemma BranchKeys(p: Placed)
    requires p.PBranch? && p.ptr.Some?
    ensures NodesOf(p).Keys == NodesOf(p.left).Keys + NodesOf(p.right).Keys + {p.ptr.value}
  {
  }

  /** A Branch left with one child, its own block free again. */
  lemma BranchDropped(before: Nodes, p: Placed, right: bool, mid: Nodes)
    requires p.PBranch? && p.ptr.Some? && Separate(p) && Within(NodesOf(p), before)
    requires Replaced(before, NodesOf(if right then p.right else p.left), map[], mid)
    ensures var other := if right then p.left else p.right;
      && p.ptr.value in mid
      && Replaced(before, NodesOf(p), NodesOf(other), mid - {p.ptr.value})
      && Within(NodesOf(other), mid - {p.ptr.value})
      && mid[p.ptr.value] == NodeOf(p)
  {
    hide NodesOf;
    PartsWithin(p, before);
    var at := p.ptr.value;
    var us, other := NodesOf(if right then p.right else p.left), NodesOf(if right then p.left else p.right);
    BranchKeys(p);
    assert mid == before - us.Keys;
    assert mid - {at} == (before - (us.Keys + other.Keys + {at})) + other;
  }

  /** An Extension whose block is freed before its child is looked at. */
  lemma ExtDropped(before: Nodes, p: Placed)
    requires p.PExt? && Separate(p) && Within(NodesOf(p), before)
    ensures p.at in before && before[p.at] == NodeOf(p) && Within(NodesOf(p.child), before - {p.at})
    ensures before - {p.at} - NodesOf(p.child).Keys == before - NodesOf(p).Keys
  {
    PartsWithin(p, before);
  }

  /** The Extension on top of what replaces a subtrie is taken away. */
  lemma ExtPopped(before: Nodes, old_: Nodes, p: Placed, mid: Nodes)
    requires p.PExt? && Separate(p) && Replaced(before, old_, NodesOf(p), mid)
    ensures p.at in mid && mid[p.at] == NodeOf(p) && Replaced(before, old_, NodesOf(p.child), mid - {p.at})
  {
    assert mid - {p.at} == (before - old_.Keys) + NodesOf(p.child);
  }

  /** The outcome of deleting the key below `p`.  Every node that is gone is on the list of freed blocks; marked
      are those of them, first `was` and now `marks`, that look free. */
  ghost predicate Deleted(
    p: Placed, key: Slice, before: Nodes, after: Nodes, was: seq<bool>, marks: seq<bool>, r: Result<Todo, Error>,
    out: PlacedTodo)
    requires key.offset < 8
  {
    match r
    case Ok(todo) =>
      && DelTree(Shape(p), key) == Ok(ActionOf(out))
      && todo == TodoOf(out) && SeparateTodo(out)
      && Replaced(before, NodesOf(p), NodesLeft(out), after)
      && marks == was + Freed(Shape(p), key)
    case Err(e) => DelTree(Shape(p), key) == Err(e)
  }

  /** What a Branch turns into when its child on one side has turned into `below`. */
  ghost predicate BranchGives(p: Placed, side: bool, below: PlacedTodo, out: PlacedTodo, keyOffset: nat)
    requires p.PBranch? && keyOffset < 8 && (below.PExtend? ==> below.key.offset < 8)
  {
    var other := Shape(if side then p.left else p.right);
    match Resolve(ActionOf(below))
    case Some(c) => ActionOf(out) == ActRef(if side then Branch(false, other, c) else Branch(false, c, other))
    case None => Collapse(!side, other, keyOffset) == Ok(ActionOf(out))
  }

  lemma DelBranch(p: Placed, key: Slice, below: PlacedTodo, out: PlacedTodo)
    requires p.PBranch? && p.ptr.Some? && key.offset < 8 && key.bits != []
    requires DelTree(Shape(if key.bits[0] then p.right else p.left), key.Drop(1)) == Ok(ActionOf(below))
    requires BranchGives(p, key.bits[0], below, out, key.offset)
    ensures DelTree(Shape(p), key) == Ok(ActionOf(out))
  {
    hide BitInByte;
    hide Resolve;
    hide Collapse;
  }

  lemma FreedBranch(p: Placed, key: Slice)
    requires p.PBranch? && p.ptr.Some? && key.offset < 8 && key.bits != []
    ensures var us, other := if key.bits[0] then p.right else p.left, if key.bits[0] then p.left else p.right;
      Freed(Shape(p), key) ==
      FreedByBranch(LooksFree(Shape(p)), Shape(other), Freed(Shape(us), key.Drop(1)), DelTree(Shape(us), key.Drop(1)))
  {
  }

  lemma FreedThere(mark: bool, other: Tree, below: seq<bool>, a: Action)
    requires a.ActExt? ==> a.key.offset < 8
    ensures FreedByBranch(mark, other, below, Ok(a)) ==
            if a.ActDrop? then below + [mark] + if other.Ext? then [LooksFree(other)] else []
            else Unused(below, ActionChunks(a))
    ensures a.ActDrop? ==> Unused(below, ActionChunks(a)) == below
  {
  }

  lemma FreedBefore(was: seq<bool>, mark: bool, other: Tree, below: seq<bool>, a: Action)
    requires a.ActExt? ==> a.key.offset < 8
    requires ActionChunks(a) <= |below|
    ensures FreedByBranch(mark, other, was + below, Ok(a)) == was + FreedByBranch(mark, other, below, Ok(a))
  {
  }

  lemma BranchDeleted(
      p: Placed, key: Slice, before: Nodes, mid: Nodes, after: Nodes, was: seq<bool>, midMarks: seq<bool>,
      marks: seq<bool>, below: PlacedTodo, out: PlacedTodo)
    requires p.PBranch? && p.ptr.Some? && key.offset < 8 && key.bits != []
    requires var (us, other) := if key.bits[0] then (p.right, p.left) else (p.left, p.right);
      && Deleted(us, key.Drop(1), before, mid, was, midMarks, Ok(TodoOf(below)), below)
      && ActionChunks(ActionOf(below)) <= |midMarks| - |was|
      && marks == FreedByBranch(LooksFree(Shape(p)), Shape(other), midMarks, Ok(ActionOf(below)))
    requires SeparateTodo(out) && Replaced(before, NodesOf(p), NodesLeft(out), after)
    requires BranchGives(p, key.bits[0], below, out, key.offset)
    ensures Deleted(p, key, before, after, was, marks, Ok(TodoOf(out)), out)
  {
    hide BitInByte;
    hide Resolve;
    hide Collapse;
    hide DelTree;
    hide Freed;
    hide FreedByBranch;
    hide LooksFree;
    hide BranchGives;
    hide HashOf;
    hide NodesOf;
    hide Separate;
    hide Replaced;
    hide Shape;
    var (us, other) := if key.bits[0] then (p.right, p.left) else (p.left, p.right);
    FreedBranch(p, key);
    FreedBefore(was, LooksFree(Shape(p)), Shape(other), Freed(Shape(us), key.Drop(1)), ActionOf(below));
    DelBranch(p, key, below, out);
  }

  lemma BranchParts(p: Placed, d: nat)
    requires p.PBranch? && p.ptr.Some? && WF(Shape(p), d)
    ensures WF(Shape(p.left), d + 1) && WF(Shape(p.right), d + 1)
  {
  }

  lemma DelBranchFails(p: Placed, key: Slice)
    requires p.PBranch? && p.ptr.Some? && key.offset < 8
    ensures key.bits == [] ==> DelTree(Shape(p), key) == Err(NotFound)
    ensures key.bits != [] ==>
      var r := DelTree(Shape(if key.bits[0] then p.right else p.left), key.Drop(1));
      r.Err? ==> DelTree(Shape(p), key) == Err(r.error)
  {
  }

  /** What an Extension turns into, `below` being what its child has turned into. */
  function ExtGives(extKey: Slice, below: PlacedTodo): PlacedTodo
    requires below.PExtend? ==> Concat(extKey, below.key).Some?
  {
    match below
    case PDrop => PDrop
    case PReplace(p) => PExtend(extKey, p)
    case PExtend(suffix, c) => PExtend(Concat(extKey, suffix).value, c)
  }

  lemma ConcatFits(p: Placed, d: nat, key: Slice)
    requires p.PExt? && WF(Shape(p), d) && key.offset == BitInByte(d) && key.StartsWith(p.key)
    ensures var r := DelTree(Shape(p.child), key.Drop(|p.key.bits|));
      r.Ok? && r.value.ActExt? ==> Concat(p.key, r.value.key).Some?
  {
    DelShape(Shape(p), d, key, 0);
  }

  lemma ExtDeleted(
      p: Placed, d: nat, key: Slice, before: Nodes, after: Nodes, was: seq<bool>, marks: seq<bool>, below: PlacedTodo)
    requires p.PExt? && WF(Shape(p), d) && key.offset == BitInByte(d) && key.StartsWith(p.key)
    requires Separate(p) && Within(NodesOf(p), before)
    requires Deleted(p.child, key.Drop(|p.key.bits|), before - {p.at}, after, was + [LooksFree(Shape(p))], marks,
                     Ok(TodoOf(below)), below)
    ensures below.PExtend? ==> Concat(p.key, below.key).Some?
    ensures var out := ExtGives(p.key, below);
      Deleted(p, key, before, after, was, marks, Ok(TodoOf(out)), out)
  {
    hide BitInByte;
    hide LooksFree;
    hide HashOf;
    hide Separate;
    hide Within;
    hide NodesOf;
    hide WF;
    hide ActionWF;
    ConcatFits(p, d, key);
    ExtDropped(before, p);
    var rest := Freed(Shape(p.child), key.Drop(|p.key.bits|));
    assert was + [LooksFree(Shape(p))] + rest == was + ([LooksFree(Shape(p))] + rest);
  }

  lemma DelExtFails(p: Placed, key: Slice)
    requires p.PExt? && key.offset < 8
    ensures !key.StartsWith(p.key) ==> DelTree(Shape(p), key) == Err(NotFound)
    ensures key.StartsWith(p.key) ==>
      var r := DelTree(Shape(p.child), key.Drop(|p.key.bits|));
      r.Err? ==> DelTree(Shape(p), key) == Err(r.error)
  {
  }

  class Context {
    // Part of the key yet to be traversed.
    var key: Slice
    const wlog: Memory.WriteLog<RawNode>

    /** Deletion never draws a block from the pool. */
    ghost predicate Valid()
      reads this, wlog, wlog.alloc
    {
      wlog.Valid() && wlog.drawn == [] && key.offset < 8 && ChecksMarker(wlog.alloc)
    }

    constructor (alloc: Memory.Allocator<RawNode>, key: Slice)
      requires alloc.Valid() && key.offset < 8 && ChecksMarker(alloc)
      ensures Valid() && this.key == key
      ensures fresh(wlog) && wlog.alloc == alloc && wlog.initial == alloc.Live() == wlog.Pending()
      ensures wlog.room == alloc.Room() && wlog.freed == []
    {
      this.key := key;
      wlog := new Memory.WriteLog(alloc);
    }

    method SetNode(ptr: Ptr, node: RawNode) returns (r: Ref)
      requires Valid() && ptr in wlog.Pending()
      modifies wlog
      ensures Valid() && r == NodeRef(Some(ptr), NodeHashOf(node))
      ensures wlog.Pending() == old(wlog.Pending())[ptr := node] && wlog.FreedMarks() == old(wlog.FreedMarks())
    {
      wlog.Set(ptr, node);
      return NodeRef(Some(ptr), NodeHashOf(node));
    }

    method DelNode(ptr: Ptr)
      requires Valid() && ptr in wlog.Pending()
      modifies wlog
      ensures Valid() && wlog.Pending() == old(wlog.Pending()) - {ptr}
      ensures wlog.FreedMarks() == old(wlog.FreedMarks()) + [EndsInZero(old(wlog.Pending())[ptr])]
    {
      wlog.Free(ptr);
    }

    /** Puts a node into a block freed earlier in the same operation. */
    method AllocNode(node: RawNode) returns (r: Ref)
      requires Valid() && wlog.FreedMarks() != []
      modifies wlog, wlog.alloc
      ensures Valid() && wlog.FreedMarks() == old(wlog.FreedMarks())[..|old(wlog.FreedMarks())| - 1]
      ensures r.NodeRef? && r.ptr.Some? && r.hash == NodeHashOf(node)
      ensures r.ptr.value !in old(wlog.Pending())
      ensures wlog.Pending() == old(wlog.Pending())[r.ptr.value := node]
    {
      var ptr := wlog.Alloc(node);
      return NodeRef(Some(ptr.value), NodeHashOf(node));
    }

    /** Turns the outcome for a subtrie into a reference, building Extensions from the end of their key. */
    method RefFromAction(todo: Todo, ghost from: PlacedTodo, ghost before: Nodes, ghost old_: Nodes)
      returns (r: Option<Ref>, ghost out: Placed)
      requires Valid() && todo == TodoOf(from) && SeparateTodo(from)
      requires ActionOf(from).ActExt? ==> ActionOf(from).key.offset < 8
      requires ActionChunks(ActionOf(from)) <= |wlog.FreedMarks()|
      requires Within(old_, before) && Replaced(before, old_, NodesLeft(from), wlog.Pending())
      modifies wlog, wlog.alloc
      ensures Valid()
      ensures r.None? <==> Resolve(ActionOf(from)).None?
      ensures r.None? <==> from.PDrop?
      ensures r.None? ==> Replaced(before, old_, map[], wlog.Pending())
      ensures wlog.FreedMarks() == Unused(old(wlog.FreedMarks()), ActionChunks(ActionOf(from)))
      ensures r.Some? ==>
        && Some(Shape(out)) == Resolve(ActionOf(from)) && r.value == RefOf(out) && Separate(out)
        && Replaced(before, old_, NodesOf(out), wlog.Pending())
        && Blocks(Shape(out)) == ActionBlocks(ActionOf(from)) + ActionChunks(ActionOf(from))
    {
      hide BitInByte;
      hide Chain;
      hide Chunks;
      hide LastChunkStart;
      hide Memory.WriteLog.Valid;
      hide Memory.WriteLog.Pending;
      hide Memory.WriteLog.FreedMarks;
      hide ChecksMarker;
      match todo
      case Drop =>
        return None, PLeaf(0, false);
      case Replace(ref) =>
        return Some(ref), from.p;
      case Extend(key, c) =>
        var rest, child := key, c;
        out := from.child;
        while rest.bits != []
          invariant Valid() && rest.offset < 8
          invariant Chain(key, Shape(from.child)) == Chain(rest, Shape(out))
          invariant child == RefOf(out) && Separate(out)
          invariant Replaced(before, old_, NodesOf(out), wlog.Pending())
          invariant Chunks(rest) <= Chunks(key)
          invariant wlog.FreedMarks() == Unused(old(wlog.FreedMarks()), Chunks(key) - Chunks(rest))
          decreases |rest.bits|
        {
          var n := LastChunkStart(rest);
          ChainLast(rest, Shape(out));
          var chunk := rest.Drop(n);
          ghost var mid := wlog.Pending();
          child := AllocNode(RawExt(chunk, child));
          ExtOnTop(before, old_, out, mid, child.ptr.value, chunk);
          out := PExt(child.ptr.value, chunk, out);
          HashMatches(out);
          rest := rest.Take(n);
        }
        ChainEmpty(rest, Shape(out));
        ChainEmpty(key, Shape(from.child));
        return Some(child), out;
    }

    method HandleReference(child: Ref, ghost p: Placed, ghost d: nat)
      returns (r: Result<Todo, Error>, ghost out: PlacedTodo)
      requires Valid() && Facing(p, d, key, wlog.initial, wlog.Pending()) && child == RefOf(p)
      modifies this, wlog, wlog.alloc
      ensures Valid()
      ensures Deleted(p, old(key), old(wlog.Pending()), wlog.Pending(), old(wlog.FreedMarks()),
                      wlog.FreedMarks(), r, out)
      decreases p, 2
    {
      out := PDrop;
      match child
      case ValueRef(isSealed, _) =>
        if isSealed {
          r := Err(Sealed);
        } else if key.bits == [] {
          r := Ok(Drop);
        } else {
          r := Err(NotFound);
        }
      case NodeRef(_, _) =>
        r, out := Handle(child, p, d);
    }

    method Handle(nref: Ref, ghost p: Placed, ghost d: nat)
      returns (r: Result<Todo, Error>, ghost out: PlacedTodo)
      requires Valid() && Facing(p, d, key, wlog.initial, wlog.Pending()) && nref == RefOf(p) && nref.NodeRef?
      modifies this, wlog, wlog.alloc
      ensures Valid()
      ensures Deleted(p, old(key), old(wlog.Pending()), wlog.Pending(), old(wlog.FreedMarks()),
                      wlog.FreedMarks(), r, out)
      decreases p, 1
    {
      if nref.ptr.None? {
        return Err(Sealed), PDrop;
      }
      var ptr := nref.ptr.value;
      PartsWithin(p, wlog.initial);
      var node := wlog.alloc.Get(ptr);
      match node
      case RawBranch(left, right) =>
        r, out := HandleBranch(ptr, left, right, p, d);
      case RawExt(extKey, child) =>
        r, out := HandleExtension(ptr, extKey, child, p, d);
    }

    method HandleBranch(ptr: Ptr, left: Ref, right: Ref, ghost p: Placed, ghost d: nat)
      returns (r: Result<Todo, Error>, ghost out: PlacedTodo)
      requires Valid() && Facing(p, d, key, wlog.initial, wlog.Pending())
      requires p.PBranch? && p.ptr == Some(ptr) && NodeOf(p) == RawBranch(left, right)
      modifies this, wlog, wlog.alloc
      ensures Valid()
      ensures Deleted(p, old(key), old(wlog.Pending()), wlog.Pending(), old(wlog.FreedMarks()),
                      wlog.FreedMarks(), r, out)
      decreases p, 0
    {
      hide Freed;
      hide FreedByBranch;
      hide LooksFree;
      hide Replaced;
      hide BitInByte;
      hide Chain;
      hide Resolve;
      hide Collapse;
      hide Memory.WriteLog.Valid;
      hide Memory.WriteLog.Pending;
      hide Memory.WriteLog.FreedMarks;
      hide ChecksMarker;
      hide DelTree;
      hide Shape;
      hide BranchGives;
      hide NodesOf;
      hide Separate;
      hide HashOf;
      hide WF;
      hide Within;
      out := PDrop;
      var keyOffset := key.offset;
      DelBranchFails(p, key);
      if key.bits == [] {
        return Err(NotFound), PDrop;
      }
      ghost var before := wlog.Pending();
      ghost var was := wlog.FreedMarks();
      ghost var key0 := key;
      var side := key.bits[0];
      key := key.Drop(1);
      ghost var us, other := if side then p.right else p.left, if side then p.left else p.right;
      FacingSide(p, d, key0, wlog.initial, before);
      BranchParts(p, d);
      ghost var below: PlacedTodo;
      r, below := HandleReference(if side then right else left, us, d + 1);
      if r.Err? {
        return r, PDrop;
      }
      DelCredit(Shape(us), d + 1, key0.Drop(1));
      FreedAreGone(Shape(us), d + 1, key0.Drop(1));
      ghost var mid, midMarks := wlog.Pending(), wlog.FreedMarks();
      r, out := UpdateBranch(side, ptr, left, right, keyOffset, r.value, p, below, before, d);
      BranchDeleted(p, key0, before, mid, wlog.Pending(), was, midMarks, wlog.FreedMarks(), below, out);
    }

    /** The child on one side has been dealt with: the Branch takes up what replaced it or, when nothing did,
        gives way itself. */
    method UpdateBranch(
        side: bool, ptr: Ptr, left: Ref, right: Ref, keyOffset: nat, todo: Todo,
        ghost p: Placed, ghost below: PlacedTodo, ghost before: Nodes, ghost d: nat)
      returns (r: Result<Todo, Error>, ghost out: PlacedTodo)
      requires Valid() && keyOffset == BitInByte(d)
      requires p.PBranch? && p.ptr == Some(ptr) && NodeOf(p) == RawBranch(left, right)
      requires Separate(p) && Within(NodesOf(p), before) && Within(NodesOf(p), wlog.initial)
      requires WF(Shape(if side then p.left else p.right), d + 1)
      requires todo == TodoOf(below) && SeparateTodo(below)
      requires ActionOf(below).ActExt? ==> ActionOf(below).key.offset < 8
      requires ActionChunks(ActionOf(below)) <= |wlog.FreedMarks()|
      requires Replaced(before, NodesOf(if side then p.right else p.left), NodesLeft(below), wlog.Pending())
      modifies wlog, wlog.alloc
      ensures Valid() && r.Ok? && r.value == TodoOf(out) && SeparateTodo(out)
      ensures Replaced(before, NodesOf(p), NodesLeft(out), wlog.Pending())
      ensures BranchGives(p, side, below, out, keyOffset)
      ensures wlog.FreedMarks() ==
              FreedByBranch(LooksFree(Shape(p)), Shape(if side then p.left else p.right), old(wlog.FreedMarks()),
                            Ok(ActionOf(below)))
    {
      hide FreedByBranch;
      hide Unused;
      hide LooksFree;
      hide EndsInZero;
      hide HashOf;
      hide NodesOf;
      hide Separate;
      hide Within;
      hide Replaced;
      hide BitInByte;
      hide Resolve;
      hide Collapse;
      hide WF;
      hide Memory.WriteLog.Valid;
      hide Memory.WriteLog.Pending;
      hide Memory.WriteLog.FreedMarks;
      hide ChecksMarker;
      ghost var us, other := if side then p.right else p.left, if side then p.left else p.right;
      PartsWithin(p, before);
      PartsWithin(p, wlog.initial);
      FreedThere(LooksFree(Shape(p)), Shape(other), wlog.FreedMarks(), ActionOf(below));
      ghost var c: Placed;
      var child;
      child, c := RefFromAction(todo, below, before, NodesOf(us));
      if child.Some? {
        var node := if side then RawBranch(left, child.value) else RawBranch(child.value, right);
        BranchReplaced(before, p, side, c, wlog.Pending());
        HashMatches(WithChild(p, side, c));
        var ref := SetNode(ptr, node);
        return Ok(Replace(ref)), PReplace(WithChild(p, side, c));
      }
      BranchDropped(before, p, side, wlog.Pending());
      EndsLikeShape(p);
      DelNode(ptr);
      r, out := CollapseBranch(!side, if side then left else right, keyOffset, p, other, before, d);
    }

    /** The last step for a Branch that lost a child: an Extension over one bit, merged with the other child
        when that is an Extension itself. */
    method CollapseBranch(
        bit: bool, child: Ref, keyOffset: nat,
        ghost p: Placed, ghost other: Placed, ghost before: Nodes, ghost d: nat)
      returns (r: Result<Todo, Error>, ghost out: PlacedTodo)
      requires Valid() && keyOffset == BitInByte(d) && child == RefOf(other)
      requires WF(Shape(other), d + 1) && Separate(other) && Within(NodesOf(other), wlog.initial)
      requires Replaced(before, NodesOf(p), NodesOf(other), wlog.Pending())
      modifies wlog
      ensures Valid() && r.Ok?
      ensures Collapse(bit, Shape(other), keyOffset) == Ok(ActionOf(out))
      ensures r.value == TodoOf(out) && SeparateTodo(out)
      ensures Replaced(before, NodesOf(p), NodesLeft(out), wlog.Pending())
      ensures wlog.FreedMarks() ==
              old(wlog.FreedMarks()) + if Shape(other).Ext? then [LooksFree(Shape(other))] else []
    {
      CollapseShape(bit, Shape(other), d, 0);
      if child.NodeRef? && child.ptr.Some? {
        PartsWithin(other, wlog.initial);
        var node := wlog.alloc.Get(child.ptr.value);
        if node.RawExt? {
          ExtPopped(before, NodesOf(p), other, wlog.Pending());
          EndsLikeShape(other);
          DelNode(child.ptr.value);
          var key := ConcatBit(bit, node.key).value;
          return Ok(Extend(key, node.child)), PExtend(key, other.child);
        }
      }
      return Ok(Extend(Slice(keyOffset, [bit]), child)), PExtend(Slice(keyOffset, [bit]), other);
    }

    method HandleExtension(ptr: Ptr, extKey: Slice, child: Ref, ghost p: Placed, ghost d: nat)
      returns (r: Result<Todo, Error>, ghost out: PlacedTodo)
      requires Valid() && Facing(p, d, key, wlog.initial, wlog.Pending())
      requires p.PExt? && p.at == ptr && NodeOf(p) == RawExt(extKey, child)
      modifies this, wlog, wlog.alloc
      ensures Valid()
      ensures Deleted(p, old(key), old(wlog.Pending()), wlog.Pending(), old(wlog.FreedMarks()),
                      wlog.FreedMarks(), r, out)
      decreases p, 0
    {
      hide DelTree;
      hide Freed;
      hide LooksFree;
      hide HashOf;
      hide Separate;
      hide NodesOf;
      hide BitInByte;
      hide Memory.WriteLog.Valid;
      hide Memory.WriteLog.Pending;
      hide Memory.WriteLog.FreedMarks;
      hide ChecksMarker;
      out := PDrop;
      DelExtFails(p, key);
      if !key.StartsWith(extKey) {
        return Err(NotFound), PDrop;
      }
      ghost var before, was := wlog.Pending(), wlog.FreedMarks();
      key := key.Drop(|extKey.bits|);
      PartsWithin(p, wlog.initial);
      ExtDropped(before, p);
      EndsLikeShape(p);
      BitInByteAdd(d, |extKey.bits|);
      DelNode(ptr);
      ghost var below: PlacedTodo;
      r, below := HandleReference(child, p.child, d + |extKey.bits|);
      if r.Err? {
        return r, PDrop;
      }
      ExtDeleted(p, d, old(key), before, wlog.Pending(), was, wlog.FreedMarks(), below);
      out := ExtGives(extKey, below);
      match r.value
      case Drop => r := Ok(Drop);
      case Replace(ref) => r := Ok(Extend(extKey, ref));
      case Extend(suffix, c) => r := Ok(Extend(Concat(extKey, suffix).value, c));
    }

    /** The whole operation.  On success the pool holds the remaining trie and nothing else; otherwise it is
        as before.  Memory cannot run out.  It panics just when a block to be freed looks free. */
    method Del(rootPtr: Option<Ptr>, rootHash: Hash, ghost root: Option<Placed>)
      returns (r: Result<Option<Ref>, Error>, ghost out: Option<Placed>)
      requires Valid() && wlog.freed == [] && key.offset == 0
      requires wlog.Pending() == wlog.initial == (if root.Some? then NodesOf(root.value) else map[])
      requires root.Some? ==>
        WF(Shape(root.value), 0) && Separate(root.value) && RefOf(root.value) == NodeRef(rootPtr, rootHash)
      requires root.None? ==> rootHash == EMPTY_TRIE_ROOT
      modifies this, wlog, wlog.alloc
      ensures wlog.alloc.Valid()
      ensures r == Err(Panic) <==> root.Some? && DelPanics(Shape(root.value), old(key))
      ensures r.Err? && r.error != Panic ==> wlog.alloc.Live() == wlog.initial && wlog.alloc.Room() == wlog.room
      ensures root.None? ==> r == Err(NotFound)
      ensures root.Some? && r.Err? && r.error != Panic ==> DelTree(Shape(root.value), old(key)) == Err(r.error)
      ensures r.Ok? && root.Some? ==>
        && DelTree(Shape(root.value), old(key)).Ok?
        && (match out case Some(p) => Some(Shape(p)) case None => None)
           == Resolve(DelTree(Shape(root.value), old(key)).value)
        && r.value == (match out case Some(p) => Some(RefOf(p)) case None => None)
        && wlog.alloc.Live() == (if out.Some? then NodesOf(out.value) else map[])
        && (out.Some? ==> Separate(out.value))
        && wlog.alloc.Room() + (if out.Some? then Blocks(Shape(out.value)) else 0)
           == wlog.room + Blocks(Shape(root.value))
    {
      hide DelTree;
      hide Freed;
      hide ChecksMarker;
      hide HashOf;
      hide Separate;
      hide Memory.WriteLog.Valid;
      hide Memory.WriteLog.Pending;
      hide Memory.WriteLog.FreedMarks;
      hide BitInByte;
      hide NodesOf;
      hide Resolve;
      out := None;
      if rootHash == EMPTY_TRIE_ROOT {
        if root.Some? {
          RootNodes(root.value);
        }
        var dropped := wlog.Drop();
        return Err(NotFound), None;
      }
      ghost var before := wlog.Pending();
      RootNodes(root.value);
      ghost var below: PlacedTodo;
      var todo;
      todo, below := Handle(NodeRef(rootPtr, rootHash), root.value, 0);
      DelShape(Shape(root.value), 0, old(key), 0);
      if todo.Err? {
        var dropped := wlog.Drop();
        return Err(todo.error), None;
      }
      DelCredit(Shape(root.value), 0, old(key));
      FreedAreGone(Shape(root.value), 0, old(key));
      assert wlog.FreedMarks() == Freed(Shape(root.value), old(key));
      ghost var p: Placed;
      var child;
      child, p := RefFromAction(todo.value, below, before, before);
      ReplacedAll(before, if child.Some? then NodesOf(p) else map[], wlog.Pending());
      var ok := wlog.Commit();
      if !ok {
        return Err(Panic), None;
      }
      r := Ok(child);
      out := if child.Some? then Some(p) else None;
    }
  }
}
