/** The assertion of the allocator against double frees, as it shows in the trie.  A free block is told by its
    last 32 bytes, which are zero; a node whose last hash is zero looks the same, and freeing it panics. */
module DoubleFree {
  import opened Wrappers
  import opened Bits
  import opened Tree
  import opened SetSpec
  import opened DelSpec
  import opened SealSpec
  import opened History
  import CryptoHash

  /** The hash at the end of the block of a node is zero. */
  predicate LooksFree(t: Tree) {
    match t
    case Leaf(_, _) => false
    case Branch(_, _, r) => HashOf(r) == CryptoHash.ZERO
    case Ext(_, c) => HashOf(c) == CryptoHash.ZERO
  }

  // ----- which of the blocks an operation frees look free

  /** Blocks freed last are used again first. */
  function Unused(marks: seq<bool>, n: nat): seq<bool> {
    if n <= |marks| then marks[..|marks| - n] else []
  }

  /** For the blocks deletion has freed below `t` and not used again, in the order they were freed: which look
      free. */
  function Freed(t: Tree, key: Slice): seq<bool>
    requires key.offset < 8
  {
    match t
    case Leaf(_, _) => []
    case Branch(freed, l, r) =>
      if freed || key.bits == [] then []
      else
        var other := if key.bits[0] then l else r;
        FreedByBranch(LooksFree(t), other, Freed(if key.bits[0] then r else l, key.Drop(1)),
                      DelTree(if key.bits[0] then r else l, key.Drop(1)))
    case Ext(e, c) =>
      if key.StartsWith(e) then [LooksFree(t)] + Freed(c, key.Drop(|e.bits|)) else []
  }

  /** A Branch uses freed blocks for the Extensions its child has turned into, or is freed with what it merges
      with. */
  function FreedByBranch(mark: bool, other: Tree, below: seq<bool>, r: Result<Action, Error>): seq<bool>
    requires r.Ok? && r.value.ActExt? ==> r.value.key.offset < 8
  {
    match r
    case Err(_) => []
    case Ok(ActDrop) => below + [mark] + if other.Ext? then [LooksFree(other)] else []
    case Ok(action) => Unused(below, ActionChunks(action))
  }

  predicate DelPanics(t: Tree, key: Slice)
    requires key.offset < 8
  {
    match DelTree(t, key)
    case Err(_) => false
    case Ok(action) => true in Unused(Freed(t, key), ActionChunks(action))
  }

  /** Sealing frees each Branch on the way that becomes sealed. */
  predicate SealPanics(t: Tree, key: Slice) {
    match t
    case Leaf(_, _) => false
    case Branch(freed, l, r) =>
      && !freed && key.bits != []
      && (SealPanics(if key.bits[0] then r else l, key.Drop(1))
          || (SealTree(t, key).Ok? && IsSealed(SealTree(t, key).value) && LooksFree(t)))
    case Ext(e, c) => key.StartsWith(e) && SealPanics(c, key.Drop(|e.bits|))
  }

  /** For the blocks drawn to store a value under a key of `n` chunks, the last chunk first: which look free. */
  function DrawnForChain(n: nat, value: Hash): (r: seq<bool>)
    ensures |r| == n
  {
    if n == 0 then [] else DrawnForChain(n - 1, value) + [n == 1 && value == CryptoHash.ZERO]
  }

  function DrawnForSplit(e: Slice, c: Tree, rest: Slice, n: nat, value: Hash): seq<bool>
    requires rest.bits != []
  {
    DrawnForChain(Chunks(rest.Drop(1)), value) + if n + 1 == |e.bits| then [] else [HashOf(c) == CryptoHash.ZERO]
  }

  /** For the blocks insertion draws, in order: which look free. */
  function Drawn(t: Tree, key: Slice, value: Hash): seq<bool>
    requires key.offset < 8
  {
    match t
    case Leaf(_, _) => []
    case Branch(freed, l, r) =>
      if freed || key.bits == [] then [] else Drawn(if key.bits[0] then r else l, key.Drop(1), value)
    case Ext(e, c) =>
      var n := MatchLen(key, e);
      if key.bits == [] then []
      else if n == |e.bits| then Drawn(c, key.Drop(n), value)
      else if n == |key.bits| then []
      else DrawnForSplit(e, c, key.Drop(n), n, value) + if n == 0 then [] else [false]
  }

  /** Deletion frees, and does not use again, as many blocks as there are nodes less. */
  lemma {:induction false} FreedAreGone(t: Tree, d: nat, key: Slice)
    requires WF(t, d) && key.offset == BitInByte(d) && DelTree(t, key).Ok?
    ensures |Freed(t, key)| + ActionBlocks(DelTree(t, key).value) == Blocks(t)
  {
    hide BitInByte;
    hide Chain;
    hide Chunks;
    hide LooksFree;
    hide Collapse;
    hide Resolve;
    hide FreedByBranch;
    match t
    case Leaf(_, _) =>
    case Branch(_, l, r) =>
      BitInByteAdd(d, 1);
      var side := if key.bits[0] then r else l;
      FreedAreGone(side, d + 1, key.Drop(1));
      DelCredit(side, d + 1, key.Drop(1));
      var action := DelTree(side, key.Drop(1)).value;
      var other := if key.bits[0] then l else r;
      BranchBlocks(action, other, !key.bits[0], key.offset, Freed(side, key.Drop(1)), LooksFree(t));
    case Ext(e, c) =>
      BitInByteAdd(d, |e.bits|);
      FreedAreGone(c, d + |e.bits|, key.Drop(|e.bits|));
  }

  lemma BranchBlocks(action: Action, other: Tree, bit: bool, offset: nat, below: seq<bool>, mark: bool)
    requires action.ActExt? ==> action.key.offset < 8
    requires ActionChunks(action) <= |below| && offset < 8
    ensures var freed := |FreedByBranch(mark, other, below, Ok(action))|;
      match Resolve(action)
      case Some(c) => freed + Blocks(c) == |below| + ActionBlocks(action)
      case None =>
        Collapse(bit, other, offset).Ok? ==>
          freed + ActionBlocks(Collapse(bit, other, offset).value) ==
          |below| + ActionBlocks(action) + 1 + Blocks(other)
  {
    hide BitInByte;
    hide Chain;
    if action.ActExt? {
      ChainBlocks(action.key, action.child);
    }
  }

  /** Insertion draws as many blocks as there are nodes more. */
  lemma {:induction false} DrawnAreNew(t: Tree, key: Slice, value: Hash)
    requires key.offset < 8 && SetTree(t, key, value).Ok?
    ensures Blocks(SetTree(t, key, value).value) == Blocks(t) + |Drawn(t, key, value)|
  {
    hide BitInByte;
    hide Chain;
    hide Chunks;
    hide MatchLen;
    hide Split;
    hide DrawnForSplit;
    match t
    case Leaf(_, _) =>
    case Branch(_, l, r) => DrawnAreNew(if key.bits[0] then r else l, key.Drop(1), value);
    case Ext(e, c) =>
      var n := MatchLen(key, e);
      if n == |e.bits| {
        DrawnAreNew(c, key.Drop(n), value);
      } else {
        SplitBlocks(e, c, key.Drop(n), n, value);
      }
  }

  lemma SplitBlocks(e: Slice, c: Tree, rest: Slice, n: nat, value: Hash)
    requires rest.offset < 8 && rest.bits != [] && n < |e.bits|
    ensures Blocks(Split(e, c, rest, n, value)) == |DrawnForSplit(e, c, rest, n, value)| + 1 + Blocks(c)
  {
    hide BitInByte;
    hide Chain;
    ChainBlocks(rest.Drop(1), Leaf(value, false));
  }

  /** When there are fewer blocks than insertion wants to draw, all that there were are freed again. */
  predicate DropPanics(drawn: seq<bool>, room: nat) {
    room < |drawn| && true in drawn[..room]
  }

  // ----- the operations on a trie in a pool of `cap` blocks

  function BlocksOf(s: State): nat {
    if s.Empty? then 0 else Blocks(s.tree)
  }

  function Room(s: State, cap: nat): nat {
    if BlocksOf(s) <= cap then cap - BlocksOf(s) else 0
  }

  predicate SetPanicsIn(s: State, key: Key, value: Hash, room: nat) {
    && Set(s, key, value).Ok?
    && DropPanics(if s.Empty? then DrawnForChain(Chunks(Slice(0, key)), value) else Drawn(s.tree, Slice(0, key), value),
                  room)
  }

  predicate DelPanicsIn(s: State, key: Key) {
    FromBits(key).Some? && s.Root? && DelPanics(s.tree, Slice(0, key))
  }

  predicate SealPanicsIn(s: State, key: Key) {
    FromBits(key).Some? && s.Root? && SealPanics(s.tree, Slice(0, key))
  }

  /** The state after an operation, or `None` when the assertion fails.  Refused operations, for lack of blocks
      too, leave the trie as it was. */
  function StepIn(s: State, cap: nat, op: Op): Option<State> {
    match op
    case OpSet(k, v) =>
      if SetPanicsIn(s, k, v, Room(s, cap)) then None
      else if Set(s, k, v).Ok? && BlocksOf(Set(s, k, v).value) > cap then Some(s)
      else Some(Step(s, op))
    case OpDel(k) => if DelPanicsIn(s, k) then None else Some(Step(s, op))
    case OpSeal(k) => if SealPanicsIn(s, k) then None else Some(Step(s, op))
    case OpSetAndSeal(k, v) =>
      if SetPanicsIn(s, k, v, Room(s, cap)) then None
      else if Set(s, k, v).Ok? && BlocksOf(Set(s, k, v).value) > cap then Some(s)
      else if Set(s, k, v).Ok? && SealPanicsIn(Set(s, k, v).value, k) then None
      else Some(Step(s, op))
  }

  function RunIn(s: State, cap: nat, ops: seq<Op>): Option<State>
    decreases |ops|
  {
    if ops == [] then Some(s)
    else
      match StepIn(s, cap, ops[0])
      case None => None
      case Some(s') => RunIn(s', cap, ops[1..])
  }
}
