/** What a zero hash among the values stored means for the allocator's assertion: without one no run of operations
    ever fails it, and one stored alone cannot be deleted again. */
module ZeroHash {
  import opened Wrappers
  import opened Bits
  import opened Tree
  import opened SetSpec
  import opened DelSpec
  import opened History
  import opened DoubleFree
  import CryptoHash

  predicate NoZero(t: Tree) {
    match t
    case Leaf(h, _) => h != CryptoHash.ZERO
    case Branch(_, l, r) => NoZero(l) && NoZero(r)
    case Ext(_, c) => NoZero(c)
  }

  ghost predicate NoZeroIn(m: Entries) {
    forall k | k in m :: m[k].hash != CryptoHash.ZERO
  }

  lemma NotFree(t: Tree)
    requires NoZero(t)
    ensures HashOf(t) != CryptoHash.ZERO && !LooksFree(t)
  {
  }

  /** A trie with a zero hash among its values has a key that holds it. */
  lemma {:induction false} ZeroSomewhere(t: Tree) returns (k: seq<bool>)
    requires !NoZero(t)
    ensures Lookup(t, k).Some? && Lookup(t, k).value.hash == CryptoHash.ZERO
  {
    match t
    case Leaf(_, _) => k := [];
    case Branch(_, l, r) =>
      var bit := NoZero(l);
      var rest := ZeroSomewhere(if bit then r else l);
      k := [bit] + rest;
      assert k[1..] == rest;
    case Ext(e, c) =>
      var rest := ZeroSomewhere(c);
      k := e.bits + rest;
      assert k[|e.bits|..] == rest;
  }

  lemma {:induction false} NoZeroAt(t: Tree, k: seq<bool>)
    requires NoZero(t) && Lookup(t, k).Some?
    ensures Lookup(t, k).value.hash != CryptoHash.ZERO
  {
    match t
    case Leaf(_, _) =>
    case Branch(_, l, r) => NoZeroAt(if k[0] then r else l, k[1..]);
    case Ext(e, c) => NoZeroAt(c, k[|e.bits|..]);
  }

  predicate Clean(s: State) {
    s.Root? ==> NoZero(s.tree)
  }

  lemma {:induction false} CleanEntries(s: State)
    ensures Clean(s) <==> NoZeroIn(EntriesOf(s))
  {
    hide EntriesOf;
    forall k ensures k in EntriesOf(s) <==> At(s, k).Some? {
      EntriesAt(s, k);
    }
    forall k | At(s, k).Some? ensures EntriesOf(s)[k] == At(s, k).value {
      EntriesAt(s, k);
    }
    if !Clean(s) {
      var k := ZeroSomewhere(s.tree);
      assert k in EntriesOf(s);
    } else if s.Root? {
      forall k | k in EntriesOf(s) ensures EntriesOf(s)[k].hash != CryptoHash.ZERO {
        NoZeroAt(s.tree, k);
      }
    }
  }

  lemma {:induction false} NothingFreed(t: Tree, key: Slice)
    requires NoZero(t) && key.offset < 8
    ensures true !in Freed(t, key)
  {
    hide BitInByte;
    match t
    case Leaf(_, _) =>
    case Branch(freed, l, r) =>
      if !freed && key.bits != [] {
        NothingFreed(if key.bits[0] then r else l, key.Drop(1));
        NotFree(t);
        NotFree(if key.bits[0] then l else r);
      }
    case Ext(e, c) =>
      if key.StartsWith(e) {
        NothingFreed(c, key.Drop(|e.bits|));
        NotFree(t);
      }
  }

  lemma {:induction false} NothingSealed(t: Tree, key: Slice)
    requires NoZero(t)
    ensures !SealPanics(t, key)
  {
    match t
    case Leaf(_, _) =>
    case Branch(freed, l, r) =>
      if !freed && key.bits != [] {
        NothingSealed(if key.bits[0] then r else l, key.Drop(1));
        NotFree(t);
      }
    case Ext(e, c) =>
      if key.StartsWith(e) {
        NothingSealed(c, key.Drop(|e.bits|));
      }
  }

  lemma {:induction false} ChainNotFree(n: nat, value: Hash)
    requires value != CryptoHash.ZERO
    ensures true !in DrawnForChain(n, value)
  {
    if n > 0 {
      ChainNotFree(n - 1, value);
    }
  }

  lemma {:induction false} NothingDrawn(t: Tree, key: Slice, value: Hash)
    requires NoZero(t) && value != CryptoHash.ZERO && key.offset < 8
    ensures true !in Drawn(t, key, value)
  {
    hide BitInByte;
    match t
    case Leaf(_, _) =>
    case Branch(freed, l, r) =>
      if !freed && key.bits != [] {
        NothingDrawn(if key.bits[0] then r else l, key.Drop(1), value);
      }
    case Ext(e, c) =>
      var n := MatchLen(key, e);
      if n == |e.bits| {
        NothingDrawn(c, key.Drop(n), value);
      } else if n < |key.bits| {
        ChainNotFree(Chunks(key.Drop(n).Drop(1)), value);
        NotFree(c);
      }
  }

  // ----- runs

  /** No value stored by the operations lies outside the set. */
  ghost predicate StoresOnly(ops: seq<Op>, hashes: iset<Hash>) {
    forall i | 0 <= i < |ops| :: Storing(ops[i], hashes)
  }

  ghost predicate Storing(op: Op, hashes: iset<Hash>) {
    (op.OpSet? || op.OpSetAndSeal?) ==> op.value in hashes
  }

  lemma {:induction false} SetIsSafe(s: State, key: Key, value: Hash, room: nat)
    requires Clean(s) && value != CryptoHash.ZERO
    ensures !SetPanicsIn(s, key, value, room)
  {
    if Set(s, key, value).Ok? {
      if s.Empty? {
        ChainNotFree(Chunks(Slice(0, key)), value);
      } else {
        NothingDrawn(s.tree, Slice(0, key), value);
      }
    }
  }

  lemma MapStepNoZero(m: Entries, op: Op, hashes: iset<Hash>)
    requires NoZeroIn(m) && Storing(op, hashes) && CryptoHash.ZERO !in hashes
    ensures NoZeroIn(MapStep(m, op))
  {
  }

  lemma SetIsClean(s: State, key: Key, value: Hash)
    requires Inv(s) && Clean(s) && value != CryptoHash.ZERO && Set(s, key, value).Ok?
    ensures Clean(Set(s, key, value).value)
  {
    var op := OpSet(key, value);
    StepRefines(s, op);
    CleanEntries(s);
    CleanEntries(Step(s, op));
    MapStepNoZero(EntriesOf(s), op, iset{value});
  }

  lemma {:induction false} StepIsSafe(s: State, cap: nat, op: Op, hashes: iset<Hash>)
    requires Inv(s) && Clean(s) && Storing(op, hashes) && CryptoHash.ZERO !in hashes
    ensures var r := StepIn(s, cap, op);
      r.Some? && (r.value == s || r.value == Step(s, op)) && Inv(r.value) && Clean(r.value)
  {
    hide SetPanicsIn;
    hide MapStep;
    hide Insertable;
    hide EntriesOf;
    hide Freed;
    hide SealPanics;
    hide BlocksOf;
    hide Step;
    StepRefines(s, op);
    CleanEntries(s);
    CleanEntries(Step(s, op));
    MapStepNoZero(EntriesOf(s), op, hashes);
    match op
    case OpSet(k, v) => SetIsSafe(s, k, v, Room(s, cap));
    case OpDel(k) =>
      if s.Root? {
        NothingFreed(s.tree, Slice(0, k));
      }
    case OpSeal(k) =>
      if s.Root? {
        NothingSealed(s.tree, Slice(0, k));
      }
    case OpSetAndSeal(k, v) =>
      SetIsSafe(s, k, v, Room(s, cap));
      SetMeaning(s, k, v);
      if Set(s, k, v).Ok? {
        SetIsClean(s, k, v);
        NothingSealed(Set(s, k, v).value.tree, Slice(0, k));
      }
  }

  lemma {:induction false} RunIsSafe(s: State, cap: nat, ops: seq<Op>, hashes: iset<Hash>)
    requires Inv(s) && Clean(s) && StoresOnly(ops, hashes) && CryptoHash.ZERO !in hashes
    ensures RunIn(s, cap, ops).Some?
    decreases |ops|
  {
    if ops != [] {
      assert Storing(ops[0], hashes);
      StepIsSafe(s, cap, ops[0], hashes);
      RunIsSafe(StepIn(s, cap, ops[0]).value, cap, ops[1..], hashes);
    }
  }

  /** A zero hash stored alone cannot be deleted again. */
  lemma {:induction false} ChainPanics(key: Slice)
    requires key.offset < 8 && key.bits != []
    ensures var t := Chain(key, Leaf(CryptoHash.ZERO, false));
      DelTree(t, key) == Ok(ActDrop) && true in Freed(t, key)
    decreases |key.bits|
  {
    hide BitInByte;
    var n := key.FirstChunkLen();
    var t := Chain(key, Leaf(CryptoHash.ZERO, false));
    assert key.bits[..n] <= key.bits;
    if n < |key.bits| {
      ChainPanics(key.Drop(n));
      var below := Freed(t.child, key.Drop(n));
      assert Freed(t, key) == [LooksFree(t)] + below;
      assert forall i | 0 <= i < |below| :: ([LooksFree(t)] + below)[i + 1] == below[i];
    } else {
      assert Chain(key.Drop(n), Leaf(CryptoHash.ZERO, false)) == Leaf(CryptoHash.ZERO, false);
      assert LooksFree(t);
      assert Freed(t, key)[0];
    }
  }

  lemma {:induction false} FirstDrawn(n: nat)
    requires 0 < n
    ensures DrawnForChain(n, CryptoHash.ZERO)[0]
  {
    if n > 1 {
      FirstDrawn(n - 1);
    }
  }

  /** Storing a zero hash in an empty trie and deleting it again panics for every key and pool: there is room for
      all nodes, and the last one looks free when it is freed, or there is not, and the first one drawn does. */
  lemma {:induction false} ZeroPanics(key: Key, cap: nat)
    requires 0 < |key| <= MAX_KEY_BITS && 0 < cap
    ensures RunIn(Empty, cap, [OpSet(key, CryptoHash.ZERO), OpDel(key)]) == None
  {
    var slice := Slice(0, key);
    var set_, del := OpSet(key, CryptoHash.ZERO), OpDel(key);
    var ops := [set_, del];
    ChainBlocks(slice, Leaf(CryptoHash.ZERO, false));
    assert ops[0] == set_ && ops[1..] == [del] && [del][0] == del && [del][1..] == [];
    if Chunks(slice) <= cap {
      ChainPanics(slice);
      var s := Step(Empty, set_);
      assert StepIn(Empty, cap, set_) == Some(s);
      assert StepIn(s, cap, del) == None;
      assert RunIn(s, cap, [del]) == None;
    } else {
      FirstDrawn(Chunks(slice));
      assert DrawnForChain(Chunks(slice), CryptoHash.ZERO)[..cap][0];
      assert StepIn(Empty, cap, set_) == None;
    }
  }

  /** The assertion never fails, whatever the operations and the size of the pool, if and only if the zero hash is
      not among the values that may be stored. */
  lemma {:induction false} SafeWithoutZero(hashes: iset<Hash>)
    ensures (forall ops, cap | StoresOnly(ops, hashes) :: RunIn(Empty, cap, ops).Some?) <==> CryptoHash.ZERO !in hashes
  {
    if CryptoHash.ZERO !in hashes {
      forall ops, cap | StoresOnly(ops, hashes) ensures RunIn(Empty, cap, ops).Some? {
        RunIsSafe(Empty, cap, ops, hashes);
      }
    } else {
      var key: Key := [false, false, false, false, false, false, false, false];
      var ops := [OpSet(key, CryptoHash.ZERO), OpDel(key)];
      assert StoresOnly(ops, hashes);
      ZeroPanics(key, 1);
    }
  }
}
