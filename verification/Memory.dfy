/** The pool allocator with its free list kept inside the freed blocks, and the write log on top. */
module Memory {
  import opened Wrappers

  // Pointers are block numbers; zero is the null pointer.
  type Ptr = p: nat | 0 < p witness 1

  datatype OutOfMemory = OutOfMemory

  /** A block of the data buffer.  In memory the two cases are told apart by the last 32 bytes, which are
      zero in a free block only. */
  datatype Block<T> = Node(value: T) | FreeRawNode(nextFree: nat)

  // Addresses are 32-bit and blocks are 72 bytes long.
  const MAX_BLOCKS: nat := 0xFFFF_FFFF / 72

  function SetOf(s: seq<Ptr>): set<Ptr> {
    set p | p in s
  }

  predicate Distinct(s: seq<Ptr>) {
    s == [] || (s[0] !in s[1..] && Distinct(s[1..]))
  }

  lemma {:induction false} DistinctAppend(s: seq<Ptr>, p: Ptr)
    requires Distinct(s) && p !in s
    ensures Distinct(s + [p])
  {
    if s != [] {
      DistinctAppend(s[1..], p);
      assert (s + [p])[1..] == s[1..] + [p];
    }
  }

  lemma {:induction false} DistinctAt(s: seq<Ptr>, i: nat)
    requires Distinct(s) && i < |s|
    ensures s[i] !in s[..i]
  {
    if i > 0 {
      DistinctAt(s[1..], i - 1);
      assert s[..i] == [s[0]] + s[1..][..i - 1];
      assert s[i] in s[1..];
    }
  }

  lemma {:induction false} DistinctInit(s: seq<Ptr>)
    requires Distinct(s) && s != []
    ensures Distinct(s[..|s| - 1]) && s[|s| - 1] !in s[..|s| - 1]
    ensures SetOf(s) == SetOf(s[..|s| - 1]) + {s[|s| - 1]}
  {
    assert s == s[..|s| - 1] + [s[|s| - 1]];
    if |s| > 1 {
      DistinctInit(s[1..]);
      assert s[1..][..|s| - 2] == s[..|s| - 1][1..];
    }
  }

  /** The blocks met when following the free list. */
  ghost predicate FreePath<T>(data: seq<Block<T>>, first: nat, list: seq<Ptr>)
    decreases |list|
  {
    if list == [] then first == 0
    else
      && first == list[0] < |data|
      && data[first].FreeRawNode?
      && FreePath(data, data[first].nextFree, list[1..])
  }

  lemma {:induction false} FreePathFrame<T>(data: seq<Block<T>>, data': seq<Block<T>>, first: nat, list: seq<Ptr>)
    requires FreePath(data, first, list)
    requires |data| <= |data'|
    requires forall b | b in list && b < |data| :: data'[b] == data[b]
    ensures FreePath(data', first, list)
    decreases |list|
  {
    if list != [] {
      FreePathFrame(data, data', data[first].nextFree, list[1..]);
    }
  }

  class Allocator<T> {
    // Block number `b` starts at byte `72 * b`; block zero holds the header.
    var data: seq<Block<T>>
    // First block never handed out so far.
    var nextBlock: nat
    // First block of the free list or zero.
    var firstFree: nat
    // Number of blocks the data buffer can be enlarged to.
    const limit: nat
    // Whether the last 32 bytes of a block that holds the value are zero, as they are in a free block.
    const looksFree: T -> bool

    // The free list, first block first.
    ghost var freeList: seq<Ptr>

    ghost predicate Valid()
      reads this
    {
      && 1 <= nextBlock <= |data| <= limit && nextBlock <= MAX_BLOCKS
      && FreePath(data, firstFree, freeList)
      && Distinct(freeList)
      && (forall b: Ptr | b in freeList :: b < nextBlock)
      && (forall b: Ptr | b < nextBlock :: data[b].FreeRawNode? <==> b in freeList)
    }

    /** The blocks in use and what they hold. */
    ghost function Live(): map<Ptr, T>
      requires Valid()
      reads this
    {
      map b: Ptr | 1 <= b < nextBlock && data[b].Node? :: data[b].value
    }

    /** How many more blocks can be handed out. */
    ghost function Room(): nat
      requires Valid()
      reads this
    {
      var cap := if limit <= MAX_BLOCKS then limit else MAX_BLOCKS;
      |freeList| + (cap - nextBlock)
    }

    constructor (limit: nat, looksFree: T -> bool)
      requires 1 <= limit
      ensures Valid() && Live() == map[] && this.limit == limit && this.looksFree == looksFree
    {
      this.limit := limit;
      this.looksFree := looksFree;
      data := [FreeRawNode(0)];
      nextBlock := 1;
      firstFree := 0;
      freeList := [];
    }

    /** Block `addr` has been taken but not filled yet; everything else is in order. */
    ghost predicate Taken(addr: Ptr)
      reads this
    {
      && addr < nextBlock <= |data| <= limit && nextBlock <= MAX_BLOCKS
      && FreePath(data, firstFree, freeList)
      && Distinct(freeList)
      && (forall b: Ptr | b in freeList :: b < nextBlock && b != addr)
      && (forall b: Ptr | b < nextBlock && b != addr :: data[b].FreeRawNode? <==> b in freeList)
    }

    ghost function LiveBut(addr: Ptr): map<Ptr, T>
      requires Taken(addr)
      reads this
    {
      map b: Ptr | 1 <= b < nextBlock && b != addr && data[b].Node? :: data[b].value
    }

    method AllocFromFreelist() returns (r: Option<Ptr>)
      requires Valid()
      modifies this
      ensures r.None? ==> freeList == [] && unchanged(this)
      ensures r.Some? ==>
        && Taken(r.value) && LiveBut(r.value) == old(Live()) && r.value !in old(Live())
        && |freeList| == |old(freeList)| - 1 && nextBlock == old(nextBlock)
    {
      if firstFree == 0 {
        return None;
      }
      r := Some(firstFree);
      firstFree := data[firstFree].nextFree;
      freeList := freeList[1..];
      assert old(freeList) == [r.value] + freeList;
      assert r.value in old(freeList) && forall b | b in freeList :: b in old(freeList);
      assert LiveBut(r.value) == old(Live());
    }

    method AllocNextBlock(filler: Block<T>) returns (r: Option<Ptr>)
      requires Valid() && freeList == []
      modifies this
      ensures r.None? ==> unchanged(this) && Room() == 0
      ensures r.Some? ==>
        && Taken(r.value) && LiveBut(r.value) == old(Live()) && r.value !in old(Live())
        && freeList == [] && nextBlock == old(nextBlock) + 1
    {
      var next := nextBlock + 1;
      if next > MAX_BLOCKS || (next > |data| && next > limit) {
        return None;
      }
      if next > |data| {
        data := data + [filler];
      }
      r := Some(nextBlock);
      nextBlock := next;
      assert LiveBut(r.value) == old(Live());
    }

    method Fill(addr: Ptr, value: T)
      requires Taken(addr)
      modifies this
      ensures Valid() && Live() == old(LiveBut(addr))[addr := value]
      ensures freeList == old(freeList) && nextBlock == old(nextBlock)
    {
      ghost var live := LiveBut(addr);
      FreePathFrame(data, data[addr := Node(value)], firstFree, freeList);
      data := data[addr := Node(value)];
      assert Live() == live[addr := value];
    }

    /** Hands out a block that was not in use; fails only when no block is left. */
    method Alloc(value: T) returns (r: Result<Ptr, OutOfMemory>)
      requires Valid()
      modifies this
      ensures Valid()
      ensures r.Err? <==> old(Room()) == 0
      ensures r.Err? ==> Live() == old(Live()) && Room() == old(Room())
      ensures r.Ok? ==>
        && r.value !in old(Live())
        && Live() == old(Live())[r.value := value]
        && Room() == old(Room()) - 1
    {
      var addr := AllocFromFreelist();
      if addr.None? {
        addr := AllocNextBlock(Node(value));
      }
      if addr.None? {
        return Err(OutOfMemory);
      }
      Fill(addr.value, value);
      return Ok(addr.value);
    }

    method Get(ptr: Ptr) returns (value: T)
      requires Valid() && ptr in Live()
      ensures value == Live()[ptr]
    {
      value := data[ptr].value;
    }

    method Set(ptr: Ptr, value: T)
      requires Valid() && ptr in Live()
      modifies this
      ensures Valid() && Live() == old(Live())[ptr := value] && Room() == old(Room())
    {
      ghost var live := Live();
      FreePathFrame(data, data[ptr := Node(value)], firstFree, freeList);
      data := data[ptr := Node(value)];
      assert Live() == live[ptr := value];
    }

    /** Puts a block on the free list; all other blocks keep their contents.  The assertion against double frees
        fails, and nothing is changed, when the block looks free already. */
    method Free(ptr: Ptr) returns (ok: bool)
      requires Valid() && ptr in Live()
      modifies this
      ensures Valid() && (ok <==> !looksFree(old(Live())[ptr]))
      ensures ok ==> Live() == old(Live()) - {ptr} && Room() == old(Room()) + 1
      ensures !ok ==> unchanged(this)
    {
      if looksFree(data[ptr].value) {
        return false;
      }
      ok := true;
      ghost var live := Live();
      FreePathFrame(data, data[ptr := FreeRawNode(firstFree)], firstFree, freeList);
      data := data[ptr := FreeRawNode(firstFree)];
      firstFree := ptr;
      freeList := [ptr] + freeList;
      assert freeList[1..] == old(freeList);
      assert Live() == live - {ptr};
    }
  }

  /** Which of the blocks look free, going by what they hold. */
  function Marks<T>(ptrs: seq<Ptr>, holds: map<Ptr, T>, looksFree: T -> bool): (r: seq<bool>)
    requires SetOf(ptrs) <= holds.Keys
    ensures |r| == |ptrs|
  {
    seq(|ptrs|, i requires 0 <= i < |ptrs| => assert ptrs[i] in SetOf(ptrs); looksFree(holds[ptrs[i]]))
  }

  lemma MarksAppend<T>(ptrs: seq<Ptr>, holds: map<Ptr, T>, looksFree: T -> bool, p: Ptr)
    requires SetOf(ptrs) <= holds.Keys && p in holds
    ensures SetOf(ptrs + [p]) <= holds.Keys
    ensures Marks(ptrs + [p], holds, looksFree) == Marks(ptrs, holds, looksFree) + [looksFree(holds[p])]
  {
  }

  lemma MarksInit<T>(ptrs: seq<Ptr>, holds: map<Ptr, T>, looksFree: T -> bool)
    requires SetOf(ptrs) <= holds.Keys && ptrs != []
    ensures SetOf(ptrs[..|ptrs| - 1]) <= holds.Keys
    ensures Marks(ptrs[..|ptrs| - 1], holds, looksFree) == Marks(ptrs, holds, looksFree)[..|ptrs| - 1]
  {
  }

  lemma MarksFrame<T>(ptrs: seq<Ptr>, holds: map<Ptr, T>, holds': map<Ptr, T>, looksFree: T -> bool)
    requires SetOf(ptrs) <= holds.Keys && SetOf(ptrs) <= holds'.Keys
    requires forall p | p in SetOf(ptrs) :: holds'[p] == holds[p]
    ensures Marks(ptrs, holds', looksFree) == Marks(ptrs, holds, looksFree)
  {
    forall i | 0 <= i < |ptrs| ensures holds'[ptrs[i]] == holds[ptrs[i]] {
      assert ptrs[i] in SetOf(ptrs);
    }
  }

  /** The map overwritten by a list of writes, the last write to a pointer winning. */
  function Overlay<T>(m: map<Ptr, T>, log: seq<(Ptr, T)>): (r: map<Ptr, T>)
    ensures (forall i | 0 <= i < |log| :: log[i].0 in m) ==> r.Keys == m.Keys
    ensures forall p | p in m && (forall i | 0 <= i < |log| :: log[i].0 != p) :: p in r && r[p] == m[p]
  {
    if log == [] then m
    else
      var last := log[|log| - 1];
      Overlay(m, log[..|log| - 1])[last.0 := last.1]
  }

  lemma OverlayAppend<T>(m: map<Ptr, T>, log: seq<(Ptr, T)>, p: Ptr, v: T)
    ensures Overlay(m, log + [(p, v)]) == Overlay(m, log)[p := v]
  {
    assert (log + [(p, v)])[..|log|] == log;
  }

  /** Writes to blocks that exist already do not interfere with a block added later. */
  lemma {:induction false} OverlayExtend<T>(m: map<Ptr, T>, log: seq<(Ptr, T)>, p: Ptr, v: T)
    requires p !in m && forall i | 0 <= i < |log| :: log[i].0 in m
    ensures Overlay(m[p := v], log) == Overlay(m, log)[p := v]
  {
    if log != [] {
      var rest, last := log[..|log| - 1], log[|log| - 1];
      OverlayExtend(m, rest, p, v);
      assert last.0 in m && last.0 != p;
      assert Overlay(m, rest)[p := v][last.0 := last.1] == Overlay(m, rest)[last.0 := last.1][p := v];
    }
  }

  // ----- the write log, as values

  /** What blocks `live` hold after a log of writes and frees. */
  function After<T>(live: map<Ptr, T>, log: seq<(Ptr, T)>, freed: seq<Ptr>): map<Ptr, T> {
    Overlay(live, log) - SetOf(freed)
  }

  ghost predicate LogOk<T>(live: map<Ptr, T>, log: seq<(Ptr, T)>, freed: seq<Ptr>) {
    && Distinct(freed) && SetOf(freed) <= live.Keys
    && forall i | 0 <= i < |log| :: log[i].0 in live
  }

  lemma AfterWrite<T>(live: map<Ptr, T>, log: seq<(Ptr, T)>, freed: seq<Ptr>, p: Ptr, v: T)
    requires LogOk(live, log, freed) && p in After(live, log, freed)
    ensures LogOk(live, log + [(p, v)], freed)
    ensures After(live, log + [(p, v)], freed) == After(live, log, freed)[p := v]
  {
    OverlayAppend(live, log, p, v);
  }

  lemma AfterFree<T>(live: map<Ptr, T>, log: seq<(Ptr, T)>, freed: seq<Ptr>, p: Ptr)
    requires LogOk(live, log, freed) && p in After(live, log, freed)
    ensures LogOk(live, log, freed + [p])
    ensures After(live, log, freed + [p]) == After(live, log, freed) - {p}
  {
    DistinctAppend(freed, p);
    assert SetOf(freed + [p]) == SetOf(freed) + {p};
  }

  lemma {:induction false} AfterReuse<T>(live: map<Ptr, T>, log: seq<(Ptr, T)>, freed: seq<Ptr>, v: T)
    requires LogOk(live, log, freed) && freed != []
    ensures var p, rest := freed[|freed| - 1], freed[..|freed| - 1];
      && p !in After(live, log, freed)
      && LogOk(live, log + [(p, v)], rest)
      && After(live, log + [(p, v)], rest) == After(live, log, freed)[p := v]
  {
    var p, rest := freed[|freed| - 1], freed[..|freed| - 1];
    DistinctInit(freed);
    OverlayAppend(live, log, p, v);
    assert p in SetOf(freed);
    assert After(live, log + [(p, v)], rest) == After(live, log, freed)[p := v];
  }

  lemma AfterDraw<T>(live: map<Ptr, T>, log: seq<(Ptr, T)>, freed: seq<Ptr>, p: Ptr, v: T)
    requires LogOk(live, log, freed) && p !in live
    ensures p !in After(live, log, freed)
    ensures LogOk(live[p := v], log, freed)
    ensures After(live[p := v], log, freed) == After(live, log, freed)[p := v]
  {
    OverlayExtend(live, log, p, v);
  }

  lemma {:induction false} MarksWrite<T>(
      live: map<Ptr, T>, log: seq<(Ptr, T)>, freed: seq<Ptr>, looksFree: T -> bool, p: Ptr, v: T)
    requires LogOk(live, log, freed) && p in live && p !in freed
    ensures SetOf(freed) <= Overlay(live, log).Keys && SetOf(freed) <= Overlay(live, log + [(p, v)]).Keys
    ensures Marks(freed, Overlay(live, log + [(p, v)]), looksFree) == Marks(freed, Overlay(live, log), looksFree)
  {
    OverlayAppend(live, log, p, v);
    MarksFrame(freed, Overlay(live, log), Overlay(live, log)[p := v], looksFree);
  }

  /** The block used again is no longer among those to be freed; the others look as they did. */
  lemma {:induction false} MarksReuse<T>(
      live: map<Ptr, T>, log: seq<(Ptr, T)>, freed: seq<Ptr>, looksFree: T -> bool, v: T)
    requires LogOk(live, log, freed) && freed != []
    ensures var p, rest := freed[|freed| - 1], freed[..|freed| - 1];
      && SetOf(freed) <= Overlay(live, log).Keys && SetOf(rest) <= Overlay(live, log + [(p, v)]).Keys
      && Marks(rest, Overlay(live, log + [(p, v)]), looksFree) ==
         Marks(freed, Overlay(live, log), looksFree)[..|freed| - 1]
  {
    var p, rest := freed[|freed| - 1], freed[..|freed| - 1];
    AfterReuse(live, log, freed, v);
    DistinctInit(freed);
    MarksInit(freed, Overlay(live, log), looksFree);
    MarksWrite(live, log, rest, looksFree, p, v);
  }

  lemma MarksDraw<T>(live: map<Ptr, T>, drawn: seq<Ptr>, looksFree: T -> bool, p: Ptr, v: T)
    requires SetOf(drawn) <= live.Keys && p !in live
    ensures SetOf(drawn + [p]) <= live[p := v].Keys
    ensures Marks(drawn + [p], live[p := v], looksFree) == Marks(drawn, live, looksFree) + [looksFree(v)]
  {
    MarksFrame(drawn, live, live[p := v], looksFree);
    MarksAppend(drawn, live[p := v], looksFree, p);
  }

  lemma DrawnGrows<T>(live: map<Ptr, T>, drawn: seq<Ptr>, p: Ptr, v: T)
    requires Distinct(drawn) && SetOf(drawn) <= live.Keys && p !in live
    ensures Distinct(drawn + [p]) && SetOf(drawn + [p]) <= live[p := v].Keys
    ensures live[p := v] - SetOf(drawn + [p]) == live - SetOf(drawn)
    ensures (live - SetOf(drawn)).Keys !! SetOf(drawn + [p])
  {
    DistinctAppend(drawn, p);
    assert SetOf(drawn + [p]) == SetOf(drawn) + {p};
  }

  /** Changes collected during an operation, to be applied or dropped as a whole. */
  class WriteLog<T> {
    const alloc: Allocator<T>
    var writeLog: seq<(Ptr, T)>
    var drawn: seq<Ptr>
    var freed: seq<Ptr>

    // The blocks in use, and the room left, when the log was opened.
    ghost const initial: map<Ptr, T>
    ghost const room: nat

    ghost predicate Valid()
      reads this, alloc
    {
      && alloc.Valid()
      && Distinct(drawn) && initial.Keys !! SetOf(drawn) && SetOf(drawn) <= alloc.Live().Keys
      && alloc.Live() - SetOf(drawn) == initial
      && LogOk(alloc.Live(), writeLog, freed)
      && alloc.Room() + |drawn| == room
    }

    /** What the blocks in use will hold once the log is committed. */
    ghost function Pending(): map<Ptr, T>
      requires Valid()
      reads this, alloc
    {
      After(alloc.Live(), writeLog, freed)
    }

    /** Which of the freed blocks will look free when the log is committed. */
    ghost function FreedMarks(): (r: seq<bool>)
      requires Valid()
      reads this, alloc
      ensures |r| == |freed|
    {
      Marks(freed, Overlay(alloc.Live(), writeLog), alloc.looksFree)
    }

    /** Which of the blocks drawn from the pool look free. */
    ghost function DrawnMarks(): (r: seq<bool>)
      requires Valid()
      reads this, alloc
      ensures |r| == |drawn| <= room
    {
      Marks(drawn, alloc.Live(), alloc.looksFree)
    }

    constructor (alloc: Allocator<T>)
      requires alloc.Valid()
      ensures Valid() && this.alloc == alloc
      ensures initial == alloc.Live() && room == alloc.Room() && Pending() == alloc.Live()
      ensures freed == [] && drawn == [] && FreedMarks() == DrawnMarks() == []
    {
      this.alloc := alloc;
      writeLog, drawn, freed := [], [], [];
      initial, room := alloc.Live(), alloc.Room();
    }

    /** Blocks freed in the same log are used first; only when there are none is the pool asked. */
    method Alloc(value: T) returns (r: Result<Ptr, OutOfMemory>)
      requires Valid()
      modifies this, alloc
      ensures Valid()
      ensures r.Err? <==> old(freed) == [] && old(alloc.Room()) == 0
      ensures r.Err? ==> Pending() == old(Pending()) && freed == old(freed) && drawn == old(drawn)
      ensures r.Err? ==> FreedMarks() == old(FreedMarks()) && DrawnMarks() == old(DrawnMarks())
      ensures r.Ok? ==>
        && r.value !in old(Pending())
        && Pending() == old(Pending())[r.value := value]
        && (if old(freed) == [] then
              freed == [] && |drawn| == |old(drawn)| + 1 && DrawnMarks() == old(DrawnMarks()) + [alloc.looksFree(value)]
            else
              && freed == old(freed)[..|old(freed)| - 1] && FreedMarks() == old(FreedMarks())[..|old(freed)| - 1]
              && drawn == old(drawn) && DrawnMarks() == old(DrawnMarks()))
    {
      hide After;
      hide LogOk;
      hide SetOf;
      hide Distinct;
      hide Marks;
      if freed != [] {
        AfterReuse(alloc.Live(), writeLog, freed, value);
        MarksReuse(alloc.Live(), writeLog, freed, alloc.looksFree, value);
        var ptr := freed[|freed| - 1];
        freed := freed[..|freed| - 1];
        writeLog := writeLog + [(ptr, value)];
        return Ok(ptr);
      }
      ghost var live := alloc.Live();
      r := alloc.Alloc(value);
      if r.Ok? {
        AfterDraw(live, writeLog, freed, r.value, value);
        DrawnGrows(live, drawn, r.value, value);
        MarksDraw(live, drawn, alloc.looksFree, r.value, value);
        drawn := drawn + [r.value];
      }
    }

    method Set(ptr: Ptr, value: T)
      requires Valid() && ptr in Pending()
      modifies this
      ensures Valid() && Pending() == old(Pending())[ptr := value]
      ensures freed == old(freed) && drawn == old(drawn)
      ensures FreedMarks() == old(FreedMarks()) && DrawnMarks() == old(DrawnMarks())
    {
      AfterWrite(alloc.Live(), writeLog, freed, ptr, value);
      MarksWrite(alloc.Live(), writeLog, freed, alloc.looksFree, ptr, value);
      writeLog := writeLog + [(ptr, value)];
    }

    method Free(ptr: Ptr)
      requires Valid() && ptr in Pending()
      modifies this
      ensures Valid() && Pending() == old(Pending()) - {ptr}
      ensures freed == old(freed) + [ptr] && drawn == old(drawn)
      ensures FreedMarks() == old(FreedMarks()) + [alloc.looksFree(old(Pending())[ptr])]
      ensures DrawnMarks() == old(DrawnMarks())
    {
      AfterFree(alloc.Live(), writeLog, freed, ptr);
      MarksAppend(freed, Overlay(alloc.Live(), writeLog), alloc.looksFree, ptr);
      freed := freed + [ptr];
    }

    /** Frees a list of different blocks one by one, up to the first one that looks free. */
    method FreeAll(ptrs: seq<Ptr>) returns (ok: bool)
      requires alloc.Valid() && Distinct(ptrs) && SetOf(ptrs) <= alloc.Live().Keys
      modifies alloc
      ensures alloc.Valid() && (ok <==> true !in old(Marks(ptrs, alloc.Live(), alloc.looksFree)))
      ensures ok ==> alloc.Live() == old(alloc.Live()) - SetOf(ptrs) && alloc.Room() == old(alloc.Room()) + |ptrs|
    {
      ghost var live := alloc.Live();
      ghost var marks := Marks(ptrs, live, alloc.looksFree);
      for i := 0 to |ptrs|
        invariant alloc.Valid() && alloc.Live() == live - SetOf(ptrs[..i])
        invariant alloc.Room() == old(alloc.Room()) + i
        invariant true !in marks[..i]
      {
        DistinctAt(ptrs, i);
        assert SetOf(ptrs[..i + 1]) == SetOf(ptrs[..i]) + {ptrs[i]};
        ok := alloc.Free(ptrs[i]);
        assert ok <==> !marks[i];
        if !ok {
          return;
        }
        assert marks[..i + 1] == marks[..i] + [marks[i]];
      }
      assert ptrs[..|ptrs|] == ptrs && marks[..|ptrs|] == marks;
      ok := true;
    }

    /** Applies all writes in order. */
    method ApplyWrites()
      requires alloc.Valid() && forall i | 0 <= i < |writeLog| :: writeLog[i].0 in alloc.Live()
      modifies alloc
      ensures alloc.Valid() && alloc.Live() == Overlay(old(alloc.Live()), writeLog)
      ensures alloc.Live().Keys == old(alloc.Live()).Keys && alloc.Room() == old(alloc.Room())
    {
      hide Allocator.Valid;
      hide Allocator.Live;
      hide Allocator.Room;
      hide Overlay;
      ghost var live := alloc.Live();
      assert Overlay(live, writeLog[..0]) == live;
      for i := 0 to |writeLog|
        invariant alloc.Valid() && alloc.Live() == Overlay(live, writeLog[..i])
        invariant alloc.Live().Keys == live.Keys
        invariant alloc.Room() == old(alloc.Room())
      {
        alloc.Set(writeLog[i].0, writeLog[i].1);
        assert writeLog[..i + 1] == writeLog[..i] + [writeLog[i]];
        OverlayAppend(live, writeLog[..i], writeLog[i].0, writeLog[i].1);
      }
      assert writeLog[..|writeLog|] == writeLog;
    }

    /** Applies all writes, then frees all freed blocks, each of them once; fails when one of them looks free. */
    method Commit() returns (ok: bool)
      requires Valid()
      modifies this, alloc
      ensures alloc.Valid() && (ok <==> true !in old(FreedMarks()))
      ensures ok ==> alloc.Live() == old(Pending()) && alloc.Room() + |old(drawn)| == room + |old(freed)|
    {
      hide Distinct;
      hide SetOf;
      hide Marks;
      drawn := [];
      ApplyWrites();
      writeLog := [];
      ok := FreeAll(freed);
      freed := [];
    }

    /** Dropping the log without committing it: the pool is as it was when the log was opened, unless a block
        drawn since then looks free. */
    method Drop() returns (ok: bool)
      requires Valid()
      modifies this, alloc
      ensures alloc.Valid() && (ok <==> true !in old(DrawnMarks()))
      ensures ok ==> alloc.Live() == initial && alloc.Room() == room
    {
      writeLog, freed := [], [];
      ok := FreeAll(drawn);
      drawn := [];
    }
  }
}
