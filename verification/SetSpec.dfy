/** Insertion on trie values and what it means for the map. */
module SetSpec {
  import opened Wrappers
  import opened Bits
  import opened Tree

  /** A chain of Extensions over `key`, cut into chunks of at most 34 bytes, leading to `t`. */
  function Chain(key: Slice, t: Tree): Tree
    requires key.offset < 8
    decreases |key.bits|
  {
    if key.bits == [] then t
    else
      var n := key.FirstChunkLen();
      Ext(key.Take(n), Chain(key.Drop(n), t))
  }

  /** The subtrie that replaces `t` when `value` is stored at `key`, `key` starting where `t` does. */
  function SetTree(t: Tree, key: Slice, value: Hash): Result<Tree, Error>
    requires key.offset < 8
  {
    match t
    case Leaf(_, isSealed) =>
      if key.bits != [] then Err(BadKeyPrefix)
      else if isSealed then Err(Sealed)
      else Ok(Leaf(value, false))
    case Branch(freed, l, r) =>
      if freed then Err(Sealed)
      else if key.bits == [] then Err(BadKeyPrefix)
      else if key.bits[0] then
        var c :- SetTree(r, key.Drop(1), value);
        Ok(Branch(false, l, c))
      else
        var c :- SetTree(l, key.Drop(1), value);
        Ok(Branch(false, c, r))
    case Ext(e, c) =>
      if key.bits == [] then Err(BadKeyPrefix)
      else
        var n := MatchLen(key, e);
        if n == |e.bits| then
          var c' :- SetTree(c, key.Drop(n), value);
          Ok(Ext(e, c'))
        else if n == |key.bits| then Err(BadKeyPrefix)
        else
          var branch := Split(e, c, key.Drop(n), n, value);
          Ok(if n == 0 then branch else Ext(key.Take(n), branch))
  }

  /** The Branch put in place of an Extension `e` that agrees with the key for `n` bits only; `rest` is
      what remains of the key from there on. */
  function Split(e: Slice, c: Tree, rest: Slice, n: nat, value: Hash): Tree
    requires rest.offset < 8 && rest.bits != [] && n < |e.bits|
  {
    var ours := Chain(rest.Drop(1), Leaf(value, false));
    var theirs := if n + 1 == |e.bits| then c else Ext(e.Drop(n + 1), c);
    if rest.bits[0] then Branch(false, theirs, ours) else Branch(false, ours, theirs)
  }

  lemma PrefixParts(a: seq<bool>, k: seq<bool>, n: nat)
    requires n <= |a|
    ensures a <= k ==> a[..n] <= k && k[n..][|a| - n..] == k[|a|..]
    ensures a[..n] <= k ==> (a <= k <==> a[n..] <= k[n..])
  {
    assert a == a[..n] + a[n..];
    if a[..n] <= k {
      assert k == a[..n] + k[n..];
    }
    if a <= k {
      assert a[..n] == k[..n];
    }
  }

  lemma ChainStarts(key: Slice, t: Tree, k: seq<bool>)
    requires key.offset < 8 && key.bits != []
    ensures var n := key.FirstChunkLen();
      Lookup(Chain(key, t), k) == if key.bits[..n] <= k then Lookup(Chain(key.Drop(n), t), k[n..]) else None
  {
    hide BitInByte;
    hide Slice.FirstChunkLen;
  }

  lemma {:induction false} ChainLookup(key: Slice, t: Tree, k: seq<bool>)
    requires key.offset < 8
    ensures Lookup(Chain(key, t), k) == if key.bits <= k then Lookup(t, k[|key.bits|..]) else None
    decreases |key.bits|
  {
    hide BitInByte;
    hide Slice.FirstChunkLen;
    if key.bits == [] {
      assert k[0..] == k;
    } else {
      var n := key.FirstChunkLen();
      ChainStarts(key, t, k);
      PrefixParts(key.bits, k, n);
      if key.bits[..n] <= k {
        ChainLookup(key.Drop(n), t, k[n..]);
      }
    }
  }

  lemma {:induction false} ChainShape(key: Slice, t: Tree, d: nat, limit: nat)
    requires key.offset == BitInByte(d) && key.offset < 8
    requires WF(t, d + |key.bits|)
    ensures WF(Chain(key, t), d)
    ensures key.bits != [] ==> Chain(key, t).Ext?
    ensures key.bits == [] ==> Chain(key, t) == t
    ensures Canonical(t) && !t.Ext? && d + |key.bits| <= MAX_EXTENSION_KEY_BITS ==> Canonical(Chain(key, t))
    ensures Shallow(t, d + |key.bits|, limit) ==> Shallow(Chain(key, t), d, limit)
    decreases |key.bits|
  {
    hide BitInByte;
    if key.bits != [] {
      var n := key.FirstChunkLen();
      BitInByteAdd(d, n);
      ChainShape(key.Drop(n), t, d + n, limit);
    }
  }

  /** What insertion keeps: well-formedness, canonical shape for short keys and the depth limit. */
  lemma {:induction false} SetShape(t: Tree, d: nat, key: Slice, value: Hash, limit: nat)
    requires WF(t, d) && key.offset == BitInByte(d)
    requires 0 < d + |key.bits| <= MAX_KEY_BITS && BitInByte(d + |key.bits|) == 0
    requires SetTree(t, key, value).Ok?
    ensures var t' := SetTree(t, key, value).value;
      && WF(t', d) && !IsSealed(t') && t'.Leaf? == t.Leaf?
      && (Shallow(t, d, limit) && d + |key.bits| <= limit ==> Shallow(t', d, limit))
      && (Canonical(t) && d + |key.bits| <= MAX_EXTENSION_KEY_BITS ==> Canonical(t'))
      && (t'.Ext? ==> t.Ext?)
  {
    hide BitInByte;
    hide MatchLen;
    hide Chain;
    hide Slice.FirstChunkLen;
    hide Split;
    match t
    case Leaf(_, _) =>
    case Branch(_, l, r) =>
      BitInByteAdd(d, 1);
      SetShape(if key.bits[0] then r else l, d + 1, key.Drop(1), value, limit);
    case Ext(e, c) =>
      var n := MatchLen(key, e);
      BitInByteAdd(d, n);
      if n == |e.bits| {
        SetShape(c, d + n, key.Drop(n), value, limit);
      } else {
        SplitKeeps(e, c, d, key, value, limit);
      }
  }

  lemma SplitKeeps(e: Slice, c: Tree, d: nat, key: Slice, value: Hash, limit: nat)
    requires WF(Ext(e, c), d) && key.offset == BitInByte(d) && MatchLen(key, e) < |e.bits|
    requires 0 < d + |key.bits| <= MAX_KEY_BITS && BitInByte(d + |key.bits|) == 0
    requires SetTree(Ext(e, c), key, value).Ok?
    ensures var t' := SetTree(Ext(e, c), key, value).value;
      && WF(t', d) && !IsSealed(t') && !t'.Leaf?
      && (Shallow(Ext(e, c), d, limit) && d + |key.bits| <= limit ==> Shallow(t', d, limit))
      && (Canonical(Ext(e, c)) && d + |key.bits| <= MAX_EXTENSION_KEY_BITS ==> Canonical(t'))
  {
    hide BitInByte;
    hide MatchLen;
    hide Chain;
    hide Split;
    hide Slice.FirstChunkLen;
    var n := MatchLen(key, e);
    BitInByteAdd(d, n);
    SplitShape(e, c, key.Drop(n), d, n, value, limit);
  }

  lemma SplitShape(e: Slice, c: Tree, rest: Slice, d: nat, n: nat, value: Hash, limit: nat)
    requires WF(Ext(e, c), d) && n < |e.bits|
    requires rest.offset == BitInByte(d + n) && rest.bits != []
    requires d + n + |rest.bits| <= MAX_KEY_BITS && BitInByte(d + n + |rest.bits|) == 0
    ensures var b := Split(e, c, rest, n, value);
      && b.Branch? && !b.freed && WF(b, d + n)
      && (Shallow(Ext(e, c), d, limit) && d + n + |rest.bits| <= limit ==> Shallow(b, d + n, limit))
      && (Canonical(Ext(e, c)) && d + n + |rest.bits| <= MAX_EXTENSION_KEY_BITS ==> Canonical(b))
  {
    hide BitInByte;
    BitInByteAdd(d + n, 1);
    BitInByteAdd(d, n + 1);
    ChainShape(rest.Drop(1), Leaf(value, false), d + n + 1, limit);
  }

  lemma NewValueLookup(rest: Slice, value: Hash, k: seq<bool>)
    requires rest.offset < 8
    ensures Lookup(Chain(rest, Leaf(value, false)), k) ==
            if k == rest.bits then Some(Entry(value, false)) else None
  {
    ChainLookup(rest, Leaf(value, false), k);
    if rest.bits <= k && k[|rest.bits|..] == [] {
      assert k == rest.bits + k[|rest.bits|..];
    }
  }

  lemma RemainderLookup(e: Slice, c: Tree, n: nat, k: seq<bool>)
    requires n < |e.bits| && k != [] && k[0] == e.bits[n]
    ensures Lookup(if n + 1 == |e.bits| then c else Ext(e.Drop(n + 1), c), k[1..]) ==
            if e.bits[n..] <= k then Lookup(c, k[|e.bits| - n..]) else None
  {
    hide BitInByte;
    assert e.bits[n..] == [e.bits[n]] + e.bits[n + 1..];
    assert k == [k[0]] + k[1..];
    assert e.bits[n..] <= k <==> e.bits[n + 1..] <= k[1..];
    if e.bits[n..] <= k {
      assert k[1..][|e.bits| - n - 1..] == k[|e.bits| - n..];
    }
  }

  lemma {:induction false} SplitLookup(e: Slice, c: Tree, rest: Slice, n: nat, value: Hash, k: seq<bool>)
    requires rest.offset < 8 && rest.bits != [] && n < |e.bits| && rest.bits[0] != e.bits[n]
    ensures Lookup(Split(e, c, rest, n, value), k) ==
            if k == rest.bits then Some(Entry(value, false))
            else if e.bits[n..] <= k then Lookup(c, k[|e.bits| - n..])
            else None
  {
    hide BitInByte;
    hide Chain;
    if k != [] {
      assert k == [k[0]] + k[1..];
      assert rest.bits == [rest.bits[0]] + rest.bits[1..];
      if k[0] == rest.bits[0] {
        NewValueLookup(rest.Drop(1), value, k[1..]);
        assert e.bits[n..][0] != k[0];
      } else {
        RemainderLookup(e, c, n, k);
      }
    }
  }

  /** Insertion changes the map at exactly one key. */
  lemma {:induction false} SetLookup(t: Tree, d: nat, key: Slice, value: Hash, k: seq<bool>)
    requires WF(t, d) && key.offset == BitInByte(d)
    requires SetTree(t, key, value).Ok?
    ensures Lookup(SetTree(t, key, value).value, k) ==
            if k == key.bits then Some(Entry(value, false)) else Lookup(t, k)
  {
    hide BitInByte;
    hide MatchLen;
    hide Split;
    match t
    case Leaf(_, _) =>
    case Branch(_, l, r) =>
      BitInByteAdd(d, 1);
      if k != [] && k[0] == key.bits[0] {
        SetLookup(if key.bits[0] then r else l, d + 1, key.Drop(1), value, k[1..]);
        assert k == [k[0]] + k[1..];
        assert key.bits == [k[0]] + key.bits[1..];
      }
    case Ext(e, c) =>
      var n := MatchLen(key, e);
      BitInByteAdd(d, n);
      assert key.bits == e.bits[..n] + key.bits[n..];
      if e.bits[..n] <= k {
        assert k == e.bits[..n] + k[n..];
        if n == |e.bits| {
          SetLookup(c, d + n, key.Drop(n), value, k[n..]);
        } else {
          SplitLookup(e, c, key.Drop(n), n, value, k[n..]);
          PrefixParts(e.bits, k, n);
        }
      }
      assert k[0..] == k && e.bits[0..] == e.bits;
  }

  /** When insertion is refused, a sealed entry sits at the key or another key is comparable with it. */
  lemma {:induction false} SetRefused(t: Tree, d: nat, key: Slice, value: Hash) returns (k: seq<bool>)
    requires WF(t, d) && key.offset == BitInByte(d)
    requires SetTree(t, key, value).Err?
    ensures Comparable(k, key.bits) && Lookup(t, k).Some?
    ensures k == key.bits ==> Lookup(t, k).value.isSealed
  {
    hide BitInByte;
    hide MatchLen;
    hide Split;
    match t
    case Leaf(_, _) => k := [];
    case Branch(freed, l, r) =>
      if freed {
        k := FreedIsComplete(t, d, key.bits);
      } else if key.bits == [] {
        k := SomeKey(t);
        SomeKeyIsThere(t);
      } else {
        BitInByteAdd(d, 1);
        var k' := SetRefused(if key.bits[0] then r else l, d + 1, key.Drop(1), value);
        k := [key.bits[0]] + k';
        assert key.bits == [key.bits[0]] + key.bits[1..];
        assert k[1..] == k';
      }
    case Ext(e, c) =>
      var n := MatchLen(key, e);
      if key.bits != [] && n == |e.bits| {
        BitInByteAdd(d, n);
        var k' := SetRefused(c, d + n, key.Drop(n), value);
        k := e.bits + k';
        assert key.bits == e.bits + key.bits[n..];
        assert k[n..] == k';
      } else {
        k := SomeKey(t);
        SomeKeyIsThere(t);
        assert key.bits <= e.bits;
        assert |e.bits| > |key.bits|;
      }
  }

  /** A freed subtrie leaves no room: every key meets one of its sealed entries. */
  lemma {:induction false} FreedIsComplete(t: Tree, d: nat, key: seq<bool>) returns (k: seq<bool>)
    requires WF(t, d) && IsSealed(t)
    ensures Comparable(k, key) && Lookup(t, k).Some? && Lookup(t, k).value.isSealed
  {
    match t
    case Leaf(_, _) => k := [];
    case Branch(_, l, r) =>
      if key == [] {
        var k' := FreedIsComplete(l, d + 1, []);
        k := [false] + k';
        assert k[1..] == k';
      } else {
        var k' := FreedIsComplete(if key[0] then r else l, d + 1, key[1..]);
        k := [key[0]] + k';
        assert key == [key[0]] + key[1..];
        assert k[1..] == k';
      }
  }

  lemma Diverge(a: seq<bool>, b: seq<bool>, k: seq<bool>, n: nat)
    requires n < |a| && n < |b| && a[n] != b[n] && a <= k
    ensures !Comparable(k, b)
  {
    assert k[n] == a[n];
  }

  /** When insertion succeeds on a new key, no key of the trie is comparable with it. */
  lemma {:induction false} SetAccepted(t: Tree, d: nat, key: Slice, value: Hash, k: seq<bool>)
    requires WF(t, d) && key.offset == BitInByte(d)
    requires SetTree(t, key, value).Ok?
    requires Lookup(t, k).Some? && Comparable(k, key.bits)
    ensures k == key.bits && !Lookup(t, k).value.isSealed
  {
    hide BitInByte;
    hide MatchLen;
    hide Split;
    match t
    case Leaf(_, _) =>
    case Branch(_, l, r) =>
      BitInByteAdd(d, 1);
      assert k != [] && k[0] == key.bits[0];
      SetAccepted(if key.bits[0] then r else l, d + 1, key.Drop(1), value, k[1..]);
      assert k == [k[0]] + k[1..];
      assert key.bits == [k[0]] + key.bits[1..];
    case Ext(e, c) =>
      var n := MatchLen(key, e);
      assert k == e.bits + k[|e.bits|..];
      BitInByteAdd(d, n);
      if n == |e.bits| {
        assert key.bits == e.bits + key.bits[n..];
        SetAccepted(c, d + n, key.Drop(n), value, k[n..]);
      } else {
        Diverge(e.bits, key.bits, k, n);
      }
  }

  /** Insertion is refused with `Sealed` at every key holding a sealed entry. */
  lemma {:induction false} SetSealed(t: Tree, d: nat, key: Slice, value: Hash)
    requires WF(t, d) && key.offset == BitInByte(d)
    requires Lookup(t, key.bits).Some? && Lookup(t, key.bits).value.isSealed
    ensures SetTree(t, key, value) == Err(Sealed)
  {
    hide BitInByte;
    match t
    case Leaf(_, _) =>
    case Branch(freed, l, r) =>
      if !freed {
        BitInByteAdd(d, 1);
        SetSealed(if key.bits[0] then r else l, d + 1, key.Drop(1), value);
      }
    case Ext(e, c) =>
      PrefixLenIs(key.bits, e.bits, |e.bits|);
      BitInByteAdd(d, |e.bits|);
      SetSealed(c, d + |e.bits|, key.Drop(|e.bits|), value);
  }

  lemma {:induction false} SetErrors(t: Tree, key: Slice, value: Hash)
    requires key.offset < 8 && SetTree(t, key, value).Err?
    ensures SetTree(t, key, value).error == Sealed || SetTree(t, key, value).error == BadKeyPrefix
  {
    hide BitInByte;
    match t
    case Leaf(_, _) =>
    case Branch(freed, l, r) =>
      if !freed && key.bits != [] {
        SetErrors(if key.bits[0] then r else l, key.Drop(1), value);
      }
    case Ext(e, c) =>
      var n := MatchLen(key, e);
      if key.bits != [] && n == |e.bits| {
        SetErrors(c, key.Drop(n), value);
      }
  }
}
