/** What the operations answer, success and every error, as far as the map of entries alone decides it: all of it. */
module Answers {
  import opened Wrappers
  import opened Bits
  import opened Tree
  import opened SetSpec
  import opened DelSpec
  import opened SealSpec
  import opened History

  // ----- sealed entries that leave no room

  predicate EntryAt(t: Tree, k: seq<bool>, onlySealed: bool) {
    Lookup(t, k).Some? && (onlySealed ==> Lookup(t, k).value.isSealed)
  }

  /** An entry, or a sealed one, starts the key. */
  ghost predicate Stopped(t: Tree, q: seq<bool>, onlySealed: bool) {
    exists n :: 0 <= n <= |q| && EntryAt(t, q[..n], onlySealed)
  }

  lemma StopsBranch(t: Tree, q: seq<bool>, onlySealed: bool)
    requires t.Branch? && q != []
    ensures Stopped(t, q, onlySealed) <==> Stopped(if q[0] then t.right else t.left, q[1..], onlySealed)
  {
    var c := if q[0] then t.right else t.left;
    if n :| 0 <= n <= |q| && EntryAt(t, q[..n], onlySealed) {
      assert n > 0 && q[..n][1..] == q[1..][..n - 1];
      assert EntryAt(c, q[1..][..n - 1], onlySealed);
    }
    if n :| 0 <= n <= |q| - 1 && EntryAt(c, q[1..][..n], onlySealed) {
      assert q[..n + 1][1..] == q[1..][..n];
      assert EntryAt(t, q[..n + 1], onlySealed);
    }
  }

  lemma StopsExt(t: Tree, q: seq<bool>, onlySealed: bool)
    requires t.Ext?
    ensures Stopped(t, q, onlySealed) <==> t.key.bits <= q && Stopped(t.child, q[|t.key.bits|..], onlySealed)
  {
    var e, c := t.key.bits, t.child;
    if n :| 0 <= n <= |q| && EntryAt(t, q[..n], onlySealed) {
      assert e <= q[..n] <= q && q[..n][|e|..] == q[|e|..][..n - |e|];
      assert EntryAt(c, q[|e|..][..n - |e|], onlySealed);
    }
    if e <= q && exists n :: 0 <= n <= |q| - |e| && EntryAt(c, q[|e|..][..n], onlySealed) {
      var n :| 0 <= n <= |q| - |e| && EntryAt(c, q[|e|..][..n], onlySealed);
      assert q[..n + |e|][|e|..] == q[|e|..][..n];
      assert EntryAt(t, q[..n + |e|], onlySealed);
    }
  }

  /** Every key of full length below a freed subtrie starts with a sealed entry. */
  lemma {:induction false} FreedStops(t: Tree, d: nat, q: seq<bool>)
    requires WF(t, d) && IsSealed(t) && d + |q| == MAX_KEY_BITS
    ensures Stopped(t, q, true)
  {
    match t
    case Leaf(_, _) => assert EntryAt(t, q[..0], true);
    case Branch(_, l, r) =>
      DepthBound(l, d + 1, 0);
      FreedStops(if q[0] then r else l, d + 1, q[1..]);
      StopsBranch(t, q, true);
  }

  lemma LeafStops(t: Tree, q: seq<bool>)
    requires t.Leaf? && !t.isSealed
    ensures !Stopped(t, q, true)
  {
  }

  /** Below any other one there is a way past all sealed entries. */
  lemma {:induction false} Escape(t: Tree, d: nat) returns (q: seq<bool>)
    requires WF(t, d) && !IsSealed(t)
    ensures d + |q| == MAX_KEY_BITS && !Stopped(t, q, true)
  {
    DepthBound(t, d, 0);
    match t
    case Leaf(_, _) =>
      q := Zeros(MAX_KEY_BITS - d);
      LeafStops(t, q);
    case Branch(_, l, r) =>
      var bit := IsSealed(l);
      var rest := Escape(if bit then r else l, d + 1);
      q := [bit] + rest;
      assert q[1..] == rest;
      StopsBranch(t, q, true);
    case Ext(e, c) =>
      DepthBound(c, d + |e.bits|, 0);
      q := [!e.bits[0]] + Zeros(MAX_KEY_BITS - d - 1);
      StopsExt(t, q, true);
  }

  /** Sealed entries start every key of full length that starts with `p`. */
  ghost predicate Covers(t: Tree, d: nat, p: seq<bool>) {
    forall q | p <= q && d + |q| == MAX_KEY_BITS :: Stopped(t, q, true)
  }

  lemma CoversBelow(t: Tree, d: nat, c: Tree, p: seq<bool>, rest: seq<bool>)
    requires forall q | d + |p| + |q| == MAX_KEY_BITS :: Stopped(t, p + q, true) <==> Stopped(c, q, true)
    ensures Covers(t, d, p + rest) <==> Covers(c, d + |p|, rest)
  {
    if Covers(t, d, p + rest) {
      forall q | rest <= q && d + |p| + |q| == MAX_KEY_BITS ensures Stopped(c, q, true) {
        assert p + rest <= p + q;
      }
    }
    if Covers(c, d + |p|, rest) {
      forall q | p + rest <= q && d + |q| == MAX_KEY_BITS ensures Stopped(t, q, true) {
        ConcatPrefix(p, rest, q);
        assert q == p + q[|p|..];
      }
    }
  }

  lemma CoversBranch(t: Tree, d: nat, p: seq<bool>)
    requires t.Branch? && p != []
    ensures Covers(t, d, p) <==> Covers(if p[0] then t.right else t.left, d + 1, p[1..])
  {
    var c := if p[0] then t.right else t.left;
    forall q | d + 1 + |q| == MAX_KEY_BITS ensures Stopped(t, [p[0]] + q, true) <==> Stopped(c, q, true) {
      assert ([p[0]] + q)[1..] == q;
      StopsBranch(t, [p[0]] + q, true);
    }
    assert p == [p[0]] + p[1..];
    CoversBelow(t, d, c, [p[0]], p[1..]);
  }

  lemma CoversExt(t: Tree, d: nat, p: seq<bool>)
    requires t.Ext? && t.key.bits <= p
    ensures Covers(t, d, p) <==> Covers(t.child, d + |t.key.bits|, p[|t.key.bits|..])
  {
    var e := t.key.bits;
    forall q | d + |e| + |q| == MAX_KEY_BITS ensures Stopped(t, e + q, true) <==> Stopped(t.child, q, true) {
      assert (e + q)[|e|..] == q;
      StopsExt(t, e + q, true);
    }
    assert p == e + p[|e|..];
    CoversBelow(t, d, t.child, e, p[|e|..]);
  }

  /** A key that ends inside an Extension, or leaves it, is not covered. */
  lemma LeavesExt(t: Tree, d: nat, p: seq<bool>)
    requires t.Ext? && WF(t, d) && d + |p| <= MAX_KEY_BITS && !(t.key.bits <= p)
    ensures !Covers(t, d, p)
  {
    var e := t.key.bits;
    DepthBound(t.child, d + |e|, 0);
    var q;
    if p < e {
      q := p + [!e[|p|]] + Zeros(MAX_KEY_BITS - d - |p| - 1);
      assert q[|p|] != e[|p|];
    } else {
      q := p + Zeros(MAX_KEY_BITS - d - |p|);
    }
    StopsExt(t, q, true);
  }

  lemma CoversNothing(t: Tree, d: nat)
    requires WF(t, d)
    ensures Covers(t, d, []) <==> IsSealed(t)
  {
    if IsSealed(t) {
      forall q | d + |q| == MAX_KEY_BITS ensures Stopped(t, q, true) {
        FreedStops(t, d, q);
      }
    } else {
      var q := Escape(t, d);
    }
  }

  lemma LeafCovers(t: Tree, d: nat, p: seq<bool>)
    requires t.Leaf? && d + |p| <= MAX_KEY_BITS
    ensures Covers(t, d, p) <==> t.isSealed
  {
    if t.isSealed {
      forall q | p <= q && d + |q| == MAX_KEY_BITS ensures Stopped(t, q, true) {
        assert EntryAt(t, q[..0], true);
      }
    } else {
      var q := p + Zeros(MAX_KEY_BITS - d - |p|);
      LeafStops(t, q);
    }
  }

  /** Retrieval reports a seal exactly when sealed entries cover the key or one of its prefixes. */
  lemma {:induction false} GetCovered(t: Tree, d: nat, key: Slice)
    requires WF(t, d) && key.offset == BitInByte(d) && d + |key.bits| <= MAX_KEY_BITS
    ensures GetTree(t, key) == Err(Sealed) <==> Covers(t, d, key.bits)
  {
    hide BitInByte;
    match t
    case Leaf(_, _) => LeafCovers(t, d, key.bits);
    case Branch(freed, l, r) =>
      CoversNothing(t, d);
      if freed {
      } else if key.bits != [] {
        BitInByteAdd(d, 1);
        GetCovered(if key.bits[0] then r else l, d + 1, key.Drop(1));
        CoversBranch(t, d, key.bits);
      }
    case Ext(e, c) =>
      if key.StartsWith(e) {
        BitInByteAdd(d, |e.bits|);
        GetCovered(c, d + |e.bits|, key.Drop(|e.bits|));
        CoversExt(t, d, key.bits);
      } else {
        LeavesExt(t, d, key.bits);
      }
  }

  // ----- the other operations

  /** A prefix of the key is covered by sealed entries and no entry starts it: a freed Branch is on the way. */
  ghost predicate Blocked(t: Tree, d: nat, key: seq<bool>) {
    exists n :: 0 <= n <= |key| && BlockedAt(t, d, key[..n])
  }

  ghost predicate BlockedAt(t: Tree, d: nat, p: seq<bool>) {
    Covers(t, d, p) && !Stopped(t, p, false)
  }

  lemma BlockedBranch(t: Tree, d: nat, key: seq<bool>)
    requires t.Branch? && WF(t, d) && !t.freed && key != []
    ensures Blocked(t, d, key) <==> Blocked(if key[0] then t.right else t.left, d + 1, key[1..])
  {
    var c := if key[0] then t.right else t.left;
    CoversNothing(t, d);
    assert key[..0] == [];
    forall n | 0 < n <= |key|
      ensures key[1..][..n - 1] == key[..n][1..]
      ensures BlockedAt(t, d, key[..n]) <==> BlockedAt(c, d + 1, key[1..][..n - 1])
    {
      assert key[..n][1..] == key[1..][..n - 1];
      CoversBranch(t, d, key[..n]);
      StopsBranch(t, key[..n], false);
    }
    if n :| 0 <= n <= |key| - 1 && BlockedAt(c, d + 1, key[1..][..n]) {
      assert BlockedAt(t, d, key[..n + 1]);
    }
  }

  lemma BlockedExt(t: Tree, d: nat, key: seq<bool>)
    requires t.Ext? && WF(t, d) && d + |key| <= MAX_KEY_BITS
    ensures Blocked(t, d, key) <==>
      t.key.bits <= key && Blocked(t.child, d + |t.key.bits|, key[|t.key.bits|..])
  {
    var e, c := t.key.bits, t.child;
    forall n | 0 <= n <= |key|
      ensures BlockedAt(t, d, key[..n]) ==> e <= key && |e| <= n
    {
      if !(e <= key[..n]) {
        LeavesExt(t, d, key[..n]);
      }
    }
    if e <= key {
      forall n | |e| <= n <= |key|
        ensures BlockedAt(t, d, key[..n]) <==> BlockedAt(c, d + |e|, key[|e|..][..n - |e|])
      {
        assert key[..n][|e|..] == key[|e|..][..n - |e|];
        CoversExt(t, d, key[..n]);
        StopsExt(t, key[..n], false);
      }
      if n :| 0 <= n <= |key| - |e| && BlockedAt(c, d + |e|, key[|e|..][..n]) {
        assert BlockedAt(t, d, key[..n + |e|]);
      }
    }
  }

  /** Insertion reports a seal exactly at a sealed entry and behind a freed Branch. */
  lemma {:induction false} SetBlocked(t: Tree, d: nat, key: Slice, value: Hash)
    requires WF(t, d) && key.offset == BitInByte(d) && d + |key.bits| <= MAX_KEY_BITS
    ensures SetTree(t, key, value) == Err(Sealed) <==> EntryAt(t, key.bits, true) || Blocked(t, d, key.bits)
  {
    hide BitInByte;
    hide MatchLen;
    hide Split;
    hide Covers;
    match t
    case Leaf(_, _) => LeafBlocks(t, d, key.bits);
    case Branch(freed, l, r) =>
      EndsInBranch(t, d, key.bits);
      if !freed && key.bits != [] {
        BitInByteAdd(d, 1);
        SetBlocked(if key.bits[0] then r else l, d + 1, key.Drop(1), value);
        BlockedBranch(t, d, key.bits);
      }
    case Ext(e, c) =>
      BlockedExt(t, d, key.bits);
      var n := MatchLen(key, e);
      if key.bits != [] && n == |e.bits| {
        BitInByteAdd(d, n);
        SetBlocked(c, d + n, key.Drop(n), value);
      } else {
        assert !(e.bits <= key.bits);
      }
  }

  lemma LeafBlocks(t: Tree, d: nat, key: seq<bool>)
    requires t.Leaf?
    ensures !Blocked(t, d, key)
  {
    forall n | 0 <= n <= |key| ensures Stopped(t, key[..n], false) {
      assert EntryAt(t, key[..n][..0], false);
    }
  }

  lemma EndsInBranch(t: Tree, d: nat, key: seq<bool>)
    requires t.Branch? && WF(t, d)
    ensures t.freed ==> Blocked(t, d, key)
    ensures !t.freed && key == [] ==> !Blocked(t, d, key)
  {
    CoversNothing(t, d);
    assert key[..0] == [];
    assert !Stopped(t, [], false);
    if t.freed {
      assert BlockedAt(t, d, key[..0]);
    }
  }

  // ----- in terms of the map

  /** Whatever the key is continued with, a sealed entry starts it. */
  ghost predicate SealedOff(m: Entries, key: seq<bool>) {
    forall q | key <= q && |q| == MAX_KEY_BITS :: exists a :: a in m && m[a].isSealed && a <= q
  }

  /** A prefix of the key is sealed off, though no entry starts it. */
  ghost predicate Walled(m: Entries, key: seq<bool>) {
    exists n :: 0 <= n <= |key| && SealedOff(m, key[..n]) && forall a | a in m :: !(a <= key[..n])
  }

  lemma StoppedInMap(s: State, q: seq<bool>, onlySealed: bool)
    requires s.Root?
    ensures Stopped(s.tree, q, onlySealed) <==>
      exists a :: a in EntriesOf(s) && (onlySealed ==> EntriesOf(s)[a].isSealed) && a <= q
  {
    hide EntriesOf;
    forall k
      ensures k in EntriesOf(s) <==> Lookup(s.tree, k).Some?
      ensures k in EntriesOf(s) ==> EntriesOf(s)[k] == Lookup(s.tree, k).value
    {
      EntriesAt(s, k);
    }
    if n :| 0 <= n <= |q| && EntryAt(s.tree, q[..n], onlySealed) {
      assert q[..n] in EntriesOf(s);
    }
    if a :| a in EntriesOf(s) && (onlySealed ==> EntriesOf(s)[a].isSealed) && a <= q {
      assert q[..|a|] == a && EntryAt(s.tree, q[..|a|], onlySealed);
    }
  }

  lemma CoversInMap(s: State, p: seq<bool>)
    requires s.Root?
    ensures Covers(s.tree, 0, p) <==> SealedOff(EntriesOf(s), p)
  {
    hide EntriesOf;
    hide Stopped;
    forall q ensures Stopped(s.tree, q, true) <==> exists a :: a in EntriesOf(s) && EntriesOf(s)[a].isSealed && a <= q {
      StoppedInMap(s, q, true);
    }
  }

  lemma NothingSealedOff(p: seq<bool>)
    requires |p| <= MAX_KEY_BITS
    ensures !SealedOff(map[], p)
  {
    assert p <= p + Zeros(MAX_KEY_BITS - |p|);
  }

  /** What retrieval answers. */
  lemma {:induction false} GetAnswer(s: State, key: Key)
    requires Inv(s)
    ensures var m := EntriesOf(s);
      Get(s, key) ==
        if |key| > MAX_KEY_BITS then Err(KeyTooLong)
        else if SealedOff(m, key) then Err(Sealed)
        else if key in m then Ok(Some(m[key].hash))
        else Ok(None)
  {
    hide SealedOff;
    GetMeaning(s, key);
    if |key| <= MAX_KEY_BITS {
      if s.Root? {
        GetCovered(s.tree, 0, Slice(0, key));
        CoversInMap(s, key);
      } else {
        NothingSealedOff(key);
      }
    }
  }

  /** What deletion answers: a key that is absent, and not behind a seal, is reported as such and nothing
      changes. */
  lemma {:induction false} DelAnswer(s: State, key: Key)
    requires Inv(s)
    ensures var m := EntriesOf(s);
      if |key| > MAX_KEY_BITS then Del(s, key) == Err(KeyTooLong)
      else if SealedOff(m, key) then Del(s, key) == Err(Sealed)
      else if key in m then Del(s, key).Ok? && Del(s, key).value.1
      else Del(s, key) == Ok((s, false))
  {
    hide SealedOff;
    hide Resolve;
    hide EntriesOf;
    GetAnswer(s, key);
    DelMeaning(s, key);
    if s.Root? && |key| <= MAX_KEY_BITS {
      DelFollowsGet(s.tree, 0, Slice(0, key));
    }
  }

  /** Deletion finds nothing exactly where retrieval does. */
  lemma {:induction false} DelFindsNothing(s: State, key: Key)
    requires Inv(s)
    ensures Del(s, key).Ok? && !Del(s, key).value.1 <==> Get(s, key) == Ok(None)
  {
    hide SealedOff;
    hide EntriesOf;
    DelAnswer(s, key);
    GetAnswer(s, key);
  }

  /** What sealing answers. */
  lemma {:induction false} SealAnswer(s: State, key: Key)
    requires Inv(s)
    ensures var m := EntriesOf(s);
      if m == map[] then Seal(s, key) == Err(NotFound)
      else if |key| > MAX_KEY_BITS then Seal(s, key) == Err(KeyTooLong)
      else if SealedOff(m, key) then Seal(s, key) == Err(Sealed)
      else if key in m then Seal(s, key).Ok?
      else Seal(s, key) == Err(NotFound)
  {
    hide SealedOff;
    GetAnswer(s, key);
    if s.Root? {
      RootIsNotEmpty(s);
      SealFollowsGet(s.tree, Slice(0, key));
    }
  }

  /** What insertion answers. */
  lemma {:induction false} SetAnswer(s: State, key: Key, value: Hash)
    requires Inv(s)
    ensures var m := EntriesOf(s);
      if |key| > MAX_KEY_BITS then Set(s, key, value) == Err(KeyTooLong)
      else if m == map[] && key == [] then Set(s, key, value) == Err(EmptyKey)
      else if Insertable(m, key) then Set(s, key, value).Ok?
      else if (key in m && m[key].isSealed) || Walled(m, key) then Set(s, key, value) == Err(Sealed)
      else Set(s, key, value) == Err(BadKeyPrefix)
  {
    hide Insertable;
    hide Walled;
    SetMeaning(s, key, value);
    if s.Root? && |key| <= MAX_KEY_BITS {
      RootIsNotEmpty(s);
      EntriesAt(s, key);
      SetBlocked(s.tree, 0, Slice(0, key), value);
      BlockedInMap(s, key);
      if Set(s, key, value).Err? {
        SetErrors(s.tree, Slice(0, key), value);
      }
    } else if s.Empty? {
      EmptyInsertable(key);
    }
  }

  lemma EmptyInsertable(key: seq<bool>)
    ensures Insertable(map[], key) <==> 0 < |key| <= MAX_KEY_BITS
  {
  }

  lemma BlockedInMap(s: State, key: seq<bool>)
    requires s.Root?
    ensures Blocked(s.tree, 0, key) <==> Walled(EntriesOf(s), key)
  {
    hide EntriesOf;
    hide Stopped;
    hide Covers;
    hide SealedOff;
    forall n | 0 <= n <= |key|
      ensures BlockedAt(s.tree, 0, key[..n]) <==>
        SealedOff(EntriesOf(s), key[..n]) && forall a | a in EntriesOf(s) :: !(a <= key[..n])
    {
      CoversInMap(s, key[..n]);
      StoppedInMap(s, key[..n], false);
    }
  }

  /** Storing and sealing at once is refused just as storing is, for the same reason. */
  lemma {:induction false} SetAndSealAnswer(s: State, key: Key, value: Hash)
    requires Inv(s)
    ensures SetAndSeal(s, key, value).1 == match Set(s, key, value) case Ok(_) => Ok(()) case Err(e) => Err(e)
  {
    SetMeaning(s, key, value);
    SetAndSealMeaning(s, key, value);
  }

  // ----- the map is all that counts

  function ErrorOf<T>(r: Result<T, Error>): Option<Error> {
    match r case Ok(_) => None case Err(e) => Some(e)
  }

  /** Tries that hold the same entries answer alike, whatever their shape. */
  lemma {:induction false} MapDecides(a: State, b: State, key: Key, value: Hash)
    requires Inv(a) && Inv(b)
    ensures EntriesOf(a) == EntriesOf(b) ==>
      && Get(a, key) == Get(b, key)
      && ErrorOf(Set(a, key, value)) == ErrorOf(Set(b, key, value))
      && ErrorOf(Seal(a, key)) == ErrorOf(Seal(b, key))
      && ErrorOf(Del(a, key)) == ErrorOf(Del(b, key))
      && (Del(a, key).Ok? ==> Del(a, key).value.1 == Del(b, key).value.1)
  {
    hide EntriesOf;
    hide Walled;
    hide SealedOff;
    hide Insertable;
    GetAnswer(a, key);
    GetAnswer(b, key);
    SetAnswer(a, key, value);
    SetAnswer(b, key, value);
    SealAnswer(a, key);
    SealAnswer(b, key);
    DelAnswer(a, key);
    DelAnswer(b, key);
  }
}
