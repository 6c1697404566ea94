/** Retrieval and sealing on trie values. */
module SealSpec {
  import opened Wrappers
  import opened Bits
  import opened Tree
  import opened SetSpec
  import opened DelSpec

  function GetTree(t: Tree, key: Slice): Result<Option<Hash>, Error>
  {
    match t
    case Leaf(h, isSealed) =>
      if isSealed then Err(Sealed) else if key.bits == [] then Ok(Some(h)) else Ok(None)
    case Branch(freed, l, r) =>
      if freed then Err(Sealed)
      else if key.bits == [] then Ok(None)
      else GetTree(if key.bits[0] then r else l, key.Drop(1))
    case Ext(e, c) =>
      if key.StartsWith(e) then GetTree(c, key.Drop(|e.bits|)) else Ok(None)
  }

  /** The subtrie with the value at `key` sealed.  A Branch whose children are both sealed is freed. */
  function SealTree(t: Tree, key: Slice): Result<Tree, Error>
  {
    match t
    case Leaf(h, isSealed) =>
      if isSealed then Err(Sealed) else if key.bits == [] then Ok(Leaf(h, true)) else Err(NotFound)
    case Branch(freed, l, r) =>
      if freed then Err(Sealed)
      else if key.bits == [] then Err(NotFound)
      else if key.bits[0] then
        var c :- SealTree(r, key.Drop(1));
        Ok(Branch(IsSealed(c) && IsSealed(l), l, c))
      else
        var c :- SealTree(l, key.Drop(1));
        Ok(Branch(IsSealed(c) && IsSealed(r), c, r))
    case Ext(e, c) =>
      if key.StartsWith(e) then
        var c' :- SealTree(c, key.Drop(|e.bits|));
        Ok(Ext(e, c'))
      else Err(NotFound)
  }

  /** Retrieval answers what the map holds and refuses sealed entries. */
  lemma {:induction false} GetOutcome(t: Tree, d: nat, key: Slice)
    requires WF(t, d) && key.offset == BitInByte(d)
    ensures match Lookup(t, key.bits)
            case Some(e) => GetTree(t, key) == (if e.isSealed then Err(Sealed) else Ok(Some(e.hash)))
            case None => GetTree(t, key) == Ok(None) || GetTree(t, key) == Err(Sealed)
  {
    hide BitInByte;
    match t
    case Leaf(_, _) =>
    case Branch(freed, l, r) =>
      if freed {
        if Lookup(t, key.bits).Some? {
          FreedEntries(t, d, key.bits);
        }
      } else if key.bits != [] {
        BitInByteAdd(d, 1);
        GetOutcome(if key.bits[0] then r else l, d + 1, key.Drop(1));
      }
    case Ext(e, c) =>
      if e.bits <= key.bits {
        BitInByteAdd(d, |e.bits|);
        GetOutcome(c, d + |e.bits|, key.Drop(|e.bits|));
      }
  }

  /** When a key that holds nothing is reported sealed, a sealed entry is comparable with it. */
  lemma {:induction false} GetSealed(t: Tree, d: nat, key: Slice) returns (k: seq<bool>)
    requires WF(t, d) && key.offset == BitInByte(d)
    requires GetTree(t, key) == Err(Sealed)
    ensures Comparable(k, key.bits) && Lookup(t, k).Some? && Lookup(t, k).value.isSealed
  {
    hide BitInByte;
    match t
    case Leaf(_, _) => k := [];
    case Branch(freed, l, r) =>
      if freed {
        k := FreedIsComplete(t, d, key.bits);
      } else {
        BitInByteAdd(d, 1);
        var k' := GetSealed(if key.bits[0] then r else l, d + 1, key.Drop(1));
        k := [key.bits[0]] + k';
        assert key.bits == [key.bits[0]] + key.bits[1..];
        assert k[1..] == k';
      }
    case Ext(e, c) =>
      BitInByteAdd(d, |e.bits|);
      var k' := GetSealed(c, d + |e.bits|, key.Drop(|e.bits|));
      k := e.bits + k';
      assert key.bits == e.bits + key.bits[|e.bits|..];
      assert k[|e.bits|..] == k';
  }

  /** Sealing changes no hash and no shape and only ever frees nodes. */
  lemma {:induction false} SealShape(t: Tree, d: nat, key: Slice, limit: nat)
    requires WF(t, d) && key.offset == BitInByte(d)
    requires SealTree(t, key).Ok?
    ensures var t' := SealTree(t, key).value;
      && WF(t', d) && Owned(t') == Owned(t) && t'.Ext? == t.Ext?
      && Blocks(t') <= Blocks(t)
      && (Shallow(t, d, limit) ==> Shallow(t', d, limit))
      && (Canonical(t) ==> Canonical(t'))
  {
    hide BitInByte;
    match t
    case Leaf(_, _) =>
    case Branch(_, l, r) =>
      BitInByteAdd(d, 1);
      SealShape(if key.bits[0] then r else l, d + 1, key.Drop(1), limit);
      var t' := SealTree(t, key).value;
      assert ContentOf(t') == ContentOf(t);
      SealedBlocks(t', d);
    case Ext(e, c) =>
      BitInByteAdd(d, |e.bits|);
      SealShape(c, d + |e.bits|, key.Drop(|e.bits|), limit);
      assert ContentOf(SealTree(t, key).value) == ContentOf(t);
  }

  /** Nothing of a sealed subtrie is kept in memory. */
  lemma {:induction false} SealedBlocks(t: Tree, d: nat)
    requires WF(t, d)
    ensures IsSealed(t) ==> Blocks(t) == 0
  {
    hide BitInByte;
    match t
    case Leaf(_, _) =>
    case Branch(_, l, r) =>
      SealedBlocks(l, d + 1);
      SealedBlocks(r, d + 1);
    case Ext(_, _) =>
  }

  /** Sealing marks exactly one entry. */
  lemma {:induction false} SealLookup(t: Tree, d: nat, key: Slice, k: seq<bool>)
    requires WF(t, d) && key.offset == BitInByte(d)
    requires SealTree(t, key).Ok?
    ensures Lookup(t, key.bits).Some?
    ensures Lookup(SealTree(t, key).value, k) ==
            if k == key.bits then Some(Entry(Lookup(t, key.bits).value.hash, true)) else Lookup(t, k)
  {
    hide BitInByte;
    match t
    case Leaf(_, _) =>
    case Branch(_, l, r) =>
      BitInByteAdd(d, 1);
      var side := if key.bits[0] then r else l;
      SealLookup(side, d + 1, key.Drop(1), if k == [] then [] else k[1..]);
      assert key.bits == [key.bits[0]] + key.bits[1..];
      assert k != [] ==> k == [k[0]] + k[1..];
    case Ext(e, c) =>
      BitInByteAdd(d, |e.bits|);
      assert key.bits == e.bits + key.bits[|e.bits|..];
      var under := e.bits <= k;
      SealLookup(c, d + |e.bits|, key.Drop(|e.bits|), if under then k[|e.bits|..] else []);
      assert under ==> k == e.bits + k[|e.bits|..];
  }

  /** Sealing succeeds exactly on unsealed entries; on a sealed entry it reports the seal. */
  lemma {:induction false} SealOutcome(t: Tree, d: nat, key: Slice)
    requires WF(t, d) && key.offset == BitInByte(d)
    ensures SealTree(t, key).Ok? <==> Lookup(t, key.bits).Some? && !Lookup(t, key.bits).value.isSealed
    ensures Lookup(t, key.bits).Some? && Lookup(t, key.bits).value.isSealed ==> SealTree(t, key) == Err(Sealed)
  {
    hide BitInByte;
    match t
    case Leaf(_, _) =>
    case Branch(freed, l, r) =>
      if freed {
        if Lookup(t, key.bits).Some? {
          FreedEntries(t, d, key.bits);
        }
      } else if key.bits != [] {
        BitInByteAdd(d, 1);
        SealOutcome(if key.bits[0] then r else l, d + 1, key.Drop(1));
      }
    case Ext(e, c) =>
      if key.StartsWith(e) {
        BitInByteAdd(d, |e.bits|);
        SealOutcome(c, d + |e.bits|, key.Drop(|e.bits|));
      }
  }

  /** Deletion finds what retrieval finds. */
  lemma {:induction false} DelFollowsGet(t: Tree, d: nat, key: Slice)
    requires WF(t, d) && key.offset == BitInByte(d)
    ensures match GetTree(t, key)
            case Ok(Some(_)) => DelTree(t, key).Ok?
            case Ok(None) => DelTree(t, key) == Err(NotFound)
            case Err(e) => e == Sealed && DelTree(t, key) == Err(Sealed)
  {
    hide BitInByte;
    hide Resolve;
    hide Collapse;
    DelShape(t, d, key, 0);
    match t
    case Leaf(_, _) =>
    case Branch(freed, l, r) =>
      if !freed && key.bits != [] {
        BitInByteAdd(d, 1);
        DelFollowsGet(if key.bits[0] then r else l, d + 1, key.Drop(1));
        CollapseShape(!key.bits[0], if key.bits[0] then l else r, d, 0);
      }
    case Ext(e, c) =>
      if key.StartsWith(e) {
        BitInByteAdd(d, |e.bits|);
        DelFollowsGet(c, d + |e.bits|, key.Drop(|e.bits|));
      }
  }

  /** Sealing finds what retrieval finds. */
  lemma {:induction false} SealFollowsGet(t: Tree, key: Slice)
    ensures match GetTree(t, key)
            case Ok(Some(_)) => SealTree(t, key).Ok?
            case Ok(None) => SealTree(t, key) == Err(NotFound)
            case Err(e) => e == Sealed && SealTree(t, key) == Err(Sealed)
  {
    hide BitInByte;
    match t
    case Leaf(_, _) =>
    case Branch(freed, l, r) =>
      if !freed && key.bits != [] {
        SealFollowsGet(if key.bits[0] then r else l, key.Drop(1));
      }
    case Ext(e, c) =>
      if key.StartsWith(e) {
        SealFollowsGet(c, key.Drop(|e.bits|));
      }
  }
}
