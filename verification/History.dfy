/** Whole tries and whole histories: every run of operations follows a finite, prefix-free map. */
module History {
  import opened Wrappers
  import opened Bits
  import opened Tree
  import opened SetSpec
  import opened DelSpec
  import opened SealSpec

  // Keys consist of whole bytes.
  type Key = k: seq<bool> | |k| % 8 == 0

  datatype State = Empty | Root(tree: Tree)

  function RootHash(s: State): Hash {
    if s.Empty? then EMPTY_TRIE_ROOT else HashOf(s.tree)
  }

  predicate Inv(s: State) {
    s.Root? ==> WF(s.tree, 0)
  }

  // ----- the operations

  function Get(s: State, key: Key): Result<Option<Hash>, Error> {
    if FromBits(key).None? then Err(KeyTooLong)
    else if s.Empty? then Ok(None)
    else GetTree(s.tree, Slice(0, key))
  }

  function Set(s: State, key: Key, value: Hash): Result<State, Error> {
    if FromBits(key).None? then Err(KeyTooLong)
    else if s.Root? then
      var t :- SetTree(s.tree, Slice(0, key), value);
      Ok(Root(t))
    else if key == [] then Err(EmptyKey)
    else Ok(Root(Chain(Slice(0, key), Leaf(value, false))))
  }

  /** Deletion; the flag tells whether the key was there. */
  function Del(s: State, key: Key): Result<(State, bool), Error> {
    if FromBits(key).None? then Err(KeyTooLong)
    else if s.Empty? then Ok((s, false))
    else
      match DelTree(s.tree, Slice(0, key))
      case Err(NotFound) => Ok((s, false))
      case Err(e) => Err(e)
      case Ok(action) =>
        match Resolve(action)
        case None => Ok((Empty, true))
        case Some(t) => if t.Leaf? then Err(Panic) else Ok((Root(t), true))
  }

  function Seal(s: State, key: Key): Result<State, Error> {
    if s.Empty? then Err(NotFound)
    else if FromBits(key).None? then Err(KeyTooLong)
    else
      var t :- SealTree(s.tree, Slice(0, key));
      Ok(Root(t))
  }

  /** Insertion followed by sealing; an insertion that succeeded is not undone. */
  function SetAndSeal(s: State, key: Key, value: Hash): (State, Result<(), Error>) {
    match Set(s, key, value)
    case Err(e) => (s, Err(e))
    case Ok(s') =>
      match Seal(s', key)
      case Err(e) => (s', Err(e))
      case Ok(s'') => (s'', Ok(()))
  }

  // ----- the map

  type Entries = map<seq<bool>, Entry>

  ghost function Keys(t: Tree): set<seq<bool>> {
    match t
    case Leaf(_, _) => {[]}
    case Branch(_, l, r) => (set k | k in Keys(l) :: [false] + k) + (set k | k in Keys(r) :: [true] + k)
    case Ext(e, c) => set k | k in Keys(c) :: e.bits + k
  }

  lemma {:induction false} KeysLookup(t: Tree, k: seq<bool>)
    ensures k in Keys(t) <==> Lookup(t, k).Some?
  {
    match t
    case Leaf(_, _) =>
    case Branch(_, l, r) =>
      forall k' ensures ([false] + k')[1..] == k' && ([true] + k')[1..] == k' {}
      if k != [] {
        assert k == [k[0]] + k[1..];
        KeysLookup(l, k[1..]);
        KeysLookup(r, k[1..]);
      }
    case Ext(e, c) =>
      forall k' ensures (e.bits + k')[|e.bits|..] == k' {}
      if e.bits <= k {
        assert k == e.bits + k[|e.bits|..];
        KeysLookup(c, k[|e.bits|..]);
      }
  }

  ghost function EntriesOf(s: State): Entries {
    if s.Empty? then map[]
    else map k | k in Keys(s.tree) && Lookup(s.tree, k).Some? :: Lookup(s.tree, k).value
  }

  function At(s: State, k: seq<bool>): Option<Entry> {
    if s.Empty? then None else Lookup(s.tree, k)
  }

  lemma EntriesAt(s: State, k: seq<bool>)
    ensures k in EntriesOf(s) <==> At(s, k).Some?
    ensures k in EntriesOf(s) ==> EntriesOf(s)[k] == At(s, k).value
  {
    if s.Root? {
      KeysLookup(s.tree, k);
    }
  }

  lemma EntriesEqual(s: State, m: Entries)
    requires forall k :: At(s, k) == if k in m then Some(m[k]) else None
    ensures EntriesOf(s) == m
  {
    forall k ensures k in EntriesOf(s) <==> k in m {
      EntriesAt(s, k);
    }
    forall k | k in m ensures EntriesOf(s)[k] == m[k] {
      EntriesAt(s, k);
    }
  }

  // ----- what the operations mean for the map

  ghost predicate Insertable(m: Entries, key: seq<bool>) {
    && 0 < |key| <= MAX_KEY_BITS
    && (if key in m then !m[key].isSealed else forall k | k in m :: !Comparable(k, key))
  }

  predicate Unsealed(m: Entries, key: seq<bool>) {
    key in m && !m[key].isSealed
  }

  lemma {:induction false} SetMeaning(s: State, key: Key, value: Hash)
    requires Inv(s)
    ensures Set(s, key, value).Ok? <==> Insertable(EntriesOf(s), key)
    ensures Set(s, key, value).Ok? ==>
      var s' := Set(s, key, value).value;
      Inv(s') && s'.Root? && EntriesOf(s') == EntriesOf(s)[key := Entry(value, false)]
  {
    var slice := Slice(0, key);
    EntriesAt(s, key);
    if Set(s, key, value).Ok? {
      SetChangesOneKey(s, key, value);
      if s.Root? {
        forall k | k in EntriesOf(s) && Comparable(k, key) ensures k == key && !EntriesOf(s)[k].isSealed {
          EntriesAt(s, k);
          SetAccepted(s.tree, 0, slice, value, k);
        }
        if key == [] {
          SomeKeyIsThere(s.tree);
          EntriesAt(s, SomeKey(s.tree));
          SetAccepted(s.tree, 0, slice, value, SomeKey(s.tree));
          KeysAreBytes(s.tree, 0, SomeKey(s.tree));
        }
      }
    } else if FromBits(key).Some? && s.Root? {
      var k := SetRefused(s.tree, 0, slice, value);
      EntriesAt(s, k);
      if key in EntriesOf(s) {
        if k <= key {
          PrefixFree(s.tree, k, key);
        } else {
          PrefixFree(s.tree, key, k);
        }
      }
    }
  }

  lemma SetChangesOneKey(s: State, key: Key, value: Hash)
    requires Inv(s) && Set(s, key, value).Ok?
    ensures var s' := Set(s, key, value).value;
      Inv(s') && s'.Root? && EntriesOf(s') == EntriesOf(s)[key := Entry(value, false)]
  {
    var slice := Slice(0, key);
    var s' := Set(s, key, value).value;
    if s.Empty? {
      ChainShape(slice, Leaf(value, false), 0, 0);
    } else if key == [] {
      SomeKeyIsThere(s.tree);
      SetAccepted(s.tree, 0, slice, value, SomeKey(s.tree));
      KeysAreBytes(s.tree, 0, SomeKey(s.tree));
    } else {
      SetShape(s.tree, 0, slice, value, 0);
    }
    var m := EntriesOf(s)[key := Entry(value, false)];
    forall k ensures At(s', k) == if k in m then Some(m[k]) else None {
      EntriesAt(s, k);
      if s.Empty? {
        NewValueLookup(slice, value, k);
      } else {
        SetLookup(s.tree, 0, slice, value, k);
      }
    }
    EntriesEqual(s', m);
  }

  lemma {:induction false} DelMeaning(s: State, key: Key)
    requires Inv(s)
    ensures var r := Del(s, key);
      && (r.Ok? && r.value.1 <==> Unsealed(EntriesOf(s), key))
      && (r.Ok? && !r.value.1 ==> r.value.0 == s)
      && (r.Ok? && r.value.1 ==>
            Inv(r.value.0) && EntriesOf(r.value.0) == EntriesOf(s) - {key})
      && (r.Err? ==> (r.error == KeyTooLong || r.error == Sealed) && Get(s, key) == Err(r.error))
      && (Get(s, key) == Ok(None) ==> r == Ok((s, false)))
  {
    EntriesAt(s, key);
    if s.Root? && |key| > MAX_SLICE_LENGTH {
      if At(s, key).Some? {
        KeysAreBytes(s.tree, 0, key);
      }
    } else if s.Root? {
      var slice := Slice(0, key);
      DelOutcome(s.tree, 0, slice);
      DelFollowsGet(s.tree, 0, slice);
      DelShape(s.tree, 0, slice, 0);
      var r := DelTree(s.tree, slice);
      if r.Ok? {
        ResolveShape(r.value, 0, 0);
        DelRemovesOneKey(s, key);
      }
    }
  }

  lemma DelRemovesOneKey(s: State, key: Key)
    requires Inv(s) && Del(s, key).Ok? && Del(s, key).value.1
    ensures EntriesOf(Del(s, key).value.0) == EntriesOf(s) - {key}
  {
    var slice := Slice(0, key);
    var s' := Del(s, key).value.0;
    var m := EntriesOf(s) - {key};
    forall k ensures At(s', k) == if k in m then Some(m[k]) else None {
      EntriesAt(s, k);
      DelLookup(s.tree, 0, slice, k);
      ResolveLookup(DelTree(s.tree, slice).value, k);
    }
    EntriesEqual(s', m);
  }

  lemma {:induction false} SealMeaning(s: State, key: Key)
    requires Inv(s)
    ensures Seal(s, key).Ok? <==> Unsealed(EntriesOf(s), key)
    ensures Seal(s, key).Ok? ==>
      var s' := Seal(s, key).value;
      && Inv(s') && RootHash(s') == RootHash(s)
      && EntriesOf(s') == EntriesOf(s)[key := Entry(EntriesOf(s)[key].hash, true)]
  {
    EntriesAt(s, key);
    if s.Root? && |key| > MAX_SLICE_LENGTH {
      if At(s, key).Some? {
        KeysAreBytes(s.tree, 0, key);
      }
    } else if s.Root? {
      var slice := Slice(0, key);
      SealOutcome(s.tree, 0, slice);
      if Seal(s, key).Ok? {
        SealShape(s.tree, 0, slice, 0);
        var s' := Seal(s, key).value;
        var m := EntriesOf(s)[key := Entry(EntriesOf(s)[key].hash, true)];
        forall k ensures At(s', k) == if k in m then Some(m[k]) else None {
          EntriesAt(s, k);
          SealLookup(s.tree, 0, slice, k);
        }
        EntriesEqual(s', m);
      }
    }
  }

  lemma {:induction false} GetMeaning(s: State, key: Key)
    requires Inv(s)
    ensures key in EntriesOf(s) ==>
      Get(s, key) == if EntriesOf(s)[key].isSealed then Err(Sealed) else Ok(Some(EntriesOf(s)[key].hash))
    ensures key !in EntriesOf(s) && |key| <= MAX_SLICE_LENGTH ==>
      Get(s, key) == Ok(None) || Get(s, key) == Err(Sealed)
  {
    EntriesAt(s, key);
    if s.Root? && |key| <= MAX_SLICE_LENGTH {
      GetOutcome(s.tree, 0, Slice(0, key));
    } else if s.Root? && At(s, key).Some? {
      KeysAreBytes(s.tree, 0, key);
    }
  }

  lemma SealFresh(mid: State, m: Entries, key: Key, value: Hash)
    requires Inv(mid) && EntriesOf(mid) == m[key := Entry(value, false)]
    ensures Seal(mid, key).Ok? && Inv(Seal(mid, key).value)
    ensures EntriesOf(Seal(mid, key).value) == m[key := Entry(value, true)]
  {
    SealMeaning(mid, key);
    assert m[key := Entry(value, false)][key := Entry(value, true)] == m[key := Entry(value, true)];
  }

  lemma {:induction false} SetAndSealMeaning(s: State, key: Key, value: Hash)
    requires Inv(s)
    ensures var (s', r) := SetAndSeal(s, key, value);
      && Inv(s')
      && (r.Ok? <==> Insertable(EntriesOf(s), key))
      && EntriesOf(s') == if r.Ok? then EntriesOf(s)[key := Entry(value, true)] else EntriesOf(s)
  {
    SetMeaning(s, key, value);
    if Set(s, key, value).Ok? {
      SealFresh(Set(s, key, value).value, EntriesOf(s), key, value);
    }
  }

  // ----- histories

  datatype Op =
    | OpSet(key: Key, value: Hash)
    | OpDel(key: Key)
    | OpSeal(key: Key)
    | OpSetAndSeal(key: Key, value: Hash)

  /** A refused operation leaves the trie as it was. */
  function Step(s: State, op: Op): State {
    match op
    case OpSet(k, v) => (match Set(s, k, v) case Ok(s') => s' case Err(_) => s)
    case OpDel(k) => (match Del(s, k) case Ok((s', _)) => s' case Err(_) => s)
    case OpSeal(k) => (match Seal(s, k) case Ok(s') => s' case Err(_) => s)
    case OpSetAndSeal(k, v) => SetAndSeal(s, k, v).0
  }

  ghost function MapStep(m: Entries, op: Op): Entries {
    match op
    case OpSet(k, v) => if Insertable(m, k) then m[k := Entry(v, false)] else m
    case OpDel(k) => if Unsealed(m, k) then m - {k} else m
    case OpSeal(k) => if Unsealed(m, k) then m[k := Entry(m[k].hash, true)] else m
    case OpSetAndSeal(k, v) => if Insertable(m, k) then m[k := Entry(v, true)] else m
  }

  function Run(s: State, ops: seq<Op>): State
    decreases |ops|
  {
    if ops == [] then s else Run(Step(s, ops[0]), ops[1..])
  }

  ghost function MapRun(m: Entries, ops: seq<Op>): Entries
    decreases |ops|
  {
    if ops == [] then m else MapRun(MapStep(m, ops[0]), ops[1..])
  }

  lemma {:induction false} StepRefines(s: State, op: Op)
    requires Inv(s)
    ensures Inv(Step(s, op)) && EntriesOf(Step(s, op)) == MapStep(EntriesOf(s), op)
  {
    match op
    case OpSet(k, v) => SetMeaning(s, k, v);
    case OpDel(k) => DelMeaning(s, k);
    case OpSeal(k) => SealMeaning(s, k);
    case OpSetAndSeal(k, v) => SetAndSealMeaning(s, k, v);
  }

  /** Every history acts on the trie as it acts on a finite map from keys to entries. */
  lemma {:induction false} RunRefines(s: State, ops: seq<Op>)
    requires Inv(s)
    ensures Inv(Run(s, ops)) && EntriesOf(Run(s, ops)) == MapRun(EntriesOf(s), ops)
    decreases |ops|
  {
    if ops != [] {
      StepRefines(s, ops[0]);
      RunRefines(Step(s, ops[0]), ops[1..]);
    }
  }

  // ----- sealing is permanent

  lemma {:induction false} SealedStays(m: Entries, ops: seq<Op>, key: seq<bool>)
    requires key in m && m[key].isSealed
    ensures key in MapRun(m, ops) && MapRun(m, ops)[key] == m[key]
    decreases |ops|
  {
    if ops != [] {
      SealedStays(MapStep(m, ops[0]), ops[1..], key);
    }
  }

  /** Once a key is sealed, every later attempt to read, change, remove or seal it fails with `Sealed`,
      whatever else happens to the trie. */
  lemma {:induction false} SealedForever(s: State, key: Key, ops: seq<Op>, value: Hash)
    requires Inv(s) && Seal(s, key).Ok?
    ensures var later := Run(Seal(s, key).value, ops);
      && Get(later, key) == Err(Sealed)
      && Set(later, key, value) == Err(Sealed)
      && Del(later, key) == Err(Sealed)
      && Seal(later, key) == Err(Sealed)
  {
    SealMeaning(s, key);
    var first := Seal(s, key).value;
    var later := Run(first, ops);
    RunRefines(first, ops);
    SealedStays(EntriesOf(first), ops, key);
    EntriesAt(later, key);
    KeysAreBytes(later.tree, 0, key);
    GetMeaning(later, key);
    SetSealed(later.tree, 0, Slice(0, key), value);
    DelOutcome(later.tree, 0, Slice(0, key));
    SealOutcome(later.tree, 0, Slice(0, key));
  }

  // ----- short keys: the root hash is a function of the map

  predicate ShortKeys(ops: seq<Op>, limit: nat) {
    forall i | 0 <= i < |ops| :: |ops[i].key| <= limit
  }

  predicate Compact(s: State) {
    s.Root? ==> Canonical(s.tree) && Shallow(s.tree, 0, MAX_EXTENSION_KEY_BITS)
  }

  lemma SetCompact(s: State, key: Key, value: Hash)
    requires Inv(s) && Compact(s) && |key| <= MAX_EXTENSION_KEY_BITS && Set(s, key, value).Ok?
    ensures Compact(Set(s, key, value).value)
  {
    SetMeaning(s, key, value);
    if s.Empty? {
      ChainShape(Slice(0, key), Leaf(value, false), 0, MAX_EXTENSION_KEY_BITS);
    } else {
      SetShape(s.tree, 0, Slice(0, key), value, MAX_EXTENSION_KEY_BITS);
    }
  }

  lemma SealCompact(s: State, key: Key)
    requires Inv(s) && Compact(s) && Seal(s, key).Ok?
    ensures Compact(Seal(s, key).value)
  {
    SealShape(s.tree, 0, Slice(0, key), MAX_EXTENSION_KEY_BITS);
  }

  lemma StepCompact(s: State, op: Op)
    requires Inv(s) && Compact(s) && |op.key| <= MAX_EXTENSION_KEY_BITS
    ensures Compact(Step(s, op))
  {
    match op
    case OpSet(k, v) =>
      if Set(s, k, v).Ok? {
        SetCompact(s, k, v);
      }
    case OpDel(k) =>
      if s.Root? && DelTree(s.tree, Slice(0, k)).Ok? {
        DelShape(s.tree, 0, Slice(0, k), MAX_EXTENSION_KEY_BITS);
        ResolveShape(DelTree(s.tree, Slice(0, k)).value, 0, MAX_EXTENSION_KEY_BITS);
      }
    case OpSeal(k) =>
      if Seal(s, k).Ok? {
        SealCompact(s, k);
      }
    case OpSetAndSeal(k, v) =>
      if Set(s, k, v).Ok? {
        SetCompact(s, k, v);
        SetMeaning(s, k, v);
        if Seal(Set(s, k, v).value, k).Ok? {
          SealCompact(Set(s, k, v).value, k);
        }
      }
  }

  lemma {:induction false} RunCompact(s: State, ops: seq<Op>)
    requires Inv(s) && Compact(s) && ShortKeys(ops, MAX_EXTENSION_KEY_BITS)
    ensures Inv(Run(s, ops)) && Compact(Run(s, ops))
    decreases |ops|
  {
    if ops != [] {
      StepRefines(s, ops[0]);
      StepCompact(s, ops[0]);
      RunCompact(Step(s, ops[0]), ops[1..]);
    }
  }

  /** The values of a map, sealed or not. */
  ghost function Values(m: Entries): map<seq<bool>, Hash> {
    map k | k in m :: m[k].hash
  }

  lemma SameMapSameTree(a: State, b: State)
    requires Inv(a) && Inv(b) && Compact(a) && Compact(b)
    requires Values(EntriesOf(a)) == Values(EntriesOf(b))
    ensures RootHash(a) == RootHash(b)
  {
    forall k ensures ValueAt(a, k) == ValueAt(b, k) {
      EntriesAt(a, k);
      EntriesAt(b, k);
      assert k in Values(EntriesOf(a)) <==> k in Values(EntriesOf(b));
    }
    if a.Root? && b.Root? {
      assert forall k :: Value(a.tree, k) == ValueAt(a, k);
      assert forall k :: Value(b.tree, k) == ValueAt(b, k);
      CanonicalIsUnique(a.tree, b.tree, 0);
    } else if a.Root? {
      RootIsNotEmpty(a);
    } else if b.Root? {
      RootIsNotEmpty(b);
    }
  }

  lemma RootIsNotEmpty(s: State)
    requires s.Root?
    ensures EntriesOf(s) != map[] && Values(EntriesOf(s)) != map[]
  {
    SomeKeyIsThere(s.tree);
    EntriesAt(s, SomeKey(s.tree));
    assert SomeKey(s.tree) in Values(EntriesOf(s));
  }

  function ValueAt(s: State, k: seq<bool>): Option<Hash> {
    if s.Empty? then None else Value(s.tree, k)
  }

  /** Two histories over keys of at most 34 bytes that leave the same values behind, sealed or not,
      leave the same root hash. */
  lemma {:induction false} SameMapSameRoot(ops: seq<Op>, ops': seq<Op>)
    requires ShortKeys(ops, MAX_EXTENSION_KEY_BITS) && ShortKeys(ops', MAX_EXTENSION_KEY_BITS)
    requires Values(MapRun(map[], ops)) == Values(MapRun(map[], ops'))
    ensures RootHash(Run(Empty, ops)) == RootHash(Run(Empty, ops'))
  {
    RunRefines(Empty, ops);
    RunRefines(Empty, ops');
    RunCompact(Empty, ops);
    RunCompact(Empty, ops');
    SameMapSameTree(Run(Empty, ops), Run(Empty, ops'));
  }
}
