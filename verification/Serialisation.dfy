/** The serialised form of proofs. */
module Serialisation {
  import opened Wrappers
  import opened Bits
  import opened Tree
  import opened History
  import opened Proof
  import opened Encoding

  // Largest number of entries, counting the actual entry of a non-membership proof, is one less.
  const ENTRIES_LIMIT: nat := 8192

  const NON_MEMBERSHIP: nat := 0x8000

  // ----- what can be serialised

  predicate ItemFits(item: Item) {
    match item
    case BranchItem(sibling) => HashFits(sibling.hash)
    case ExtItem(len) => 0 < len < 512
  }

  predicate ActualFits(actual: Actual) {
    match actual
    case ActualBranch(l, r) => HashFits(l.hash) && HashFits(r.hash)
    case ActualExt(left, key, child) => left < 0x1_0000 && key.Some? && key.value.IsExtKey() && HashFits(child.hash)
    case LookupKeyLeft(left, value) => 0 < left < 0x1_0000 && HashFits(value)
  }

  predicate ItemsFit(items: seq<Item>) {
    forall i | 0 <= i < |items| :: ItemFits(items[i])
  }

  predicate ProofFits(p: Proof) {
    ItemsFit(p.items) && (p.Negative? && p.actual.Some? ==> ActualFits(p.actual.value))
  }

  function Entries(p: Proof): nat {
    |p.items| + if p.Negative? && p.actual.Some? then 1 else 0
  }

  // ----- writing

  function Bit(b: bool): (n: nat)
    ensures n <= 1
  {
    if b then 1 else 0
  }

  function HashBytes(h: Hash): seq<Byte> {
    Digits(h, HASH_SIZE)
  }

  function EncodeItem(item: Item): seq<Byte>
    requires ItemFits(item)
  {
    match item
    case BranchItem(sibling) => [16 * Bit(sibling.isValue)] + HashBytes(sibling.hash)
    case ExtItem(len) => [32 + len / 256, len % 256]
  }

  function EncodeActual(actual: Actual): seq<Byte>
    requires ActualFits(actual)
  {
    match actual
    case ActualBranch(l, r) => [128 + 2 * Bit(l.isValue) + Bit(r.isValue)] + HashBytes(l.hash) + HashBytes(r.hash)
    case ActualExt(left, key, child) =>
      [132 + Bit(child.isValue)] + Little(left) + EncodeKey(key.value, 0) + HashBytes(child.hash)
    case LookupKeyLeft(left, value) => [134] + Little(left) + HashBytes(value)
  }

  function EncodeItems(items: seq<Item>): seq<Byte>
    requires ItemsFit(items)
  {
    if items == [] then [] else EncodeItem(items[0]) + EncodeItems(items[1..])
  }

  /** A proof with too many entries is refused. */
  function EncodeProof(p: Proof): Option<seq<Byte>>
    requires ProofFits(p)
  {
    if Entries(p) >= ENTRIES_LIMIT then None
    else
      Some(Little(Entries(p) + if p.Negative? then NON_MEMBERSHIP else 0)
           + (if p.Negative? && p.actual.Some? then EncodeActual(p.actual.value) else [])
           + EncodeItems(p.items))
  }

  // ----- reading: a value and the bytes behind it

  function ReadHash(bytes: seq<Byte>): Option<(Hash, seq<Byte>)> {
    if |bytes| < HASH_SIZE then None else Some((Number(bytes[..HASH_SIZE]), bytes[HASH_SIZE..]))
  }

  function ReadRef(bytes: seq<Byte>, isValue: bool): Option<(OwnedRef, seq<Byte>)> {
    match ReadHash(bytes)
    case None => None
    case Some((h, rest)) => Some((OwnedRef(isValue, h), rest))
  }

  function ReadLittle(bytes: seq<Byte>): Option<(nat, seq<Byte>)> {
    if |bytes| < 2 then None
    else
      var low: nat, high: nat := bytes[0], bytes[1];
      Some((high * 256 + low, bytes[2..]))
  }

  function ReadBig(bytes: seq<Byte>): Option<(nat, seq<Byte>)> {
    if |bytes| < 2 then None
    else
      var high: nat, low: nat := bytes[0], bytes[1];
      Some((high * 256 + low, bytes[2..]))
  }

  /** An item whose first byte has been read already. */
  function DecodeItemCont(first: Byte, bytes: seq<Byte>): Option<(Item, seq<Byte>)> {
    if first == 0 || first == 16 then
      match ReadRef(bytes, first != 0) {
        case None => None
        case Some((sibling, rest)) => Some((BranchItem(sibling), rest))
      }
    else if first == 32 || first == 33 then
      if bytes == [] then None
      else
        var len: nat := first % 2 * 256 + bytes[0];
        if len == 0 then None else Some((ExtItem(len), bytes[1..]))
    else None
  }

  /** The key of an Extension: the length of its bytes follows from the number in front. */
  function ReadKey(bytes: seq<Byte>): Option<(Option<Slice>, seq<Byte>)> {
    match ReadBig(bytes)
    case None => None
    case Some((num, rest)) =>
      var len := (num % 8 + num / 8 + 7) / 8;
      if len > KEY_SIZE || len > |rest| then None
      else Some((DecodeKey(num, rest[..len]), rest[len..]))
  }

  function DecodeActualCont(first: Byte, bytes: seq<Byte>): Option<(Actual, seq<Byte>)> {
    if 128 <= first <= 131 then
      match ReadRef(bytes, first / 2 % 2 == 1) {
        case None => None
        case Some((l, rest)) =>
          match ReadRef(rest, first % 2 == 1)
          case None => None
          case Some((r, rest')) => Some((ActualBranch(l, r), rest'))
      }
    else if first == 132 || first == 133 then
      match ReadLittle(bytes) {
        case None => None
        case Some((left, rest)) =>
          match ReadKey(rest)
          case None => None
          case Some((key, rest')) =>
            match ReadRef(rest', first == 133)
            case None => None
            case Some((child, rest'')) => Some((ActualExt(left, key, child), rest''))
      }
    else if first == 134 then
      match ReadLittle(bytes) {
        case None => None
        case Some((left, rest)) =>
          if left == 0 then None
          else
            match ReadHash(rest)
            case None => None
            case Some((h, rest')) => Some((LookupKeyLeft(left, h), rest'))
      }
    else None
  }

  function DecodeItems(bytes: seq<Byte>, n: nat): Option<(seq<Item>, seq<Byte>)> {
    if n == 0 then Some(([], bytes))
    else if bytes == [] then None
    else
      match DecodeItemCont(bytes[0], bytes[1..])
      case None => None
      case Some((item, rest)) =>
        match DecodeItems(rest, n - 1)
        case None => None
        case Some((items, rest')) => Some(([item] + items, rest'))
  }

  /** The first entry of a non-membership proof tells by its first bit what it is. */
  function DecodeProof(bytes: seq<Byte>): Option<(Proof, seq<Byte>)> {
    match ReadLittle(bytes)
    case None => None
    case Some((tag, rest)) =>
      var negative, len := tag >= NON_MEMBERSHIP, tag % NON_MEMBERSHIP;
      if len == 0 then Some((if negative then Negative(None, []) else Positive([]), rest))
      else if negative && rest != [] && rest[0] >= 128 then
        match DecodeActualCont(rest[0], rest[1..]) {
          case None => None
          case Some((actual, rest')) =>
            match DecodeItems(rest', len - 1)
            case None => None
            case Some((items, rest'')) => Some((Negative(Some(actual), items), rest''))
        }
      else
        match DecodeItems(rest, len)
        case None => None
        case Some((items, rest')) => Some((if negative then Negative(None, items) else Positive(items), rest'))
  }

  // ----- reading back

  lemma ReadWrittenHash(h: Hash, rest: seq<Byte>)
    requires HashFits(h)
    ensures ReadHash(HashBytes(h) + rest) == Some((h, rest))
  {
    hide Digits;
    hide Number;
    hide Limit;
    NumberOfDigits(h, HASH_SIZE);
    assert (HashBytes(h) + rest)[..HASH_SIZE] == HashBytes(h);
  }

  lemma ReadWrittenLittle(n: nat, rest: seq<Byte>)
    requires n < 0x1_0000
    ensures ReadLittle(Little(n) + rest) == Some((n, rest))
  {
    var bytes := Little(n) + rest;
    assert bytes[2..] == rest;
  }

  lemma {:induction false} ReadWrittenItem(item: Item, rest: seq<Byte>)
    requires ItemFits(item)
    ensures EncodeItem(item) != [] && EncodeItem(item)[0] < 128
    ensures var bytes := EncodeItem(item) + rest;
      DecodeItemCont(bytes[0], bytes[1..]) == Some((item, rest))
  {
    hide Digits;
    hide ReadHash;
    var bytes := EncodeItem(item) + rest;
    match item
    case BranchItem(sibling) =>
      assert bytes[1..] == HashBytes(sibling.hash) + rest;
      ReadWrittenHash(sibling.hash, rest);
    case ExtItem(len) =>
      assert bytes[1..][1..] == rest;
  }

  lemma {:induction false} ReadWrittenItems(items: seq<Item>, rest: seq<Byte>)
    requires ItemsFit(items)
    ensures DecodeItems(EncodeItems(items) + rest, |items|) == Some((items, rest))
  {
    hide EncodeItem;
    hide DecodeItemCont;
    if items == [] {
      assert EncodeItems(items) + rest == rest;
    } else {
      var tail := EncodeItems(items[1..]) + rest;
      var bytes := EncodeItems(items) + rest;
      assert bytes == EncodeItem(items[0]) + tail;
      ReadWrittenItem(items[0], tail);
      ReadWrittenItems(items[1..], rest);
      assert items == [items[0]] + items[1..];
    }
  }

  lemma ReadWrittenKey(key: Slice, rest: seq<Byte>)
    requires key.IsExtKey()
    ensures ReadKey(EncodeKey(key, 0) + rest) == Some((Some(key), rest))
  {
    hide DecodeKey;
    hide EncodeKey;
    var bytes := EncodeKey(key, 0);
    ClearedBits([]);
    DecodeEncodedKey(key, 0, []);
    assert bytes[2..] + [] == bytes[2..];
    var num := KeyNumber(key);
    var all := bytes + rest;
    assert bytes[..2] == [num / 256, num % 256];
    assert all[0] == bytes[..2][0] && all[1] == bytes[..2][1];
    assert all[2..] == bytes[2..] + rest;
    assert all[2..][..|bytes| - 2] == bytes[2..] && all[2..][|bytes| - 2..] == rest;
  }

  lemma {:induction false} ReadWrittenActual(actual: Actual, rest: seq<Byte>)
    requires ActualFits(actual)
    ensures EncodeActual(actual) != [] && EncodeActual(actual)[0] >= 128
    ensures var bytes := EncodeActual(actual) + rest;
      DecodeActualCont(bytes[0], bytes[1..]) == Some((actual, rest))
  {
    match actual
    case ActualBranch(l, r) => ReadWrittenBranch(l, r, rest);
    case ActualExt(left, key, child) => ReadWrittenExt(left, key.value, child, rest);
    case LookupKeyLeft(left, value) => ReadWrittenKeyLeft(left, value, rest);
  }

  lemma ReadWrittenBranch(l: OwnedRef, r: OwnedRef, rest: seq<Byte>)
    requires HashFits(l.hash) && HashFits(r.hash)
    ensures var actual := ActualBranch(l, r);
      var bytes := EncodeActual(actual) + rest;
      EncodeActual(actual)[0] >= 128 && DecodeActualCont(bytes[0], bytes[1..]) == Some((actual, rest))
  {
    hide HashBytes;
    hide ReadHash;
    var bytes := EncodeActual(ActualBranch(l, r)) + rest;
    assert bytes[1..] == HashBytes(l.hash) + (HashBytes(r.hash) + rest);
    ReadWrittenHash(l.hash, HashBytes(r.hash) + rest);
    ReadWrittenHash(r.hash, rest);
  }

  lemma ReadWrittenExt(left: nat, key: Slice, child: OwnedRef, rest: seq<Byte>)
    requires left < 0x1_0000 && key.IsExtKey() && HashFits(child.hash)
    ensures var actual := ActualExt(left, Some(key), child);
      var bytes := EncodeActual(actual) + rest;
      EncodeActual(actual)[0] >= 128 && DecodeActualCont(bytes[0], bytes[1..]) == Some((actual, rest))
  {
    hide HashBytes;
    hide ReadHash;
    hide ReadKey;
    hide ReadLittle;
    hide EncodeKey;
    hide Little;
    var bytes := EncodeActual(ActualExt(left, Some(key), child)) + rest;
    var tail := HashBytes(child.hash) + rest;
    assert bytes[1..] == Little(left) + (EncodeKey(key, 0) + tail);
    ReadWrittenLittle(left, EncodeKey(key, 0) + tail);
    ReadWrittenKey(key, tail);
    ReadWrittenHash(child.hash, rest);
  }

  lemma ReadWrittenKeyLeft(left: nat, value: Hash, rest: seq<Byte>)
    requires 0 < left < 0x1_0000 && HashFits(value)
    ensures var actual := LookupKeyLeft(left, value);
      var bytes := EncodeActual(actual) + rest;
      EncodeActual(actual)[0] >= 128 && DecodeActualCont(bytes[0], bytes[1..]) == Some((actual, rest))
  {
    hide HashBytes;
    hide ReadHash;
    hide ReadLittle;
    hide Little;
    var bytes := EncodeActual(LookupKeyLeft(left, value)) + rest;
    assert bytes[1..] == Little(left) + (HashBytes(value) + rest);
    ReadWrittenLittle(left, HashBytes(value) + rest);
    ReadWrittenHash(value, rest);
  }

  /** Decoding gives back the proof encoded and leaves what stands behind it, whatever that is. */
  lemma {:induction false} DecodeEncodedProof(p: Proof, rest: seq<Byte>)
    requires ProofFits(p)
    ensures EncodeProof(p).None? <==> Entries(p) >= ENTRIES_LIMIT
    ensures EncodeProof(p).Some? ==> DecodeProof(EncodeProof(p).value + rest) == Some((p, rest))
  {
    hide Little;
    hide ReadLittle;
    hide EncodeItems;
    hide DecodeItems;
    hide EncodeActual;
    hide DecodeActualCont;
    hide ItemFits;
    if Entries(p) < ENTRIES_LIMIT {
      var tag := Entries(p) + if p.Negative? then NON_MEMBERSHIP else 0;
      var items := EncodeItems(p.items) + rest;
      ReadWrittenItems(p.items, rest);
      if p.Negative? && p.actual.Some? {
        var body := EncodeActual(p.actual.value) + items;
        assert EncodeProof(p).value + rest == Little(tag) + body;
        ReadWrittenLittle(tag, body);
        ReadWrittenActual(p.actual.value, items);
      } else {
        assert EncodeProof(p).value + rest == Little(tag) + items;
        ReadWrittenLittle(tag, items);
        FirstIsItem(p.items, rest);
        NoItems(p.items, rest);
      }
    }
  }

  lemma FirstIsItem(items: seq<Item>, rest: seq<Byte>)
    requires ItemsFit(items)
    ensures items != [] ==> EncodeItems(items) != [] && (EncodeItems(items) + rest)[0] < 128
  {
    if items != [] {
      ReadWrittenItem(items[0], []);
    }
  }

  lemma NoItems(items: seq<Item>, rest: seq<Byte>)
    requires ItemsFit(items)
    ensures items == [] ==> EncodeItems(items) + rest == rest
  {
  }

  // ----- where everything is

  /** The bytes of an item: of a Branch a tag and the hash of the sibling, of an Extension tag and length. */
  predicate ItemBytes(bytes: seq<Byte>, item: Item) {
    match item
    case BranchItem(sibling) =>
      |bytes| == 33 && bytes[0] == (if sibling.isValue then 0x10 else 0) && Big(bytes[1..], sibling.hash)
    case ExtItem(len) =>
      |bytes| == 2 && bytes[0] == 0x20 + len / 256 && bytes[1] == len % 256
  }

  /** The bytes of an actual entry: a tag, what is left of the key, and what was found, the left child first. */
  predicate ActualBytes(bytes: seq<Byte>, actual: Actual)
    requires ActualFits(actual)
  {
    match actual
    case ActualBranch(l, r) =>
      && |bytes| == 65 && bytes[0] == 0x80 + (if l.isValue then 2 else 0) + (if r.isValue then 1 else 0)
      && Big(bytes[1..33], l.hash) && Big(bytes[33..], r.hash)
    case ActualExt(left, key, child) =>
      var end := |bytes| - 32;
      && 3 < end && bytes[0] == 0x84 + (if child.isValue then 1 else 0) && Small(bytes[1..3], left)
      && bytes[3..end] == EncodeKey(key.value, 0) && Big(bytes[end..], child.hash)
    case LookupKeyLeft(left, value) =>
      |bytes| == 35 && bytes[0] == 0x86 && Small(bytes[1..3], left) && Big(bytes[3..], value)
  }

  lemma LittleIsSmall(n: nat)
    requires n < 0x1_0000
    ensures Small(Little(n), n)
  {
    assert ByteAt(n, 1) == ByteAt(n / 256, 0);
  }

  lemma ItemLayout(item: Item)
    requires ItemFits(item)
    ensures ItemBytes(EncodeItem(item), item)
  {
    hide Digits;
    hide Big;
    if item.BranchItem? {
      DigitsAreBig(item.sibling.hash, HASH_SIZE);
      assert EncodeItem(item)[1..] == HashBytes(item.sibling.hash);
    }
  }

  lemma ActualLayout(actual: Actual)
    requires ActualFits(actual)
    ensures ActualBytes(EncodeActual(actual), actual)
  {
    hide Digits;
    hide Big;
    hide Small;
    hide Little;
    hide EncodeKey;
    var bytes := EncodeActual(actual);
    match actual
    case ActualBranch(l, r) =>
      DigitsAreBig(l.hash, HASH_SIZE);
      DigitsAreBig(r.hash, HASH_SIZE);
      assert bytes[1..33] == HashBytes(l.hash) && bytes[33..] == HashBytes(r.hash);
    case ActualExt(left, key, child) =>
      LittleIsSmall(left);
      DigitsAreBig(child.hash, HASH_SIZE);
      assert bytes[1..3] == Little(left) && bytes[3..|bytes| - 32] == EncodeKey(key.value, 0);
      assert bytes[|bytes| - 32..] == HashBytes(child.hash);
    case LookupKeyLeft(left, value) =>
      LittleIsSmall(left);
      DigitsAreBig(value, HASH_SIZE);
      assert bytes[1..3] == Little(left) && bytes[3..] == HashBytes(value);
  }

  /** The bytes of items that follow each other in order. */
  predicate ItemsBytes(bytes: seq<Byte>, items: seq<Item>) {
    if items == [] then bytes == []
    else
      var n := if items[0].BranchItem? then 33 else 2;
      n <= |bytes| && ItemBytes(bytes[..n], items[0]) && ItemsBytes(bytes[n..], items[1..])
  }

  /** The bytes of a proof: two that hold the number of entries and, as highest bit, what it shows, then the
      actual entry if there is one, then the items. */
  predicate ProofBytes(bytes: seq<Byte>, p: Proof)
    requires ProofFits(p)
  {
    && 2 <= |bytes|
    && Small(bytes[..2], Entries(p) + if p.Negative? then 0x8000 else 0)
    && if p.Negative? && p.actual.Some? then
         var n := 2 + ActualSize(p.actual.value);
         n <= |bytes| && ActualBytes(bytes[2..n], p.actual.value) && ItemsBytes(bytes[n..], p.items)
       else ItemsBytes(bytes[2..], p.items)
  }

  function ActualSize(actual: Actual): nat
    requires ActualFits(actual)
  {
    match actual
    case ActualBranch(_, _) => 65
    case ActualExt(_, key, _) => 37 + BytesLen(key.value.offset, |key.value.bits|)
    case LookupKeyLeft(_, _) => 35
  }

  lemma {:induction false} ItemsLayout(items: seq<Item>)
    requires ItemsFit(items)
    ensures ItemsBytes(EncodeItems(items), items)
  {
    hide ItemBytes;
    hide Digits;
    if items != [] {
      ItemLayout(items[0]);
      ItemsLayout(items[1..]);
      var n := |EncodeItem(items[0])|;
      assert EncodeItems(items)[..n] == EncodeItem(items[0]) && EncodeItems(items)[n..] == EncodeItems(items[1..]);
    }
  }

  /** Where everything is in a serialised proof. */
  lemma {:induction false} ProofLayout(p: Proof)
    requires ProofFits(p) && Entries(p) < ENTRIES_LIMIT
    ensures EncodeProof(p).Some? && ProofBytes(EncodeProof(p).value, p)
  {
    hide ItemsBytes;
    hide EncodeItems;
    hide ActualBytes;
    hide Small;
    hide Digits;
    hide EncodeKey;
    hide Little;
    var bytes := EncodeProof(p).value;
    LittleIsSmall(Entries(p) + if p.Negative? then NON_MEMBERSHIP else 0);
    ItemsLayout(p.items);
    assert bytes[..2] == Little(Entries(p) + if p.Negative? then NON_MEMBERSHIP else 0);
    if p.Negative? && p.actual.Some? {
      var actual := p.actual.value;
      ActualLayout(actual);
      var n := 2 + ActualSize(actual);
      assert bytes[2..n] == EncodeActual(actual) && bytes[n..] == EncodeItems(p.items);
    } else {
      assert bytes[2..] == EncodeItems(p.items);
    }
  }

  // ----- proofs of a trie

  /** All hashes of a trie, and its values, have 32 bytes. */
  predicate HashesFit(t: Tree) {
    match t
    case Leaf(h, _) => HashFits(h)
    case Branch(_, l, r) => HashFits(HashOf(l)) && HashFits(HashOf(r)) && HashesFit(l) && HashesFit(r)
    case Ext(_, c) => HashFits(HashOf(c)) && HashesFit(c)
  }

  lemma {:induction false} ProveTreeFits(t: Tree, d: nat, key: Slice)
    requires WF(t, d) && HashesFit(t) && key.offset == BitInByte(d) && |key.bits| < 0x1_0000
    requires ProveTree(t, key).Ok?
    ensures var a := ProveTree(t, key).value;
      ItemsFit(a.items) && (a.actual.Some? ==> ActualFits(a.actual.value))
  {
    hide BitInByte;
    hide HashFits;
    match t
    case Leaf(_, _) =>
    case Branch(_, l, r) =>
      if key.bits != [] {
        BitInByteAdd(d, 1);
        ProveTreeFits(if key.bits[0] then r else l, d + 1, key.Drop(1));
      }
    case Ext(e, c) =>
      if key.StartsWith(e) {
        BitInByteAdd(d, |e.bits|);
        ProveTreeFits(c, d + |e.bits|, key.Drop(|e.bits|));
      }
  }

  /** A proof the trie hands out can be sent: what arrives is the same proof, and it is accepted. */
  lemma {:induction false} SentProofVerifies(s: State, key: Key)
    requires Inv(s) && (s.Root? ==> HashesFit(s.tree)) && Prove(s, key).Ok?
    ensures var (value, proof) := Prove(s, key).value;
      && ProofFits(proof)
      && (Entries(proof) < ENTRIES_LIMIT ==>
            && EncodeProof(proof).Some?
            && DecodeProof(EncodeProof(proof).value) == Some((proof, []))
            && Verify(DecodeProof(EncodeProof(proof).value).value.0, RootHash(s), key, value))
  {
    var (value, proof) := Prove(s, key).value;
    if s.Root? {
      ProveTreeFits(s.tree, 0, Slice(0, key));
    }
    hide ProveTree;
    hide Verify;
    DecodeEncodedProof(proof, []);
    Complete(s, key);
    assert EncodeProof(proof).Some? ==> EncodeProof(proof).value + [] == EncodeProof(proof).value;
  }
}
