/** Bytes: the 72 bytes a node occupies in a block, the bytes its hash is computed from and those validators sign. */
module Encoding {
  import opened Wrappers
  import opened Bits
  import opened Tree
  import opened Heap

  type Byte = n: nat | n < 256

  // ----- numbers, most significant byte first

  function Digits(n: nat, k: nat): (bytes: seq<Byte>)
    ensures |bytes| == k
  {
    if k == 0 then [] else Digits(n / 256, k - 1) + [n % 256]
  }

  function Number(bytes: seq<Byte>): nat {
    if bytes == [] then 0 else Number(bytes[..|bytes| - 1]) * 256 + bytes[|bytes| - 1]
  }

  /** Number of values `k` bytes can hold. */
  function Limit(k: nat): nat {
    if k == 0 then 1 else Limit(k - 1) * 256
  }

  lemma {:induction false} NumberOfDigits(n: nat, k: nat)
    requires n < Limit(k)
    ensures Number(Digits(n, k)) == n
  {
    if k > 0 {
      NumberOfDigits(n / 256, k - 1);
    }
  }

  lemma {:induction false} DigitsOfNumber(bytes: seq<Byte>)
    ensures Number(bytes) < Limit(|bytes|)
    ensures Digits(Number(bytes), |bytes|) == bytes
  {
    if bytes != [] {
      var front := bytes[..|bytes| - 1];
      DigitsOfNumber(front);
      assert Number(bytes) / 256 == Number(front) && Number(bytes) % 256 == bytes[|bytes| - 1];
      assert bytes == front + [bytes[|bytes| - 1]];
    }
  }

  /** Two bytes, the least significant one first. */
  function Little(n: nat): (bytes: seq<Byte>)
    requires n < 0x1_0000
    ensures |bytes| == 2
  {
    [n % 256, n / 256]
  }

  // ----- bits

  function Value(bits: seq<bool>): nat {
    if bits == [] then 0 else Value(bits[..|bits| - 1]) * 2 + if bits[|bits| - 1] then 1 else 0
  }

  function BitsFrom(n: nat, k: nat): (bits: seq<bool>)
    ensures |bits| == k
  {
    if k == 0 then [] else BitsFrom(n / 2, k - 1) + [n % 2 == 1]
  }

  function Two(k: nat): nat {
    if k == 0 then 1 else Two(k - 1) * 2
  }

  lemma {:induction false} ValueOfBits(n: nat, k: nat)
    requires n < Two(k)
    ensures Value(BitsFrom(n, k)) == n
  {
    if k > 0 {
      ValueOfBits(n / 2, k - 1);
    }
  }

  lemma {:induction false} BitsOfValue(bits: seq<bool>)
    ensures Value(bits) < Two(|bits|)
    ensures BitsFrom(Value(bits), |bits|) == bits
  {
    if bits != [] {
      var front := bits[..|bits| - 1];
      BitsOfValue(front);
      assert Value(bits) / 2 == Value(front);
      assert bits == front + [bits[|bits| - 1]];
    }
  }

  lemma EightBits()
    ensures Two(8) == 256
  {
    assert Two(2) == 4 && Two(4) == 16 && Two(6) == 64;
  }

  function ByteOf(b: seq<bool>): Byte
    requires |b| == 8
  {
    BitsOfValue(b);
    EightBits();
    Value(b)
  }

  function BitsOf(n: Byte): (b: seq<bool>)
    ensures |b| == 8
  {
    BitsFrom(n, 8)
  }

  lemma BitsOfByte(b: seq<bool>)
    requires |b| == 8
    ensures BitsOf(ByteOf(b)) == b
  {
    BitsOfValue(b);
    hide Value;
    hide BitsFrom;
  }

  lemma ByteOfBits(n: Byte)
    ensures ByteOf(BitsOf(n)) == n
  {
    hide Value;
    hide BitsFrom;
    EightBits();
    ValueOfBits(n, 8);
  }

  function Pack(bits: seq<bool>): (bytes: seq<Byte>)
    requires |bits| % 8 == 0
    ensures |bytes| == |bits| / 8
  {
    if bits == [] then [] else [ByteOf(bits[..8])] + Pack(bits[8..])
  }

  function Unpack(bytes: seq<Byte>): (bits: seq<bool>)
    ensures |bits| == 8 * |bytes|
  {
    if bytes == [] then [] else BitsOf(bytes[0]) + Unpack(bytes[1..])
  }

  lemma {:induction false} UnpackPacked(bits: seq<bool>)
    requires |bits| % 8 == 0
    ensures Unpack(Pack(bits)) == bits
    decreases |bits|
  {
    hide ByteOf;
    hide BitsOf;
    if bits != [] {
      BitsOfByte(bits[..8]);
      UnpackPacked(bits[8..]);
      assert bits == bits[..8] + bits[8..];
    }
  }

  lemma {:induction false} PackUnpacked(bytes: seq<Byte>)
    ensures Pack(Unpack(bytes)) == bytes
  {
    hide ByteOf;
    hide BitsOf;
    if bytes != [] {
      ByteOfBits(bytes[0]);
      PackUnpacked(bytes[1..]);
      assert Unpack(bytes)[..8] == BitsOf(bytes[0]) && Unpack(bytes)[8..] == Unpack(bytes[1..]);
    }
  }

  // ----- Extension keys

  const KEY_SIZE: nat := 34

  predicate AllFalse(bits: seq<bool>) {
    forall i | 0 <= i < |bits| :: !bits[i]
  }

  lemma FalseIsZeros(bits: seq<bool>)
    requires AllFalse(bits)
    ensures bits == Zeros(|bits|)
  {
  }

  /** Bytes a slice spans. */
  function BytesLen(offset: nat, length: nat): nat {
    if length == 0 then 0 else (offset + length + 7) / 8
  }

  /** The bits of the bytes a key spans, those outside of the key cleared. */
  function Masked(key: Slice): (bits: seq<bool>)
    requires key.IsExtKey()
    ensures |bits| == 8 * BytesLen(key.offset, |key.bits|)
  {
    Zeros(key.offset) + key.bits + Zeros(8 * BytesLen(key.offset, |key.bits|) - key.offset - |key.bits|)
  }

  /** Length and offset of a key in one number, followed by the bytes it spans. */
  function EncodeKey(key: Slice, tag: nat): (bytes: seq<Byte>)
    requires key.IsExtKey() && tag % 16 == 0 && tag < 256
    ensures 2 < |bytes| == 2 + BytesLen(key.offset, |key.bits|) <= 2 + KEY_SIZE
    ensures bytes[0] / 16 == tag / 16
  {
    [KeyNumber(key) / 256 + tag, KeyNumber(key) % 256] + Pack(Masked(key))
  }

  /** The key with the given number whose bytes come first; what follows must be cleared. */
  function DecodeKey(num: nat, bytes: seq<Byte>): Option<Slice> {
    var offset, length := num % 8, num / 8;
    var n := BytesLen(offset, length);
    if n > |bytes| || length == 0 || n > KEY_SIZE then None
    else
      var bits := Unpack(bytes);
      if !AllFalse(bits[..offset]) || !AllFalse(bits[offset + length..]) then None
      else Some(Slice(offset, bits[offset..offset + length]))
  }

  function KeyNumber(key: Slice): (num: nat)
    requires key.IsExtKey()
    ensures num < 16 * 256 && num % 8 == key.offset && num / 8 == |key.bits|
  {
    |key.bits| * 8 + key.offset
  }

  lemma MaskedParts(key: Slice, tail: seq<bool>)
    requires key.IsExtKey() && AllFalse(tail)
    ensures var bits := Masked(key) + tail;
      var end := key.offset + |key.bits|;
      AllFalse(bits[..key.offset]) && bits[key.offset..end] == key.bits && AllFalse(bits[end..])
  {
    var bits := Masked(key) + tail;
    var n := 8 * BytesLen(key.offset, |key.bits|) - key.offset - |key.bits|;
    assert bits[..key.offset] == Zeros(key.offset);
    assert bits[key.offset + |key.bits|..] == Zeros(n) + tail;
  }

  /** Decoding gives back the key, with or without cleared bytes behind it. */
  lemma {:induction false} DecodeEncodedKey(key: Slice, tag: nat, rest: seq<Byte>)
    requires key.IsExtKey() && tag % 16 == 0 && tag < 256 && AllFalse(Unpack(rest))
    ensures var bytes := EncodeKey(key, tag);
      && bytes[..2] == [KeyNumber(key) / 256 + tag, KeyNumber(key) % 256]
      && DecodeKey(KeyNumber(key), bytes[2..] + rest) == Some(key)
  {
    hide Pack;
    hide Unpack;
    hide Masked;
    hide AllFalse;
    var bytes := EncodeKey(key, tag)[2..];
    assert bytes == Pack(Masked(key));
    UnpackPacked(Masked(key));
    UnpackConcat(bytes, rest);
    MaskedParts(key, Unpack(rest));
  }

  lemma {:induction false} UnpackConcat(a: seq<Byte>, b: seq<Byte>)
    ensures Unpack(a + b) == Unpack(a) + Unpack(b)
  {
    hide BitsOf;
    if a == [] {
      assert a + b == b;
    } else {
      UnpackConcat(a[1..], b);
      assert (a + b)[1..] == a[1..] + b;
      var (first, rest, more) := (BitsOf(a[0]), Unpack(a[1..]), Unpack(b));
      assert Unpack(a + b) == first + (rest + more);
      assert first + (rest + more) == (first + rest) + more;
    }
  }

  function Cleared(n: nat): (bytes: seq<Byte>)
    ensures |bytes| == n
  {
    if n == 0 then [] else [0] + Cleared(n - 1)
  }

  lemma {:induction false} ClearedBits(bytes: seq<Byte>)
    ensures AllFalse(Unpack(bytes)) <==> bytes == Cleared(|bytes|)
  {
    hide ByteOf;
    if bytes != [] {
      ClearedBits(bytes[1..]);
      ClearedByte(bytes[0]);
      hide BitsOf;
      var bits := Unpack(bytes);
      assert bits == BitsOf(bytes[0]) + Unpack(bytes[1..]);
      assert AllFalse(bits) <==> AllFalse(bits[..8]) && AllFalse(bits[8..]) by {
        assert forall i | 8 <= i < |bits| :: bits[i] == bits[8..][i - 8];
        assert forall i | 0 <= i < 8 :: bits[i] == bits[..8][i];
      }
      assert bits[..8] == BitsOf(bytes[0]) && bits[8..] == Unpack(bytes[1..]);
    }
  }

  lemma ClearedByte(n: Byte)
    ensures AllFalse(BitsOf(n)) <==> n == 0
  {
    hide BitsFrom;
    hide Value;
    BitsFromZero(8);
    if AllFalse(BitsOf(n)) {
      FalseIsZeros(BitsOf(n));
      ByteOfBits(n);
      ByteOfBits(0);
      FalseIsZeros(BitsOf(0));
    }
  }

  lemma {:induction false} BitsFromZero(k: nat)
    ensures AllFalse(BitsFrom(0, k))
  {
    if k > 0 {
      BitsFromZero(k - 1);
    }
  }

  /** Whatever decodes is the encoding of its key followed by cleared bytes. */
  lemma {:induction false} EncodeDecodedKey(num: nat, bytes: seq<Byte>, tag: nat)
    requires DecodeKey(num, bytes).Some? && tag % 16 == 0 && tag < 256
    ensures var key := DecodeKey(num, bytes).value;
      && key.IsExtKey() && KeyNumber(key) == num
      && var n := BytesLen(key.offset, |key.bits|);
         n <= |bytes| && EncodeKey(key, tag) == [num / 256 + tag, num % 256] + bytes[..n]
         && bytes[n..] == Cleared(|bytes| - n)
  {
    hide Pack;
    hide Unpack;
    hide Masked;
    var key := DecodeKey(num, bytes).value;
    var n := BytesLen(key.offset, |key.bits|);
    assert bytes == bytes[..n] + bytes[n..];
    UnpackConcat(bytes[..n], bytes[n..]);
    PackUnpacked(bytes[..n]);
    ClearedBits(bytes[n..]);
    MaskedFrom(Unpack(bytes), key);
    assert Unpack(bytes)[..8 * n] == Unpack(bytes[..n]) && Unpack(bytes)[8 * n..] == Unpack(bytes[n..]);
  }

  lemma MaskedFrom(bits: seq<bool>, key: Slice)
    requires key.IsExtKey() && 8 * BytesLen(key.offset, |key.bits|) <= |bits|
    requires AllFalse(bits[..key.offset]) && AllFalse(bits[key.offset + |key.bits|..])
    requires bits[key.offset..key.offset + |key.bits|] == key.bits
    ensures var n := 8 * BytesLen(key.offset, |key.bits|);
      bits[..n] == Masked(key) && AllFalse(bits[n..])
  {
    hide AllFalse;
    var n, o, e := 8 * BytesLen(key.offset, |key.bits|), key.offset, key.offset + |key.bits|;
    FalseIsZeros(bits[..o]);
    assert bits[e..n] == bits[e..][..n - e] && bits[n..] == bits[e..][n - e..];
    PartsFalse(bits[e..], n - e);
    FalseIsZeros(bits[e..n]);
    assert bits[..n] == bits[..o] + bits[o..e] + bits[e..n];
  }

  lemma PartsFalse(bits: seq<bool>, n: nat)
    requires n <= |bits| && AllFalse(bits)
    ensures AllFalse(bits[..n]) && AllFalse(bits[n..])
  {
  }

  // ----- references

  const HASH_SIZE: nat := 32
  const PTR_LIMIT: nat := 0x4000_0000
  const VALUE_MARK: nat := 0x4000_0000
  const SEAL_MARK: nat := 0x2000_0000

  datatype DecodeError = BadExtensionKey | BadNodeRef | BadValueRef

  predicate HashFits(h: Hash) {
    h < Limit(HASH_SIZE)
  }

  /** References that can be stored: pointers have thirty bits. */
  predicate RefFits(r: Ref) {
    HashFits(r.hash) && (r.NodeRef? && r.ptr.Some? ==> r.ptr.value < PTR_LIMIT)
  }

  function RefNumber(r: Ref): nat {
    match r
    case NodeRef(p, _) => (match p case Some(ptr) => ptr case None => 0)
    case ValueRef(s, _) => VALUE_MARK + if s then SEAL_MARK else 0
  }

  function EncodeRef(r: Ref): (bytes: seq<Byte>)
    ensures |bytes| == 36
  {
    Digits(RefNumber(r), 4) + Digits(r.hash, HASH_SIZE)
  }

  function DecodeRef(bytes: seq<Byte>): Result<Ref, DecodeError>
    requires |bytes| == 36
  {
    var num, hash := Number(bytes[..4]), Number(bytes[4..]);
    if num / VALUE_MARK % 2 == 0 then
      if num >= PTR_LIMIT then Err(BadNodeRef)
      else Ok(NodeRef(if num == 0 then None else Some(num), hash))
    else if num != VALUE_MARK && num != VALUE_MARK + SEAL_MARK then Err(BadValueRef)
    else Ok(ValueRef(num != VALUE_MARK, hash))
  }

  lemma LimitFour()
    ensures Limit(4) == 0x1_0000_0000
  {
    assert Limit(1) == 256 && Limit(2) == 0x1_0000 && Limit(3) == 0x100_0000;
  }

  lemma {:induction false} DecodeEncodedRef(r: Ref)
    requires RefFits(r)
    ensures DecodeRef(EncodeRef(r)) == Ok(r)
  {
    hide Number;
    hide Digits;
    hide Limit;
    LimitFour();
    NumberOfDigits(RefNumber(r), 4);
    NumberOfDigits(r.hash, HASH_SIZE);
    assert EncodeRef(r)[..4] == Digits(RefNumber(r), 4) && EncodeRef(r)[4..] == Digits(r.hash, HASH_SIZE);
  }

  lemma {:induction false} EncodeDecodedRef(bytes: seq<Byte>)
    requires |bytes| == 36 && DecodeRef(bytes).Ok?
    ensures RefFits(DecodeRef(bytes).value) && EncodeRef(DecodeRef(bytes).value) == bytes
  {
    hide Number;
    hide Digits;
    hide Limit;
    LimitFour();
    DigitsOfNumber(bytes[..4]);
    DigitsOfNumber(bytes[4..]);
    assert bytes == bytes[..4] + bytes[4..];
  }

  /** The first bit of an encoded reference is clear, so that it cannot be taken for that of an Extension. */
  lemma RefStartsClear(r: Ref)
    requires RefFits(r)
    ensures EncodeRef(r)[0] < 128
  {
    var num := RefNumber(r);
    assert num < 0x8000_0000;
    assert Digits(num, 4) == Digits(num / 256 / 256 / 256, 1) + [num / 256 / 256 % 256, num / 256 % 256, num % 256] by {
      assert Digits(num, 4) == Digits(num / 256, 3) + [num % 256];
      assert Digits(num / 256, 3) == Digits(num / 256 / 256, 2) + [num / 256 % 256];
      assert Digits(num / 256 / 256, 2) == Digits(num / 256 / 256 / 256, 1) + [num / 256 / 256 % 256];
    }
    assert Digits(num / 256 / 256 / 256, 1) == [num / 256 / 256 / 256 % 256];
  }

  // ----- nodes

  const NODE_SIZE: nat := 72

  predicate NodeFits(n: RawNode) {
    match n
    case RawBranch(l, r) => RefFits(l) && RefFits(r)
    case RawExt(k, c) => k.IsExtKey() && RefFits(c)
  }

  function EncodeNode(n: RawNode): (bytes: seq<Byte>)
    requires NodeFits(n)
    ensures |bytes| == NODE_SIZE
  {
    match n
    case RawBranch(l, r) => EncodeRef(l) + EncodeRef(r)
    case RawExt(k, c) =>
      var key := EncodeKey(k, 128);
      key + Cleared(36 - |key|) + EncodeRef(c)
  }

  function DecodeNode(bytes: seq<Byte>): Result<RawNode, DecodeError>
    requires |bytes| == NODE_SIZE
  {
    var left, right := bytes[..36], bytes[36..];
    var r :- DecodeRef(right);
    if left[0] < 128 then
      var l :- DecodeRef(left);
      Ok(RawBranch(l, r))
    else
      var high: nat := left[0] - 128;
      match DecodeKey(high * 256 + left[1], left[2..])
      case None => Err(BadExtensionKey)
      case Some(k) => Ok(RawExt(k, r))
  }

  /** What is stored in a block is what is read from it. */
  lemma {:induction false} DecodeEncodedNode(n: RawNode)
    requires NodeFits(n)
    ensures DecodeNode(EncodeNode(n)) == Ok(n)
  {
    match n
    case RawBranch(l, r) => DecodeEncodedBranch(l, r);
    case RawExt(k, c) => DecodeEncodedExt(k, c);
  }

  lemma DecodeEncodedBranch(l: Ref, r: Ref)
    requires RefFits(l) && RefFits(r)
    ensures DecodeNode(EncodeNode(RawBranch(l, r))) == Ok(RawBranch(l, r))
  {
    hide EncodeRef;
    hide DecodeRef;
    hide DecodeKey;
    var bytes := EncodeNode(RawBranch(l, r));
    assert bytes[..36] == EncodeRef(l) && bytes[36..] == EncodeRef(r);
    DecodeEncodedRef(l);
    DecodeEncodedRef(r);
    RefStartsClear(l);
  }

  lemma DecodeEncodedExt(k: Slice, c: Ref)
    requires k.IsExtKey() && RefFits(c)
    ensures DecodeNode(EncodeNode(RawExt(k, c))) == Ok(RawExt(k, c))
  {
    hide EncodeRef;
    hide DecodeRef;
    hide DecodeKey;
    hide EncodeKey;
    hide AllFalse;
    hide Unpack;
    var bytes := EncodeNode(RawExt(k, c));
    var key := EncodeKey(k, 128);
    var rest := Cleared(36 - |key|);
    assert bytes[36..] == EncodeRef(c) && bytes[..36] == key + rest;
    DecodeEncodedRef(c);
    ClearedBits(rest);
    DecodeEncodedKey(k, 128, rest);
    assert bytes[..36][2..] == key[2..] + rest;
    assert bytes[0] == key[..2][0] && bytes[1] == key[..2][1];
  }

  /** No two byte strings stand for the same node. */
  lemma {:induction false} EncodeDecodedNode(bytes: seq<Byte>)
    requires |bytes| == NODE_SIZE && DecodeNode(bytes).Ok?
    ensures NodeFits(DecodeNode(bytes).value) && EncodeNode(DecodeNode(bytes).value) == bytes
  {
    hide EncodeKey;
    hide DecodeKey;
    hide EncodeRef;
    hide DecodeRef;
    var left, right := bytes[..36], bytes[36..];
    assert bytes == left + right;
    EncodeDecodedRef(right);
    if left[0] < 128 {
      EncodeDecodedRef(left);
    } else {
      EncodeDecodedHalf(left);
    }
  }

  lemma EncodeDecodedHalf(left: seq<Byte>)
    requires |left| == 36 && 128 <= left[0]
    requires var high: nat := left[0] - 128; DecodeKey(high * 256 + left[1], left[2..]).Some?
    ensures var high: nat := left[0] - 128;
      var k := DecodeKey(high * 256 + left[1], left[2..]).value;
      k.IsExtKey() && EncodeKey(k, 128) + Cleared(36 - |EncodeKey(k, 128)|) == left
  {
    hide EncodeKey;
    hide DecodeKey;
    hide BytesLen;
    var high: nat := left[0] - 128;
    var num := high * 256 + left[1];
    assert num / 256 == high && num % 256 == left[1];
    EncodeDecodedKey(num, left[2..], 128);
    var k := DecodeKey(num, left[2..]).value;
    var n := BytesLen(k.offset, |k.bits|);
    assert left == [left[0], left[1]] + (left[2..][..n] + left[2..][n..]);
  }

  lemma {:induction false} ClearedNumber(k: nat)
    ensures Digits(0, k) == Cleared(k)
  {
    if k > 0 {
      ClearedNumber(k - 1);
      ClearedEnd(k - 1);
    }
  }

  lemma {:induction false} ClearedEnd(n: nat)
    ensures Cleared(n) + [0] == [0] + Cleared(n)
  {
    if n > 0 {
      ClearedEnd(n - 1);
      assert Cleared(n) + [0] == [0] + (Cleared(n - 1) + [0]);
    }
  }

  /** The allocator marks free blocks by clearing their last bytes: a stored node is mistaken for a free block just
      when the hash it ends with is the all-zero one. */
  lemma {:induction false} LooksFree(n: RawNode)
    requires NodeFits(n)
    ensures EncodeNode(n)[NODE_SIZE - HASH_SIZE..] == Cleared(HASH_SIZE) <==> EndsInZero(n)
  {
    hide Digits;
    hide Limit;
    hide Cleared;
    hide EncodeKey;
    var last := match n case RawBranch(_, r) => r case RawExt(_, c) => c;
    assert EncodeNode(n)[NODE_SIZE - HASH_SIZE..] == Digits(last.hash, HASH_SIZE);
    ClearedNumber(HASH_SIZE);
    LimitPositive(HASH_SIZE);
    NumberOfDigits(0, HASH_SIZE);
    NumberOfDigits(last.hash, HASH_SIZE);
  }

  lemma {:induction false} LimitPositive(k: nat)
    ensures 0 < Limit(k)
  {
    if k > 0 {
      LimitPositive(k - 1);
    }
  }

  // ----- what node hashes are computed from

  predicate ContentFits(c: Content) {
    match c
    case BranchContent(l, r) => HashFits(l.hash) && HashFits(r.hash)
    case ExtContent(k, child) => k.IsExtKey() && HashFits(child.hash)
  }

  function HashInput(c: Content): seq<Byte>
    requires ContentFits(c)
  {
    match c
    case BranchContent(l, r) =>
      [(if l.isValue then 2 else 0) + (if r.isValue then 1 else 0)]
      + Digits(l.hash, HASH_SIZE) + Digits(r.hash, HASH_SIZE)
    case ExtContent(k, child) =>
      EncodeKey(k, if child.isValue then 144 else 128) + Digits(child.hash, HASH_SIZE)
  }

  lemma SameDigits(a: nat, b: nat)
    requires HashFits(a) && HashFits(b) && Digits(a, HASH_SIZE) == Digits(b, HASH_SIZE)
    ensures a == b
  {
    NumberOfDigits(a, HASH_SIZE);
    NumberOfDigits(b, HASH_SIZE);
  }

  lemma HashInputTag(c: Content)
    requires ContentFits(c)
    ensures HashInput(c) != []
    ensures c.BranchContent? ==> HashInput(c)[0] < 16
    ensures c.ExtContent? ==> HashInput(c)[0] / 16 == if c.child.isValue then 9 else 8
  {
  }

  /** Different contents are hashed from different bytes: a collision of node hashes is one of the hash function. */
  lemma {:induction false} HashInputInjective(a: Content, b: Content)
    requires ContentFits(a) && ContentFits(b) && HashInput(a) == HashInput(b)
    ensures a == b
  {
    HashInputTag(a);
    HashInputTag(b);
    if a.BranchContent? {
      BranchInput(a.left, a.right, b.left, b.right);
    } else {
      ExtInput(a.key, a.child, b.key, b.child);
    }
  }

  lemma BranchInput(l: OwnedRef, r: OwnedRef, l': OwnedRef, r': OwnedRef)
    requires HashFits(l.hash) && HashFits(r.hash) && HashFits(l'.hash) && HashFits(r'.hash)
    requires HashInput(BranchContent(l, r)) == HashInput(BranchContent(l', r'))
    ensures l == l' && r == r'
  {
    var (x, y) := (HashInput(BranchContent(l, r)), HashInput(BranchContent(l', r')));
    hide Digits;
    hide Limit;
    assert x[0] == y[0];
    assert x[1..33] == Digits(l.hash, HASH_SIZE) && y[1..33] == Digits(l'.hash, HASH_SIZE);
    assert x[33..] == Digits(r.hash, HASH_SIZE) && y[33..] == Digits(r'.hash, HASH_SIZE);
    SameDigits(l.hash, l'.hash);
    SameDigits(r.hash, r'.hash);
  }

  lemma ExtInput(k: Slice, c: OwnedRef, k': Slice, c': OwnedRef)
    requires k.IsExtKey() && k'.IsExtKey() && HashFits(c.hash) && HashFits(c'.hash) && c.isValue == c'.isValue
    requires HashInput(ExtContent(k, c)) == HashInput(ExtContent(k', c'))
    ensures k == k' && c == c'
  {
    hide EncodeKey;
    hide Digits;
    hide Limit;
    hide DecodeKey;
    var tag := if c.isValue then 144 else 128;
    var (x, y) := (HashInput(ExtContent(k, c)), HashInput(ExtContent(k', c')));
    var (e, e') := (EncodeKey(k, tag), EncodeKey(k', tag));
    assert x == e + Digits(c.hash, HASH_SIZE) && y == e' + Digits(c'.hash, HASH_SIZE);
    assert |e| == |e'|;
    assert e == x[..|e|] && e' == y[..|e'|];
    assert Digits(c.hash, HASH_SIZE) == x[|e|..] && Digits(c'.hash, HASH_SIZE) == y[|e'|..];
    SameKeys(k, k', tag);
    SameDigits(c.hash, c'.hash);
  }

  lemma SameKeys(k: Slice, k': Slice, tag: nat)
    requires k.IsExtKey() && k'.IsExtKey() && tag % 16 == 0 && tag < 256
    requires EncodeKey(k, tag) == EncodeKey(k', tag)
    ensures k == k'
  {
    hide EncodeKey;
    hide DecodeKey;
    DecodeEncodedKey(k, tag, []);
    DecodeEncodedKey(k', tag, []);
    var (a, b) := (EncodeKey(k, tag)[..2], EncodeKey(k', tag)[..2]);
    assert a[0] == b[0] && a[1] == b[1];
    assert KeyNumber(k) == KeyNumber(k');
  }

  // ----- block fingerprints

  function LittleDigits(n: nat, k: nat): (bytes: seq<Byte>)
    ensures |bytes| == k
  {
    if k == 0 then [] else [n % 256] + LittleDigits(n / 256, k - 1)
  }

  function LittleNumber(bytes: seq<Byte>): nat {
    if bytes == [] then 0 else LittleNumber(bytes[1..]) * 256 + bytes[0]
  }

  lemma {:induction false} LittleNumberOfDigits(n: nat, k: nat)
    requires n < Limit(k)
    ensures LittleNumber(LittleDigits(n, k)) == n
  {
    if k > 0 {
      LittleNumberOfDigits(n / 256, k - 1);
    }
  }

  const FINGERPRINT_SIZE: nat := 72

  /** The bytes validators sign: genesis hash, block height, block hash. */
  function FingerprintBytes(genesis: Hash, height: nat, hash: Hash): (bytes: seq<Byte>)
    ensures |bytes| == FINGERPRINT_SIZE
  {
    Digits(genesis, HASH_SIZE) + LittleDigits(height, 8) + Digits(hash, HASH_SIZE)
  }

  function ParseFingerprint(bytes: seq<Byte>): (Hash, nat, Hash)
    requires |bytes| == FINGERPRINT_SIZE
  {
    (Number(bytes[..32]), LittleNumber(bytes[32..40]), Number(bytes[40..]))
  }

  /** Parsing gives back what a fingerprint was made of, so a signature is good for one block of one chain only. */
  lemma {:induction false} ParseFingerprintBytes(genesis: Hash, height: nat, hash: Hash)
    requires HashFits(genesis) && HashFits(hash) && height < Limit(8)
    ensures ParseFingerprint(FingerprintBytes(genesis, height, hash)) == (genesis, height, hash)
  {
    hide Digits;
    hide LittleDigits;
    hide Limit;
    hide Number;
    hide LittleNumber;
    var bytes := FingerprintBytes(genesis, height, hash);
    assert bytes[..32] == Digits(genesis, HASH_SIZE);
    assert bytes[32..40] == LittleDigits(height, 8);
    assert bytes[40..] == Digits(hash, HASH_SIZE);
    NumberOfDigits(genesis, HASH_SIZE);
    LittleNumberOfDigits(height, 8);
    NumberOfDigits(hash, HASH_SIZE);
  }

  // ----- where everything is

  /** The byte of a number that counts multiples of 256 to the power of `i`. */
  function ByteAt(n: nat, i: nat): Byte {
    if i == 0 then n % 256 else ByteAt(n / 256, i - 1)
  }

  /** The bytes of a number, the most significant one first. */
  predicate Big(bytes: seq<Byte>, n: nat) {
    forall i | 0 <= i < |bytes| :: bytes[i] == ByteAt(n, |bytes| - 1 - i)
  }

  /** The bytes of a number, the least significant one first. */
  predicate Small(bytes: seq<Byte>, n: nat) {
    forall i | 0 <= i < |bytes| :: bytes[i] == ByteAt(n, i)
  }

  lemma {:induction false} DigitsAreBig(n: nat, k: nat)
    ensures Big(Digits(n, k), n)
  {
    if k > 0 {
      DigitsAreBig(n / 256, k - 1);
      var front := Digits(n / 256, k - 1);
      assert forall i | 0 <= i < k - 1 :: Digits(n, k)[i] == front[i];
    }
  }

  lemma {:induction false} LittleDigitsAreSmall(n: nat, k: nat)
    ensures Small(LittleDigits(n, k), n)
  {
    if k > 0 {
      LittleDigitsAreSmall(n / 256, k - 1);
      var rest := LittleDigits(n / 256, k - 1);
      assert forall i | 0 < i < k :: LittleDigits(n, k)[i] == rest[i - 1];
    }
  }

  /** Bit `i` of a number, the least significant one being bit 0. */
  function NumberBit(n: nat, i: nat): bool {
    if i == 0 then n % 2 == 1 else NumberBit(n / 2, i - 1)
  }

  /** Bit `p` of the bytes, the most significant bit of each byte first. */
  predicate BitAt(bytes: seq<Byte>, p: nat)
    requires p < 8 * |bytes|
  {
    NumberBit(bytes[p / 8], 7 - p % 8)
  }

  lemma {:induction false} BitsFromAt(n: nat, k: nat, i: nat)
    requires i < k
    ensures BitsFrom(n, k)[i] == NumberBit(n, k - 1 - i)
  {
    if i < k - 1 {
      BitsFromAt(n / 2, k - 1, i);
    }
  }

  lemma {:induction false} UnpackedAt(bytes: seq<Byte>, p: nat)
    requires p < 8 * |bytes|
    ensures Unpack(bytes)[p] == BitAt(bytes, p)
  {
    hide BitsFrom;
    hide NumberBit;
    if p < 8 {
      BitsFromAt(bytes[0], 8, p);
    } else {
      UnpackedAt(bytes[1..], p - 8);
    }
  }

  /** The bits of a key stand where they are in its bytes and all other bits are clear; in front are tag, length
      and offset. */
  lemma {:induction false} KeyLayout(key: Slice, tag: nat)
    requires key.IsExtKey() && tag % 16 == 0 && tag < 256
    ensures var (bytes, end) := (EncodeKey(key, tag), key.offset + |key.bits|);
      && bytes[0] == tag + |key.bits| / 32 && bytes[1] == |key.bits| % 32 * 8 + key.offset
      && |bytes| == 2 + (end + 7) / 8
      && forall p | 0 <= p < 8 * (|bytes| - 2) ::
           BitAt(bytes[2..], p) == (key.offset <= p < end && key.bits[p - key.offset])
  {
    hide BitAt;
    hide Pack;
    hide Unpack;
    var bytes := EncodeKey(key, tag);
    assert bytes[2..] == Pack(Masked(key));
    UnpackPacked(Masked(key));
    forall p | 0 <= p < 8 * (|bytes| - 2)
      ensures BitAt(bytes[2..], p) == (key.offset <= p < key.offset + |key.bits| && key.bits[p - key.offset])
    {
      UnpackedAt(bytes[2..], p);
    }
  }

  /** A stored reference: four bytes that hold the pointer, zero for none, or say what kind of value it is,
      and the hash. */
  predicate RefBytes(bytes: seq<Byte>, r: Ref) {
    && |bytes| == 36 && Big(bytes[4..], r.hash)
    && Big(bytes[..4], match r
                       case NodeRef(None, _) => 0
                       case NodeRef(Some(ptr), _) => ptr
                       case ValueRef(false, _) => 0x4000_0000
                       case ValueRef(true, _) => 0x6000_0000)
  }

  lemma RefLayout(r: Ref)
    ensures RefBytes(EncodeRef(r), r)
  {
    hide Digits;
    hide Big;
    DigitsAreBig(RefNumber(r), 4);
    DigitsAreBig(r.hash, HASH_SIZE);
    assert EncodeRef(r)[..4] == Digits(RefNumber(r), 4) && EncodeRef(r)[4..] == Digits(r.hash, HASH_SIZE);
  }

  /** The 72 bytes of a node: two references, the left one first, or the key of an Extension, cleared bytes and
      the reference to its child. */
  lemma {:induction false} NodeLayout(n: RawNode)
    requires NodeFits(n)
    ensures var bytes := EncodeNode(n);
      match n
      case RawBranch(l, r) => RefBytes(bytes[..36], l) && RefBytes(bytes[36..], r)
      case RawExt(k, c) =>
        var key := EncodeKey(k, 128);
        key <= bytes && (forall i | |key| <= i < 36 :: bytes[i] == 0) && RefBytes(bytes[36..], c)
  {
    hide EncodeRef;
    hide EncodeKey;
    hide RefBytes;
    var bytes := EncodeNode(n);
    match n
    case RawBranch(l, r) =>
      RefLayout(l);
      RefLayout(r);
      assert bytes[..36] == EncodeRef(l) && bytes[36..] == EncodeRef(r);
    case RawExt(k, c) =>
      var key := EncodeKey(k, 128);
      RefLayout(c);
      ClearedAt(36 - |key|);
      assert bytes[36..] == EncodeRef(c);
  }

  lemma {:induction false} ClearedAt(n: nat)
    ensures forall i | 0 <= i < n :: Cleared(n)[i] == 0
  {
    if n > 0 {
      ClearedAt(n - 1);
    }
  }

  /** What is hashed for a node: of a Branch a byte that tells values from nodes, the left and the right hash,
      of an Extension its key, marked when it leads to a value, and the hash of the child. */
  lemma {:induction false} HashInputLayout(c: Content)
    requires ContentFits(c)
    ensures var bytes := HashInput(c);
      match c
      case BranchContent(l, r) =>
        && |bytes| == 65
        && bytes[0] == (if l.isValue then 2 else 0) + (if r.isValue then 1 else 0)
        && Big(bytes[1..33], l.hash) && Big(bytes[33..], r.hash)
      case ExtContent(k, child) =>
        var key := EncodeKey(k, if child.isValue then 144 else 128);
        |bytes| == |key| + 32 && key <= bytes && Big(bytes[|key|..], child.hash)
  {
    hide EncodeKey;
    hide Big;
    hide Digits;
    var bytes := HashInput(c);
    match c
    case BranchContent(l, r) =>
      DigitsAreBig(l.hash, 32);
      DigitsAreBig(r.hash, 32);
      assert bytes[1..33] == Digits(l.hash, 32) && bytes[33..] == Digits(r.hash, 32);
    case ExtContent(k, child) =>
      DigitsAreBig(child.hash, 32);
      assert bytes[|bytes| - 32..] == Digits(child.hash, 32);
  }

  /** What validators sign: the genesis hash, the height, least significant byte first, and the block hash. */
  lemma {:induction false} FingerprintLayout(genesis: Hash, height: nat, hash: Hash)
    ensures var bytes := FingerprintBytes(genesis, height, hash);
      Big(bytes[..32], genesis) && Small(bytes[32..40], height) && Big(bytes[40..], hash)
  {
    hide Digits;
    hide LittleDigits;
    hide Big;
    hide Small;
    DigitsAreBig(genesis, 32);
    LittleDigitsAreSmall(height, 8);
    DigitsAreBig(hash, 32);
    var bytes := FingerprintBytes(genesis, height, hash);
    assert bytes[..32] == Digits(genesis, 32) && bytes[40..] == Digits(hash, 32);
    assert bytes[32..40] == LittleDigits(height, 8);
  }
}
