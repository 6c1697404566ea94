/** Bit slices as bytes: a bit offset, a length in bits and the bytes the bits are in.  A byte is its eight bits, the
    most significant one first; bits outside of a slice may be anything. */
module ByteBits {
  import opened Wrappers
  import opened Bits
  import opened Encoding
  import opened TrieSet
  import DelSpec
  import Trie

  type Octet = b: seq<bool> | |b| == 8 witness seq(8, i => false)

  /** Bit `i` of some bytes. */
  function BitOf(bytes: seq<Octet>, i: nat): bool
    requires i < 8 * |bytes|
  {
    bytes[i / 8][i % 8]
  }

  lemma BitOfConcat(a: seq<Octet>, b: seq<Octet>, i: nat)
    requires i < 8 * (|a| + |b|)
    ensures BitOf(a + b, i) == if i < 8 * |a| then BitOf(a, i) else BitOf(b, i - 8 * |a|)
  {
    if i >= 8 * |a| {
      assert (i - 8 * |a|) / 8 == i / 8 - |a| && (i - 8 * |a|) % 8 == i % 8;
    }
  }

  lemma BitOfDropped(bytes: seq<Octet>, k: nat, i: nat)
    requires k <= |bytes| && i + 8 * k < 8 * |bytes|
    ensures BitOf(bytes[k..], i) == BitOf(bytes, i + 8 * k)
  {
    BitOfConcat(bytes[..k], bytes[k..], i + 8 * k);
    assert bytes == bytes[..k] + bytes[k..];
  }

  lemma BitOfChanged(bytes: seq<Octet>, at: nat, bit: bool, i: nat)
    requires at < 8 * |bytes| && i < 8 * |bytes|
    ensures BitOf(bytes[at / 8 := bytes[at / 8][at % 8 := bit]], i) == if i == at then bit else BitOf(bytes, i)
  {
    if i != at && i / 8 == at / 8 {
      assert i % 8 != at % 8;
    }
  }

  /** The bytes a slice spans hold its bits. */
  lemma Spans(offset: nat, length: nat)
    requires offset < 8
    ensures var (n, end) := (BytesLen(offset, length), offset + length);
      && (n == 0 <==> length == 0)
      && (0 < length ==> end <= 8 * n && 8 * (n - 1) < end)
      && (0 < length ==> n == (end - 1) / 8 + 1)
      && (0 < length && BitInByte(end) != 0 ==> n == end / 8 + 1)
      && (0 < length && BitInByte(end) == 0 ==> 8 * n == end)
      && BytesLen(offset, length + 1) == end / 8 + 1
  {
  }

  /** A slice of bits over some bytes. */
  datatype Raw = Raw(offset: nat, length: nat, bytes: seq<Octet>) {
    predicate Valid() {
      offset < 8 && length <= MAX_SLICE_LENGTH && BytesLen(offset, length) <= |bytes|
    }

    function View(): Slice
      requires Valid()
    {
      Spans(offset, length);
      Slice(offset, seq(length, i requires 0 <= i < length => BitOf(bytes, offset + i)))
    }

    function Bytes(): (used: seq<Octet>)
      requires Valid()
      ensures |used| == BytesLen(offset, length)
    {
      bytes[..BytesLen(offset, length)]
    }

    /** Both parts of the slice; the second one starts in the byte its first bit is in. */
    function SplitAt(n: nat): (Raw, Raw)
      requires Valid() && n <= length
    {
      Spans(offset, length);
      (Raw(offset, n, bytes), Raw(BitInByte(offset + n), length - n, bytes[(offset + n) / 8..]))
    }
  }

  lemma ViewAt(r: Raw, i: nat)
    requires r.Valid() && i < r.length
    ensures |r.View().bits| == r.length && r.offset + i < 8 * BytesLen(r.offset, r.length) <= 8 * |r.bytes|
    ensures r.View().bits[i] == BitOf(r.bytes, r.offset + i) == BitOf(r.Bytes(), r.offset + i)
  {
    Spans(r.offset, r.length);
  }

  lemma {:induction false} SplitViews(r: Raw, n: nat)
    requires r.Valid() && n <= r.length
    ensures var (left, right) := r.SplitAt(n);
      && left.Valid() && right.Valid()
      && left.View() == r.View().Take(n) && right.View() == r.View().Drop(n)
  {
    hide BytesLen;
    hide BitOf;
    hide Raw.View;
    var (left, right) := r.SplitAt(n);
    SplitValid(r, n);
    Lengths(r);
    Lengths(left);
    Lengths(right);
    forall i | 0 <= i < n
      ensures left.View().bits[i] == r.View().bits[..n][i]
    {
      ViewAt(left, i);
      ViewAt(r, i);
    }
    var k := (r.offset + n) / 8;
    forall i | 0 <= i < r.length - n
      ensures right.View().bits[i] == r.View().bits[n..][i]
    {
      ViewAt(right, i);
      ViewAt(r, n + i);
      BitOfDropped(r.bytes, k, right.offset + i);
    }
  }

  lemma SplitValid(r: Raw, n: nat)
    requires r.Valid() && n <= r.length
    ensures var (left, right) := r.SplitAt(n);
      left.Valid() && right.Valid() && right.offset + 8 * ((r.offset + n) / 8) == r.offset + n
  {
  }

  // ----- comparing

  /** Two bytes agree on the bits from `from` to `to`: their difference under the mask of these bits is zero. */
  predicate Agree(a: Octet, b: Octet, from: nat, to: nat)
    requires to <= 8
  {
    forall i | from <= i < to :: a[i] == b[i]
  }

  /** How many bits of the last byte belong to a slice. */
  function LastBits(offset: nat, length: nat): (n: nat)
    requires 0 < length
    ensures 0 < n <= 8
  {
    (offset + length - 1) % 8 + 1
  }

  /** Equality by bytes: masks for the first and the last byte, whole bytes in between. */
  predicate Equal(a: Raw, b: Raw)
    requires a.Valid() && b.Valid()
  {
    && a.offset == b.offset && a.length == b.length
    && (a.length == 0
        || var (x, y, last) := (a.Bytes(), b.Bytes(), LastBits(a.offset, a.length));
           var n := |x|;
           if n == 1 then Agree(x[0], y[0], a.offset, last)
           else Agree(x[0], y[0], a.offset, 8) && Agree(x[n - 1], y[n - 1], 0, last) && x[1..n - 1] == y[1..n - 1])
  }

  lemma {:induction false} EqualViews(a: Raw, b: Raw)
    requires a.Valid() && b.Valid()
    ensures Equal(a, b) <==> a.View() == b.View()
  {
    if a.offset == b.offset && a.length == b.length && 0 < a.length {
      if Equal(a, b) {
        forall i | 0 <= i < a.length
          ensures a.View().bits[i] == b.View().bits[i]
        {
          EqualAt(a, b, i);
        }
      }
      if a.View() == b.View() {
        ViewsEqual(a, b);
      }
    }
  }

  lemma EqualAt(a: Raw, b: Raw, i: nat)
    requires a.Valid() && b.Valid() && Equal(a, b) && i < a.length
    ensures a.View().bits[i] == b.View().bits[i]
  {
    ViewAt(a, i);
    ViewAt(b, i);
    var (x, y, n) := (a.Bytes(), b.Bytes(), |a.Bytes()|);
    var (p, q) := ((a.offset + i) / 8, (a.offset + i) % 8);
    assert p < n && (p == 0 ==> a.offset <= q) && (p == n - 1 ==> q < LastBits(a.offset, a.length));
    hide BytesLen;
    if 0 < p < n - 1 {
      assert x[1..n - 1][p - 1] == y[1..n - 1][p - 1];
    }
  }

  /** Where two slices with the same view agree, bit by bit of the bytes. */
  lemma AgreeAt(a: Raw, b: Raw, p: nat, q: nat)
    requires a.Valid() && b.Valid() && a.View() == b.View() && a.length == b.length
    requires q < 8 && a.offset <= 8 * p + q < a.offset + a.length
    ensures p < |a.Bytes()| == |b.Bytes()| && a.Bytes()[p][q] == b.Bytes()[p][q]
  {
    var i := 8 * p + q - a.offset;
    ViewAt(a, i);
    ViewAt(b, i);
    assert (a.offset + i) / 8 == p && (a.offset + i) % 8 == q;
  }

  lemma ViewsEqual(a: Raw, b: Raw)
    requires a.Valid() && b.Valid() && a.View() == b.View() && a.length == b.length && 0 < a.length
    ensures Equal(a, b)
  {
    hide BytesLen;
    hide BitOf;
    hide Raw.View;
    Spans(a.offset, a.length);
    Lengths(a);
    Lengths(b);
    var (x, y, n, last) := (a.Bytes(), b.Bytes(), |a.Bytes()|, LastBits(a.offset, a.length));
    assert 8 * (n - 1) + last == a.offset + a.length;
    forall p, q | 0 <= p < n && 0 <= q < 8 && a.offset <= 8 * p + q < a.offset + a.length
      ensures x[p][q] == y[p][q]
    {
      AgreeAt(a, b, p, q);
    }
    forall p | 1 <= p < n - 1
      ensures x[p] == y[p]
    {
      assert forall q | 0 <= q < 8 :: x[p][q] == y[p][q];
    }
    assert n > 1 ==> x[1..n - 1] == y[1..n - 1];
  }

  /** Whether a slice starts with another one; if so, stripping it leaves the second part of the split. */
  predicate StartsWith(r: Raw, prefix: Raw)
    requires r.Valid() && prefix.Valid()
  {
    r.offset == prefix.offset && prefix.length <= r.length &&
    (SplitViews(r, prefix.length); Equal(r.SplitAt(prefix.length).0, prefix))
  }

  lemma StartsWithViews(r: Raw, prefix: Raw)
    requires r.Valid() && prefix.Valid()
    ensures StartsWith(r, prefix) <==> r.View().StartsWith(prefix.View())
  {
    hide BitOf;
    hide BytesLen;
    hide Equal;
    hide Raw.View;
    Lengths(r);
    Lengths(prefix);
    if r.offset == prefix.offset && prefix.length <= r.length {
      SplitViews(r, prefix.length);
      EqualViews(r.SplitAt(prefix.length).0, prefix);
      assert r.View().Take(prefix.length) == prefix.View() <==> prefix.View().bits <= r.View().bits;
    }
  }

  // ----- longest common prefix

  /** Position of the first bit from `from` on in which two bytes differ; eight if there is none. */
  function FirstDifference(a: Octet, b: Octet, from: nat): (n: nat)
    requires from <= 8
    ensures from <= n <= 8 && Agree(a, b, from, n)
    ensures n < 8 ==> a[n] != b[n]
    decreases 8 - from
  {
    if from == 8 || a[from] != b[from] then from else FirstDifference(a, b, from + 1)
  }

  /** Number of bits two slices have in common, found byte by byte.  Fails on an empty slice that does not start
      at a byte boundary, of which there is no byte to look at. */
  method CommonPrefix(a: Raw, b: Raw) returns (r: Option<nat>)
    requires a.Valid() && b.Valid() && 0 < b.length
    ensures r.None? <==> a.offset == b.offset && a.length == 0 && 0 < a.offset
    ensures r.Some? ==> r.value == MatchLen(a.View(), b.View())
  {
    hide BytesLen;
    hide BitOf;
    hide CommonPrefixLen;
    hide FirstDifference;
    if a.offset != b.offset {
      return Some(0);
    }
    Spans(a.offset, a.length);
    Spans(b.offset, b.length);
    var length: nat := a.offset + (if a.length < b.length then a.length else b.length);
    var n := (length + 7) / 8;
    if n > |a.Bytes()| || n > |b.Bytes()| {
      return None;
    }
    var lhs, rhs := a.Bytes()[..n], b.Bytes()[..n];
    if n == 0 {
      PrefixLenIs(a.View().bits, b.View().bits, 0);
      return Some(0);
    }
    var matched := MatchBytes(lhs, rhs, a.offset);
    if length < matched {
      matched := length;
    }
    MatchedBits(a, b, lhs, rhs, matched);
    return Some(matched - a.offset);
  }

  /** Number of bits two byte strings agree on, those before `from` not looked at. */
  method MatchBytes(lhs: seq<Octet>, rhs: seq<Octet>, from: nat) returns (matched: nat)
    requires |lhs| == |rhs| > 0 && from < 8
    ensures AgreeUpTo(lhs, rhs, from, matched)
  {
    hide AgreeUpTo;
    matched := FirstDifference(lhs[0], rhs[0], from);
    if matched < 8 {
      MatchedFirst(lhs, rhs, from, matched);
      return;
    }
    var p := 1;
    while p < |lhs| && lhs[p] == rhs[p]
      invariant 1 <= p <= |lhs|
      invariant forall k | 1 <= k < p :: lhs[k] == rhs[k]
    {
      p := p + 1;
    }
    var more := if p < |lhs| then FirstDifference(lhs[p], rhs[p], 0) else 0;
    MatchedWhole(lhs, rhs, from, p, more);
    matched := 8 * p + more;
  }

  /** Bytes agree on the bits from `from` up to `to`, but not on the one after. */
  ghost predicate AgreeUpTo(lhs: seq<Octet>, rhs: seq<Octet>, from: nat, to: nat) {
    && |lhs| == |rhs| && from <= to <= 8 * |lhs|
    && (forall i | from <= i < to :: BitOf(lhs, i) == BitOf(rhs, i))
    && (to < 8 * |lhs| ==> BitOf(lhs, to) != BitOf(rhs, to))
  }

  lemma MatchedFirst(lhs: seq<Octet>, rhs: seq<Octet>, from: nat, n: nat)
    requires |lhs| == |rhs| > 0 && from <= n < 8 && n == FirstDifference(lhs[0], rhs[0], from)
    ensures AgreeUpTo(lhs, rhs, from, n)
  {
  }

  lemma MatchedWhole(lhs: seq<Octet>, rhs: seq<Octet>, from: nat, p: nat, more: nat)
    requires |lhs| == |rhs| > 0 && from < 8 && FirstDifference(lhs[0], rhs[0], from) == 8
    requires 1 <= p <= |lhs| && forall k | 1 <= k < p :: lhs[k] == rhs[k]
    requires if p < |lhs| then lhs[p] != rhs[p] && more == FirstDifference(lhs[p], rhs[p], 0) else more == 0
    ensures AgreeUpTo(lhs, rhs, from, 8 * p + more)
  {
    if p < |lhs| && more == 8 {
      assert false;
    }
    forall i | from <= i < 8 * p + more
      ensures BitOf(lhs, i) == BitOf(rhs, i)
    {
      var k := i / 8;
      assert k == 0 || 1 <= k < p || (k == p && i % 8 < more);
    }
    if p < |lhs| {
      assert (8 * p + more) / 8 == p && (8 * p + more) % 8 == more;
    }
  }

  /** What is known of two slices once their bytes have been compared. */
  lemma MatchedBits(a: Raw, b: Raw, lhs: seq<Octet>, rhs: seq<Octet>, matched: nat)
    requires a.Valid() && b.Valid() && a.offset == b.offset && |lhs| == |rhs|
    requires lhs <= a.Bytes() && rhs <= b.Bytes()
    requires a.offset <= matched <= a.offset + a.length && matched <= a.offset + b.length && matched <= 8 * |lhs|
    requires forall i | a.offset <= i < matched :: BitOf(lhs, i) == BitOf(rhs, i)
    requires matched < a.offset + a.length && matched < a.offset + b.length ==>
      matched < 8 * |lhs| && BitOf(lhs, matched) != BitOf(rhs, matched)
    ensures matched - a.offset == MatchLen(a.View(), b.View())
  {
    hide BytesLen;
    hide Raw.View;
    hide CommonPrefixLen;
    var n := matched - a.offset;
    Lengths(a);
    Lengths(b);
    var (x, y) := (a.View().bits, b.View().bits);
    forall i | 0 <= i < n
      ensures x[i] == y[i]
    {
      ViewAt(a, i);
      ViewAt(b, i);
      assert BitOf(lhs, a.offset + i) == BitOf(rhs, a.offset + i);
    }
    assert x[..n] == y[..n];
    if n < |x| && n < |y| {
      ViewAt(a, n);
      ViewAt(b, n);
    }
    PrefixLenIs(x, y, n);
  }

  lemma Lengths(r: Raw)
    requires r.Valid()
    ensures |r.View().bits| == r.length && r.View().offset == r.offset
  {
  }

  // ----- growing and shrinking

  /** A byte of which only one bit may be set. */
  function NewOctet(at: nat, bit: bool): Octet {
    seq(8, i => i == at && bit)
  }

  lemma NewBit(at: nat, bit: bool)
    requires at < 8
    ensures BitOf([NewOctet(at, bit)], at) == bit
  {
  }

  /** A slice that owns its bytes: no more of them than the bits need. */
  class Owned {
    var offset: nat
    var length: nat
    var bytes: seq<Octet>

    ghost predicate Valid()
      reads this
    {
      offset < 8 && length <= MAX_SLICE_LENGTH && |bytes| == BytesLen(offset, length)
    }

    ghost function View(): Slice
      requires Valid()
      reads this
    {
      Raw(offset, length, bytes).View()
    }

    constructor (slice: Raw)
      requires slice.Valid()
      ensures Valid() && View() == slice.View()
    {
      offset, length, bytes := slice.offset, slice.length, slice.Bytes();
      OwnBytes(slice);
    }

    /** Appends a bit; refused when the slice has the greatest length already. */
    method PushBack(bit: bool) returns (ok: bool)
      requires Valid()
      modifies this
      ensures Valid() && (ok <==> old(length) < MAX_SLICE_LENGTH)
      ensures View() == if ok then Slice(offset, old(View()).bits + [bit]) else old(View())
    {
      if length == MAX_SLICE_LENGTH {
        return false;
      }
      ghost var before := Raw(offset, length, bytes);
      var off := BitInByte(offset + length);
      if bytes != [] && off != 0 {
        var last := bytes[|bytes| - 1];
        bytes := bytes[|bytes| - 1 := last[off := bit]];
      } else {
        bytes := bytes + [NewOctet(off, bit)];
      }
      length := length + 1;
      Appended(before, Raw(offset, length, bytes), bit);
      return true;
    }

    /** Takes the last bit off. */
    method PopBack() returns (r: Option<bool>)
      requires Valid()
      modifies this
      ensures Valid() && offset == old(offset)
      ensures if old(length) == 0 then r == None && View() == old(View())
              else r == Some(old(View()).bits[old(length) - 1]) && View() == old(View()).Take(old(length) - 1)
    {
      if length == 0 {
        return None;
      }
      ghost var before := Raw(offset, length, bytes);
      ViewAt(before, length - 1);
      length := length - 1;
      var off := BitInByte(offset + length);
      var bit := bytes[|bytes| - 1][off];
      if off == 0 || length == 0 {
        bytes := bytes[..|bytes| - 1];
      }
      Shortened(before, length);
      return Some(bit);
    }

    /** Keeps the first bits only. */
    method Truncate(len: nat)
      requires Valid()
      modifies this
      ensures Valid()
      ensures View() == if len < old(length) then old(View()).Take(len) else old(View())
    {
      if len < length {
        ghost var before := Raw(offset, length, bytes);
        length := len;
        bytes := bytes[..BytesLen(offset, len)];
        Shortened(before, len);
      }
    }

    method SetLast(bit: bool)
      requires Valid() && 0 < length
      modifies this`bytes
      ensures Valid() && View() == Slice(offset, old(View()).bits[length - 1 := bit])
    {
      ghost var before := Raw(offset, length, bytes);
      var shift := BitInByte(offset + length - 1);
      var last := bytes[|bytes| - 1];
      bytes := bytes[|bytes| - 1 := last[shift := bit]];
      Changed(before, Raw(offset, length, bytes), bit);
    }

    /** Appends a slice that starts at the bit offset this one ends at; otherwise, and when the result would be
        too long, nothing changes. */
    method Extend(suffix: Raw) returns (ok: bool)
      requires Valid() && suffix.Valid()
      modifies this
      ensures Valid()
      ensures match Concat(old(View()), suffix.View())
              case Some(s) => ok && View() == s
              case None => !ok && unchanged(this)
    {
      if BitInByte(length + offset) != suffix.offset {
        return false;
      }
      if length + suffix.length > MAX_SLICE_LENGTH {
        return false;
      }
      ghost var before := Raw(offset, length, bytes);
      var more := suffix.Bytes();
      if bytes != [] && more != [] && suffix.offset != 0 {
        bytes := Mixed(bytes, more, suffix.offset);
      } else {
        bytes := bytes + more;
      }
      length := length + suffix.length;
      Joined(before, suffix, Raw(offset, length, bytes));
      return true;
    }
  }

  lemma OwnBytes(r: Raw)
    requires r.Valid()
    ensures Raw(r.offset, r.length, r.Bytes()).View() == r.View()
  {
    var own := Raw(r.offset, r.length, r.Bytes());
    hide BytesLen;
    hide BitOf;
    forall i | 0 <= i < r.length
      ensures own.View().bits[i] == r.View().bits[i]
    {
      ViewAt(own, i);
      ViewAt(r, i);
    }
  }

  lemma Appended(r: Raw, s: Raw, bit: bool)
    requires r.Valid() && |r.bytes| == BytesLen(r.offset, r.length) && r.length < MAX_SLICE_LENGTH
    requires var off := BitInByte(r.offset + r.length);
      s == Raw(r.offset, r.length + 1,
               if r.bytes != [] && off != 0 then r.bytes[|r.bytes| - 1 := r.bytes[|r.bytes| - 1][off := bit]]
               else r.bytes + [NewOctet(off, bit)])
    ensures s.Valid() && |s.bytes| == BytesLen(s.offset, s.length)
    ensures s.View() == Slice(r.offset, r.View().bits + [bit])
  {
    hide BytesLen;
    hide BitOf;
    hide Raw.View;
    var end := r.offset + r.length;
    Spans(r.offset, r.length);
    Lengths(r);
    Lengths(s);
    forall i | 0 <= i < s.length
      ensures s.View().bits[i] == (r.View().bits + [bit])[i]
    {
      ViewAt(s, i);
      if r.bytes != [] && BitInByte(end) != 0 {
        assert end / 8 == |r.bytes| - 1;
        BitOfChanged(r.bytes, end, bit, r.offset + i);
      } else {
        BitOfConcat(r.bytes, [NewOctet(BitInByte(end), bit)], r.offset + i);
        NewBit(BitInByte(end), bit);
      }
      if i < r.length {
        ViewAt(r, i);
      }
    }
  }

  lemma Shortened(r: Raw, len: nat)
    requires r.Valid() && |r.bytes| == BytesLen(r.offset, r.length) && len < r.length
    ensures BytesLen(r.offset, len) <= |r.bytes|
    ensures var s := Raw(r.offset, len, r.bytes[..BytesLen(r.offset, len)]);
      s.Valid() && s.View() == r.View().Take(len)
    ensures len == r.length - 1 ==>
      BytesLen(r.offset, len) == if BitInByte(r.offset + len) == 0 || len == 0 then |r.bytes| - 1 else |r.bytes|
  {
    Spans(r.offset, len);
    Spans(r.offset, r.length);
    assert BytesLen(r.offset, len) <= |r.bytes|;
    var s := Raw(r.offset, len, r.bytes[..BytesLen(r.offset, len)]);
    forall i | 0 <= i < len
      ensures s.View().bits[i] == r.View().bits[..len][i]
    {
      ViewAt(s, i);
      ViewAt(r, i);
    }
  }

  lemma Changed(r: Raw, s: Raw, bit: bool)
    requires r.Valid() && |r.bytes| == BytesLen(r.offset, r.length) && 0 < r.length
    requires s == Raw(r.offset, r.length,
      r.bytes[|r.bytes| - 1 := r.bytes[|r.bytes| - 1][BitInByte(r.offset + r.length - 1) := bit]])
    ensures s.Valid() && s.View() == Slice(r.offset, r.View().bits[r.length - 1 := bit])
  {
    Spans(r.offset, r.length);
    var last := r.offset + r.length - 1;
    assert last / 8 == |r.bytes| - 1;
    forall i | 0 <= i < s.length
      ensures s.View().bits[i] == r.View().bits[r.length - 1 := bit][i]
    {
      ViewAt(s, i);
      ViewAt(r, i);
      BitOfChanged(r.bytes, last, bit, r.offset + i);
    }
  }

  /** Where slices meet inside a byte, that byte is made of parts of both. */
  function Mixed(front: seq<Octet>, back: seq<Octet>, at: nat): seq<Octet>
    requires front != [] && back != [] && at <= 8
  {
    front[..|front| - 1] + [front[|front| - 1][..at] + back[0][at..]] + back[1..]
  }

  lemma MixedBit(front: seq<Octet>, back: seq<Octet>, at: nat, i: nat)
    requires front != [] && back != [] && at <= 8 && i < 8 * (|front| - 1 + |back|)
    ensures BitOf(Mixed(front, back, at), i) ==
            var end := 8 * (|front| - 1);
            if i < end + at then BitOf(front, i) else BitOf(back, i - end)
  {
    var n := |front| - 1;
    var mid: Octet := front[n][..at] + back[0][at..];
    var tail: seq<Octet> := [mid] + back[1..];
    assert Mixed(front, back, at) == front[..n] + tail;
    BitOfConcat(front[..n], tail, i);
    if i >= 8 * n {
      var j := i - 8 * n;
      BitOfConcat([mid], back[1..], j);
      BitOfConcat([back[0]], back[1..], j);
      assert back == [back[0]] + back[1..];
      assert i / 8 == n ==> i % 8 == j;
    }
  }

  lemma Joined(r: Raw, suffix: Raw, s: Raw)
    requires r.Valid() && suffix.Valid() && |r.bytes| == BytesLen(r.offset, r.length)
    requires BitInByte(r.offset + r.length) == suffix.offset && r.length + suffix.length <= MAX_SLICE_LENGTH
    requires var more := suffix.Bytes();
      s == Raw(r.offset, r.length + suffix.length,
               if r.bytes != [] && more != [] && suffix.offset != 0 then Mixed(r.bytes, more, suffix.offset)
               else r.bytes + more)
    ensures s.Valid() && |s.bytes| == BytesLen(s.offset, s.length)
    ensures s.View() == Slice(r.offset, r.View().bits + suffix.View().bits)
  {
    hide BytesLen;
    hide BitOf;
    hide Raw.View;
    JoinedLen(r, suffix);
    Lengths(r);
    Lengths(suffix);
    Lengths(s);
    forall i | 0 <= i < s.length
      ensures s.View().bits[i] == (r.View().bits + suffix.View().bits)[i]
    {
      JoinedBit(r, suffix, s, i);
    }
  }

  lemma JoinedBit(r: Raw, suffix: Raw, s: Raw, i: nat)
    requires r.Valid() && suffix.Valid() && |r.bytes| == BytesLen(r.offset, r.length)
    requires BitInByte(r.offset + r.length) == suffix.offset && s.Valid()
    requires s.offset == r.offset && i < s.length == r.length + suffix.length
    requires var more := suffix.Bytes();
      s.bytes == if r.bytes != [] && more != [] && suffix.offset != 0 then Mixed(r.bytes, more, suffix.offset)
                 else r.bytes + more
    ensures s.View().bits[i] == if i < r.length then r.View().bits[i] else suffix.View().bits[i - r.length]
  {
    hide BytesLen;
    hide BitOf;
    hide Mixed;
    hide Raw.View;
    JoinedLen(r, suffix);
    var more := suffix.Bytes();
    ViewAt(s, i);
    if r.bytes != [] && more != [] && suffix.offset != 0 {
      MixedSize(r.bytes, more, suffix.offset);
      MixedBit(r.bytes, more, suffix.offset, r.offset + i);
    } else {
      BitOfConcat(r.bytes, more, r.offset + i);
    }
    if i < r.length {
      ViewAt(r, i);
    } else {
      ViewAt(suffix, i - r.length);
    }
  }

  lemma MixedSize(front: seq<Octet>, back: seq<Octet>, at: nat)
    requires front != [] && back != [] && at <= 8
    ensures |Mixed(front, back, at)| == |front| - 1 + |back|
  {
  }

  lemma JoinedLen(r: Raw, suffix: Raw)
    requires r.Valid() && suffix.Valid() && |r.bytes| == BytesLen(r.offset, r.length)
    requires BitInByte(r.offset + r.length) == suffix.offset
    ensures var (m, n) := (|r.bytes|, |suffix.Bytes()|);
      && BytesLen(r.offset, r.length + suffix.length) == (if m > 0 && n > 0 && suffix.offset != 0 then m + n - 1 else m + n)
      && (m > 0 && n > 0 && suffix.offset != 0 ==> r.offset + r.length == 8 * (m - 1) + suffix.offset)
      && (m > 0 && suffix.offset == 0 ==> r.offset + r.length == 8 * m)
      && (m == 0 ==> r.length == 0 && r.offset == suffix.offset)
      && (n == 0 ==> suffix.length == 0)
  {
    Spans(r.offset, r.length);
    Spans(suffix.offset, suffix.length);
  }

  /** The first byte once a bit has been put in front of a slice that starts behind it in the same byte. */
  function Shifted(octet: Octet, at: nat, bit: bool): Octet {
    seq(8, i requires 0 <= i < 8 => if i < at then false else if i == at then bit else octet[i])
  }

  /** Puts a bit in front of a slice; `None` when the result would be too long. */
  function PrependBit(bit: bool, suffix: Raw): Option<Raw>
    requires suffix.Valid()
  {
    if suffix.length + 1 > MAX_SLICE_LENGTH then None
    else
      var off := BitInByte(suffix.offset + 7);
      var bytes := suffix.Bytes();
      Some(Raw(off, suffix.length + 1,
        if bytes == [] then [seq(8, i => bit)]
        else if off == 7 then [NewOctet(7, bit)] + bytes
        else bytes[0 := Shifted(bytes[0], off, bit)]))
  }

  lemma PrependBitView(bit: bool, suffix: Raw)
    requires suffix.Valid()
    ensures match PrependBit(bit, suffix)
            case None => ConcatBit(bit, suffix.View()) == None
            case Some(r) => r.Valid() && ConcatBit(bit, suffix.View()) == Some(r.View())
  {
    hide Raw.View;
    hide BytesLen;
    Lengths(suffix);
    if suffix.length + 1 <= MAX_SLICE_LENGTH {
      var r := PrependBit(bit, suffix).value;
      PrependSize(bit, suffix);
      Lengths(r);
      forall i | 0 <= i < r.length
        ensures r.View().bits[i] == ([bit] + suffix.View().bits)[i]
      {
        PrependedBit(bit, suffix, i);
      }
      assert r.View().bits == [bit] + suffix.View().bits;
    }
  }

  lemma PrependSize(bit: bool, suffix: Raw)
    requires suffix.Valid() && suffix.length + 1 <= MAX_SLICE_LENGTH
    ensures PrependBit(bit, suffix).value.Valid()
    ensures var r := PrependBit(bit, suffix).value;
      |r.bytes| == BytesLen(r.offset, r.length) && r.length == suffix.length + 1
      && r.offset == BitInByte(suffix.offset + 7)
      && (r.offset < 7 ==> suffix.offset == r.offset + 1) && (r.offset == 7 ==> suffix.offset == 0)
  {
    Spans(suffix.offset, suffix.length);
    Spans(BitInByte(suffix.offset + 7), suffix.length + 1);
  }

  lemma PrependedBit(bit: bool, suffix: Raw, i: nat)
    requires suffix.Valid() && suffix.length + 1 <= MAX_SLICE_LENGTH && i <= suffix.length
    requires PrependBit(bit, suffix).value.Valid()
    ensures PrependBit(bit, suffix).value.View().bits[i] == if i == 0 then bit else suffix.View().bits[i - 1]
  {
    hide Raw.View;
    hide BytesLen;
    PrependSize(bit, suffix);
    var r := PrependBit(bit, suffix).value;
    var bytes := suffix.Bytes();
    ViewAt(r, i);
    if i > 0 {
      ViewAt(suffix, i - 1);
    }
    if bytes != [] && r.offset == 7 {
      BitOfConcat([NewOctet(7, bit)], bytes, 7 + i);
    }
  }

  // ----- chunks from both ends

  /** The chunks in order, taken from the front. */
  function FrontChunks(key: Slice): seq<Slice>
    requires key.offset < 8
    decreases |key.bits|
  {
    if key.bits == [] then []
    else [key.Take(key.FirstChunkLen())] + FrontChunks(key.Drop(key.FirstChunkLen()))
  }

  /** The last chunk of a slice and the slice without it.  The bytes are cut in chunks of 34; a last chunk behind
      others starts with its first byte and leaves out the bits of its last byte that are not in the slice. */
  function NextBack(r: Raw): (Raw, Raw)
    requires r.Valid() && 0 < r.length
  {
    Spans(r.offset, r.length);
    var bytes := r.Bytes();
    var start := (|bytes| - 1) / KEY_SIZE * KEY_SIZE;
    if start == 0 then (r, Raw(0, 0, r.bytes))
    else
      var tail := BitInByte(r.offset + r.length);
      var length := |bytes[start..]| * 8 - BitInByte(8 - tail);
      (Raw(0, length, bytes[start..]), Raw(r.offset, r.length - length, r.bytes))
  }

  /** Runs of 34 bytes are runs of 272 bits. */
  lemma ChunkStarts(offset: nat, length: nat)
    requires offset < 8 && 0 < length
    ensures var (n, end) := (BytesLen(offset, length), offset + length);
      && n - 1 == (end - 1) / 8 && (n - 1) / KEY_SIZE == (end - 1) / MAX_EXTENSION_KEY_BITS
      && 8 * n - BitInByte(8 - BitInByte(end)) == end
      && ((end - 1) / MAX_EXTENSION_KEY_BITS == 0 <==> end <= MAX_EXTENSION_KEY_BITS)
  {
  }

  lemma NextBackSize(r: Raw)
    requires r.Valid() && 0 < r.length && r.View().offset == r.offset && |r.View().bits| == r.length
    ensures var (n, (chunk, rest)) := (LastChunkStart(r.View()), NextBack(r));
      && chunk.Valid() && rest.Valid() && rest.length == n < r.length && chunk.length == r.length - n
      && (n == 0 ==> chunk == r)
      && (0 < n ==>
            && chunk.offset == BitInByte(r.offset + n) == 0 && (r.offset + n) % 8 == 0
            && chunk.bytes == r.Bytes()[(r.offset + n) / 8..] && rest == Raw(r.offset, n, r.bytes))
  {
    hide Raw.View;
    hide BytesLen;
    hide BitInByte;
    hide LastChunkStart;
    hide NextBack;
    var whole := (r.offset + r.length - 1) / MAX_EXTENSION_KEY_BITS;
    LastStart(r.View());
    if whole > 0 {
      NextBackCut(r, whole);
    } else {
      NextBackOnly(r);
    }
  }

  lemma LastStart(key: Slice)
    requires key.offset < 8 && key.bits != []
    ensures var whole := (key.offset + |key.bits| - 1) / MAX_EXTENSION_KEY_BITS;
      LastChunkStart(key) == if whole == 0 then 0 else whole * MAX_EXTENSION_KEY_BITS - key.offset
  {
  }

  lemma NextBackOnly(r: Raw)
    requires r.Valid() && 0 < r.length && (r.offset + r.length - 1) / MAX_EXTENSION_KEY_BITS == 0
    ensures NextBack(r) == (r, Raw(0, 0, r.bytes)) && Raw(0, 0, r.bytes).Valid()
  {
    ChunkStarts(r.offset, r.length);
  }

  lemma NextBackCut(r: Raw, whole: nat)
    requires r.Valid() && 0 < r.length
    requires 0 < whole == (r.offset + r.length - 1) / MAX_EXTENSION_KEY_BITS
    ensures var (n, (chunk, rest)) := (whole * MAX_EXTENSION_KEY_BITS - r.offset, NextBack(r));
      && 0 < n < r.length && chunk == Raw(0, r.length - n, r.Bytes()[whole * KEY_SIZE..])
      && BytesLen(0, r.length - n) == BytesLen(r.offset, r.length) - whole * KEY_SIZE
      && rest == Raw(r.offset, n, r.bytes) && BytesLen(r.offset, n) == whole * KEY_SIZE
      && (r.offset + n) / 8 == whole * KEY_SIZE && BitInByte(r.offset + n) == (r.offset + n) % 8 == 0
  {
    hide Raw.View;
    ChunkStarts(r.offset, r.length);
  }

  /** Cutting by bytes is cutting off the last chunk. */
  lemma {:induction false} NextBackViews(r: Raw)
    requires r.Valid() && 0 < r.length
    ensures var (n, (chunk, rest)) := (LastChunkStart(r.View()), NextBack(r));
      && chunk.Valid() && rest.Valid() && rest.length < r.length
      && chunk.View() == r.View().Drop(n) && rest.View().bits == r.View().Take(n).bits
      && (n != 0 ==> rest.View() == r.View().Take(n))
  {
    hide Raw.View;
    hide BytesLen;
    hide BitOf;
    hide LastChunkStart;
    hide NextBack;
    Lengths(r);
    var (n, (chunk, rest)) := (LastChunkStart(r.View()), NextBack(r));
    NextBackSize(r);
    Lengths(chunk);
    Lengths(rest);
    if n > 0 {
      SplitViews(r, n);
      var k := (r.offset + n) / 8;
      forall i | 0 <= i < chunk.length
        ensures chunk.View().bits[i] == r.View().bits[n..][i]
      {
        ViewAt(chunk, i);
        ViewAt(r, n + i);
        BitOfDropped(r.Bytes(), k, i);
      }
    } else {
      DropZero(r.View());
    }
  }

  /** The chunks as they come from the back. */
  function BackChunks(r: Raw): seq<Slice>
    requires r.Valid()
    decreases r.length
  {
    if r.length == 0 then []
    else
      NextBackViews(r);
      [NextBack(r).0.View()] + BackChunks(NextBack(r).1)
  }

  function Joint(chunks: seq<Slice>): seq<bool> {
    if chunks == [] then [] else chunks[0].bits + Joint(chunks[1..])
  }

  /** Every chunk is an Extension key and together they make up the slice. */
  lemma {:induction false} ChunksMakeUp(key: Slice)
    requires key.offset < 8
    ensures Joint(FrontChunks(key)) == key.bits
    ensures forall i | 0 <= i < |FrontChunks(key)| :: FrontChunks(key)[i].IsExtKey()
    ensures |FrontChunks(key)| == DelSpec.Chunks(key)
    decreases |key.bits|
  {
    if key.bits != [] {
      var n := key.FirstChunkLen();
      ChunksMakeUp(key.Drop(n));
      assert key.bits == key.bits[..n] + key.bits[n..];
    }
  }

  /** Taking chunks from the back gives those from the front in reverse. */
  lemma {:induction false} BackIsReverse(r: Raw)
    requires r.Valid()
    ensures BackChunks(r) == Trie.Reversed(FrontChunks(r.View()))
    decreases r.length
  {
    hide BitInByte;
    hide NextBack;
    hide Raw.View;
    Lengths(r);
    if r.length > 0 {
      var key := r.View();
      NextBackViews(r);
      LastOfFront(key);
      var n := LastChunkStart(key);
      BackIsReverse(NextBack(r).1);
      Trie.ReversedAppend(FrontChunks(key.Take(n)), key.Drop(n));
    }
  }

  lemma {:induction false} LastOfFront(key: Slice)
    requires key.offset < 8 && key.bits != []
    ensures FrontChunks(key) == FrontChunks(key.Take(LastChunkStart(key))) + [key.Drop(LastChunkStart(key))]
    decreases |key.bits|
  {
    hide BitInByte;
    DropZero(key);
    if key.offset + |key.bits| > MAX_EXTENSION_KEY_BITS {
      LastChunkBehindFirst(key);
      var n := LastChunkStart(key);
      var first := key.FirstChunkLen();
      LastOfFront(key.Drop(first));
      DropTwice(key, first, n);
      DropTake(key, first, n);
      assert key.Take(n).FirstChunkLen() == first;
    }
  }
}
