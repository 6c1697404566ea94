/** Bit slices as the trie sees them: a bit offset within the first byte plus the bits themselves.
    Two slices with different offsets are different even when their bits agree. */
module Bits {
  import opened Wrappers

  // Largest number of bits, counted from the start of the first byte, an Extension key may span.
  const MAX_EXTENSION_KEY_BITS: nat := 34 * 8

  // Slice lengths are kept in sixteen bits.
  const MAX_SLICE_LENGTH: nat := 65535

  /** Position of bit `n` within its byte. */
  function BitInByte(n: nat): (b: nat)
    ensures b < 8 && b <= n
  {
    n % 8
  }

  lemma BitInByteAdd(d: nat, n: nat)
    ensures BitInByte(BitInByte(d) + n) == BitInByte(d + n)
  {
  }

  datatype Slice = Slice(offset: nat, bits: seq<bool>) {

    predicate Valid() {
      offset < 8 && |bits| <= MAX_SLICE_LENGTH
    }

    predicate IsEmpty() { bits == [] }

    function Len(): nat { |bits| }

    function Take(n: nat): Slice
      requires n <= |bits|
    {
      Slice(offset, bits[..n])
    }

    function Drop(n: nat): (r: Slice)
      requires n <= |bits|
      ensures |r.bits| == |bits| - n && r.offset < 8
    {
      Slice(BitInByte(offset + n), bits[n..])
    }

    predicate StartsWith(prefix: Slice) {
      offset == prefix.offset && prefix.bits <= bits
    }

    /** A slice usable as the key of one Extension node. */
    predicate IsExtKey() {
      offset < 8 && 0 < |bits| && offset + |bits| <= MAX_EXTENSION_KEY_BITS
    }

    /** Length of the first chunk when the slice is cut into Extension keys. */
    function FirstChunkLen(): (n: nat)
      requires offset < 8
      ensures n <= |bits|
      ensures bits != [] ==> 0 < n
    {
      if MAX_EXTENSION_KEY_BITS - offset <= |bits| then MAX_EXTENSION_KEY_BITS - offset else |bits|
    }
  }

  lemma DropZero(s: Slice)
    requires s.offset < 8
    ensures s.Drop(0) == s && s.Take(|s.bits|) == s
  {
  }

  lemma DropTwice(s: Slice, n: nat, m: nat)
    requires n <= m <= |s.bits|
    ensures s.Drop(n).Drop(m - n) == s.Drop(m)
  {
    BitInByteAdd(s.offset + n, m - n);
    assert s.bits[n..][m - n..] == s.bits[m..];
  }

  lemma DropTake(s: Slice, n: nat, m: nat)
    requires n <= m <= |s.bits|
    ensures s.Drop(n).Take(m - n) == s.Take(m).Drop(n)
    ensures s.Take(m).Take(n) == s.Take(n)
  {
    assert s.bits[n..][..m - n] == s.bits[..m][n..];
    assert s.bits[..m][..n] == s.bits[..n];
  }

  function Zeros(n: nat): (z: seq<bool>)
    ensures |z| == n && forall i | 0 <= i < n :: !z[i]
  {
    seq(n, _ => false)
  }

  /** The bit slice of a whole byte key; keys above 8191 bytes are refused. */
  function FromBits(key: seq<bool>): Option<Slice> {
    if |key| <= MAX_SLICE_LENGTH then Some(Slice(0, key)) else None
  }

  function CommonPrefixLen(a: seq<bool>, b: seq<bool>): (n: nat)
    ensures n <= |a| && n <= |b| && a[..n] == b[..n]
    ensures n < |a| && n < |b| ==> a[n] != b[n]
  {
    if a == [] || b == [] || a[0] != b[0] then 0
    else
      var m := CommonPrefixLen(a[1..], b[1..]);
      assert a[..1 + m] == [a[0]] + a[1..][..m];
      assert b[..1 + m] == [b[0]] + b[1..][..m];
      1 + m
  }

  lemma {:induction false} PrefixLenIs(a: seq<bool>, b: seq<bool>, n: nat)
    requires n <= |a| && n <= |b| && a[..n] == b[..n]
    requires n < |a| && n < |b| ==> a[n] != b[n]
    ensures CommonPrefixLen(a, b) == n
  {
    if n > 0 {
      assert a[0] == a[..n][0] && b[0] == b[..n][0];
      assert a[1..][..n - 1] == a[..n][1..] && b[1..][..n - 1] == b[..n][1..];
      PrefixLenIs(a[1..], b[1..], n - 1);
    }
  }

  lemma ConcatPrefix(a: seq<bool>, b: seq<bool>, k: seq<bool>)
    ensures a + b <= k <==> a <= k && b <= k[|a|..]
    ensures a + b <= k ==> k[|a|..][|b|..] == k[|a + b|..]
  {
    if a <= k {
      assert k == a + k[|a|..];
    }
    if a + b <= k {
      assert a == (a + b)[..|a|];
    }
  }

  /** Number of leading bits two slices share; slices with different offsets share none. */
  function MatchLen(a: Slice, b: Slice): (n: nat)
    ensures n <= |a.bits| && n <= |b.bits| && a.bits[..n] == b.bits[..n]
    ensures a.offset == b.offset && n < |a.bits| && n < |b.bits| ==> a.bits[n] != b.bits[n]
  {
    if a.offset == b.offset then CommonPrefixLen(a.bits, b.bits) else 0
  }

  /** Prepends a bit; `None` when the result would be too long. */
  function ConcatBit(bit: bool, suffix: Slice): Option<Slice> {
    if |suffix.bits| + 1 <= MAX_SLICE_LENGTH then
      Some(Slice(BitInByte(suffix.offset + 7), [bit] + suffix.bits))
    else None
  }

  /** Concatenates two slices; `None` when they do not meet at the same bit offset or are too long. */
  function Concat(prefix: Slice, suffix: Slice): Option<Slice> {
    if BitInByte(prefix.offset + |prefix.bits|) == suffix.offset &&
       |prefix.bits| + |suffix.bits| <= MAX_SLICE_LENGTH
    then Some(Slice(prefix.offset, prefix.bits + suffix.bits))
    else None
  }
}
