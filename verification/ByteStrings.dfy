/** Byte strings as Python sees them: little-endian packing, slices that clamp,
    and slice assignment that may change the length of the buffer. */
module ByteStrings {

  type Byte = b: int | 0 <= b < 256
  type Bytes = seq<Byte>

  datatype Option<+T> = None | Some(value: T)

  function Min(a: int, b: int): int { if a < b then a else b }

  function Max(a: int, b: int): int { if a < b then b else a }

  /** How many blocks of `unit` cover `n`. */
  function CeilDiv(n: nat, unit: nat): (r: nat)
    requires unit > 0
    ensures n <= r * unit < n + unit
  {
    var q := (n + unit - 1) / unit;
    assert q * unit == n + unit - 1 - (n + unit - 1) % unit;
    q
  }

  function Zeros(n: nat): (r: Bytes)
    ensures |r| == n && forall i :: 0 <= i < n ==> r[i] == 0
  {
    seq(n, _ => 0)
  }

  // ---- struct.pack / struct.unpack_from ----

  function Le16(x: int): (r: Bytes)
    requires 0 <= x < 0x1_0000
    ensures |r| == 2
  {
    [x % 256, x / 256]
  }

  function Le32(x: int): (r: Bytes)
    requires 0 <= x < 0x1_0000_0000
    ensures |r| == 4
  {
    [x % 256, x / 0x100 % 256, x / 0x1_0000 % 256, x / 0x100_0000]
  }

  function U16(b: Bytes, i: nat): (r: int)
    requires i + 2 <= |b|
    ensures 0 <= r < 0x1_0000
  {
    b[i] as int + 256 * b[i + 1] as int
  }

  function U32(b: Bytes, i: nat): (r: int)
    requires i + 4 <= |b|
    ensures 0 <= r < 0x1_0000_0000
  {
    b[i] as int + 0x100 * b[i + 1] as int + 0x1_0000 * b[i + 2] as int + 0x100_0000 * b[i + 3] as int
  }

  lemma U16OfLe16(x: int, b: Bytes, i: nat)
    requires 0 <= x < 0x1_0000
    requires i + 2 <= |b| && b[i..i + 2] == Le16(x)
    ensures U16(b, i) == x
  {
    assert b[i] == b[i..i + 2][0] && b[i + 1] == b[i..i + 2][1];
  }

  lemma U32OfLe32(x: int, b: Bytes, i: nat)
    requires 0 <= x < 0x1_0000_0000
    requires i + 4 <= |b| && b[i..i + 4] == Le32(x)
    ensures U32(b, i) == x
  {
    var s := b[i..i + 4];
    assert b[i] == s[0] && b[i + 1] == s[1] && b[i + 2] == s[2] && b[i + 3] == s[3];
    assert x / 0x1_0000 == x / 0x100 / 256 && x / 0x100_0000 == x / 0x1_0000 / 256;
  }

  // ---- Python slices ----

  /** The position a slice bound denotes: negative bounds count from the end,
      and everything is clamped to the buffer. */
  function Bound(i: int, len: nat): (r: nat)
    ensures r <= len
    ensures 0 <= i <= len ==> r == i
  {
    if i < 0 then Max(0, i + len) else Min(i, len)
  }

  /** `b[lo:hi]` */
  function Slice(b: Bytes, lo: int, hi: int): (r: Bytes)
    ensures 0 <= lo <= hi <= |b| ==> r == b[lo..hi]
  {
    var l, h := Bound(lo, |b|), Bound(hi, |b|);
    if l <= h then b[l..h] else []
  }

  /** `b[lo:hi] = x`, for bounds that are not negative. */
  function Splice(b: Bytes, lo: nat, hi: nat, x: Bytes): (r: Bytes)
    requires lo <= hi
    ensures lo <= |b| ==> lo + |x| <= |r| && r[..lo] == b[..lo] && r[lo..lo + |x|] == x
    ensures hi <= |b| ==> |r| == |b| - (hi - lo) + |x| && r[lo + |x|..] == b[hi..]
  {
    b[..Min(lo, |b|)] + x + b[Min(hi, |b|)..]
  }

  /** A slice whose bounds run past the end, or count from it. */
  lemma SliceClamps(b: Bytes, lo: int, hi: int)
    ensures 0 <= lo <= |b| <= hi ==> Slice(b, lo, hi) == b[lo..]
    ensures lo >= |b| || (lo >= 0 && hi >= 0 && lo >= hi) ==> Slice(b, lo, hi) == []
    ensures -|b| <= lo < 0 && hi >= |b| ==> Slice(b, lo, hi) == b[|b| + lo..]
    ensures -|b| <= lo <= hi < 0 ==> Slice(b, lo, hi) == b[|b| + lo..|b| + hi]
    ensures lo < -|b| && 0 <= hi <= |b| ==> Slice(b, lo, hi) == b[..hi]
    ensures lo < -|b| && hi >= |b| ==> Slice(b, lo, hi) == b
    ensures lo <= hi <= -|b| ==> Slice(b, lo, hi) == []
  {}

  /** A slice assignment inside the buffer replaces that part; one that runs past the end
      replaces the tail; one that starts past it appends. */
  lemma SpliceCases(b: Bytes, lo: nat, hi: nat, x: Bytes)
    requires lo <= hi
    ensures hi <= |b| ==> Splice(b, lo, hi, x) == b[..lo] + x + b[hi..]
    ensures lo <= |b| <= hi ==> Splice(b, lo, hi, x) == b[..lo] + x
    ensures |b| <= lo ==> Splice(b, lo, hi, x) == b + x
  {
    if |b| <= hi { assert b[..Min(lo, |b|)] + x + [] == b[..Min(lo, |b|)] + x; }
    assert b[..|b|] == b && b[|b|..] == [];
  }

  /** A slice that runs past the end still begins with the bytes that are there. */
  lemma SlicePrefix(b: Bytes, lo: nat, hi: nat, m: nat)
    requires lo + m <= |b| && lo + m <= hi
    ensures m <= |Slice(b, lo, hi)| && Slice(b, lo, hi)[..m] == b[lo..lo + m]
  {
    var s := Slice(b, lo, hi);
    forall k | 0 <= k < m
      ensures s[k] == b[lo + k]
    {
    }
  }

  lemma SubSlice(data: Bytes, bytes: Bytes, lo: nat, hi: nat, i: nat, j: nat)
    requires lo <= hi <= |bytes| && hi - lo <= |data| && data[..hi - lo] == bytes[lo..hi] && i <= j <= hi - lo
    ensures data[i..j] == bytes[lo + i..lo + j]
  {
    forall k | i <= k < j
      ensures data[k] == bytes[lo + k]
    {
      assert data[k] == data[..hi - lo][k] == bytes[lo..hi][k];
    }
  }

  lemma SamePart(a: Bytes, b: Bytes, n: nat, i: nat, j: nat)
    requires i <= j <= n && n <= |a| && n <= |b| && a[..n] == b[..n]
    ensures a[i..j] == b[i..j]
  {
    forall k | i <= k < j
      ensures a[k] == b[k]
    {
      assert a[k] == a[..n][k] == b[..n][k];
    }
  }

  lemma SameTail(a: Bytes, b: Bytes, n: nat, i: nat, j: nat)
    requires n <= i <= j <= |a| == |b| && a[n..] == b[n..]
    ensures a[i..j] == b[i..j]
  {
    forall k | i <= k < j
      ensures a[k] == b[k]
    {
      assert a[k] == a[n..][k - n] == b[n..][k - n];
    }
  }
}
