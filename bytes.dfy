/** Byte-level helpers: little- and big-endian integers as packed by
    Python's `struct` module, and Python's total slicing of byte strings. */
module Bytes {

  type Byte = b: int | 0 <= b < 256

  const Two31: int := 0x8000_0000
  const Two32: int := 0x1_0000_0000

  function Pow256(n: nat): (r: nat)
    ensures r > 0
  {
    if n == 0 then 1 else 256 * Pow256(n - 1)
  }

  /** Python's `'<i'` range. */
  predicate IsInt32(v: int) { -Two31 <= v < Two31 }

  /** Python's `'<I'` range. */
  predicate IsUint32(v: int) { 0 <= v < Two32 }

  /** The n least significant bytes of v, least significant first. */
  function PackLE(v: nat, n: nat): (r: seq<Byte>)
    requires v < Pow256(n)
    ensures |r| == n
  {
    if n == 0 then [] else [v % 256] + PackLE(v / 256, n - 1)
  }

  /** The unsigned value of s read least significant byte first. */
  function UnpackLE(s: seq<Byte>): (r: nat)
    ensures r < Pow256(|s|)
  {
    if s == [] then 0 else s[0] + 256 * UnpackLE(s[1..])
  }

  /** The unsigned value of s read most significant byte first. */
  function UnpackBE(s: seq<Byte>): (r: nat)
    ensures r < Pow256(|s|)
  {
    if s == [] then 0 else 256 * UnpackBE(s[..|s| - 1]) + s[|s| - 1]
  }

  lemma {:induction false} UnpackPackLE(v: nat, n: nat)
    requires v < Pow256(n)
    ensures UnpackLE(PackLE(v, n)) == v
  {
    if n > 0 {
      var s := PackLE(v, n);
      assert s[1..] == PackLE(v / 256, n - 1);
      UnpackPackLE(v / 256, n - 1);
    }
  }

  /** Two's complement reinterpretation of an unsigned 32-bit value. */
  function ToSigned32(u: nat): (r: int)
    requires u < Two32
    ensures IsInt32(r) && (r == u || r == u - Two32)
  {
    if u >= Two31 then u - Two32 else u
  }

  /** `struct.pack('<i', v)`. */
  function PackI32LE(v: int): (r: seq<Byte>)
    requires IsInt32(v)
    ensures |r| == 4
  {
    assert Pow256(4) == Two32;
    PackLE(if v < 0 then v + Two32 else v, 4)
  }

  /** `struct.pack('<I', v)`. */
  function PackU32LE(v: int): (r: seq<Byte>)
    requires IsUint32(v)
    ensures |r| == 4
  {
    assert Pow256(4) == Two32;
    PackLE(v, 4)
  }

  /** `struct.pack('<H', v)`. */
  function PackU16LE(v: int): (r: seq<Byte>)
    requires 0 <= v < 0x1_0000
    ensures |r| == 2
  {
    assert Pow256(2) == 0x1_0000;
    PackLE(v, 2)
  }

  /** `struct.unpack('<i', s)`. */
  function UnpackI32LE(s: seq<Byte>): (r: int)
    requires |s| == 4
    ensures IsInt32(r)
  {
    assert Pow256(4) == Two32;
    ToSigned32(UnpackLE(s))
  }

  /** `struct.unpack('>i', s)`. */
  function UnpackI32BE(s: seq<Byte>): (r: int)
    requires |s| == 4
    ensures IsInt32(r)
  {
    assert Pow256(4) == Two32;
    ToSigned32(UnpackBE(s))
  }

  lemma I32LERoundTrip(v: int)
    requires IsInt32(v)
    ensures UnpackI32LE(PackI32LE(v)) == v
  {
    assert Pow256(4) == Two32;
    UnpackPackLE(if v < 0 then v + Two32 else v, 4);
  }

  lemma U32LERoundTrip(v: int)
    requires IsUint32(v)
    ensures UnpackLE(PackU32LE(v)) == v
  {
    assert Pow256(4) == Two32;
    UnpackPackLE(v, 4);
  }

  lemma U16LERoundTrip(v: int)
    requires 0 <= v < 0x1_0000
    ensures UnpackLE(PackU16LE(v)) == v
  {
    assert Pow256(2) == 0x1_0000;
    UnpackPackLE(v, 2);
  }

  /** Where Python puts a slice bound i on a sequence of length n:
      a negative bound counts from the end, and both ends are clamped. */
  function ClampIndex(i: int, n: nat): (r: nat)
    ensures r <= n
    ensures 0 <= i <= n ==> r == i
  {
    if i < 0 then (if i + n < 0 then 0 else i + n)
    else if i > n then n
    else i
  }

  /** Python's `s[a:b]`: never fails, possibly shorter than b - a. */
  function PySlice<T>(s: seq<T>, a: int, b: int): (r: seq<T>)
    ensures 0 <= a <= b <= |s| ==> r == s[a..b]
    ensures 0 <= a <= |s| <= b ==> r == s[a..]
    ensures a <= b ==> |r| <= b - a
    ensures -|s| <= a <= b < 0 ==> r == s[|s| + a..|s| + b]
    ensures b <= -|s| ==> r == []
  {
    var lo, hi := ClampIndex(a, |s|), ClampIndex(b, |s|);
    if lo < hi then s[lo..hi] else []
  }

  lemma AppendAssoc<T>(a: seq<T>, b: seq<T>, c: seq<T>)
    ensures (a + b) + c == a + (b + c)
  {
  }

  lemma SliceOfConcat<T>(a: seq<T>, b: seq<T>, i: int, j: int)
    requires 0 <= i <= j <= |a| + |b|
    ensures j <= |a| ==> (a + b)[i..j] == a[i..j]
    ensures |a| <= i ==> (a + b)[i..j] == b[i - |a|..j - |a|]
  {
  }

  lemma SliceOfSlice<T>(s: seq<T>, a: int, b: int, i: int, j: int)
    requires 0 <= a <= b <= |s| && 0 <= i <= j <= b - a
    ensures s[a..b][i..j] == s[a + i..a + j]
  {
    var t := s[a..b];
    forall k | 0 <= k < j - i
      ensures t[i..j][k] == s[a + i..a + j][k]
    {
      assert t[i..j][k] == t[i + k] == s[a + i + k];
    }
  }
}
