/** Bytes, the C integer conversions the sources rely on, and the 16-bit
    little-endian fields that the page header and the slots are made of. */
module Bytes {

  newtype byte = x: int | 0 <= x < 0x100

  type u16 = x: int | 0 <= x < 0x1_0000

  /** Conversion to uint16_t: the value modulo 2^16. */
  function ToU16(x: int): (r: u16)
    ensures 0 <= x < 0x1_0000 ==> r == x
  {
    x % 0x1_0000
  }

  /** Conversion to uint32_t: the value modulo 2^32. */
  function ToU32(x: int): (r: nat)
    ensures r < 0x1_0000_0000
    ensures 0 <= x < 0x1_0000_0000 ==> r == x
  {
    x % 0x1_0000_0000
  }

  /** The usual (two's complement) conversion of a uint32_t to a 32-bit int. */
  function ToI32(x: nat): (r: int)
    requires x < 0x1_0000_0000
    ensures r < 0 <==> 0x8000_0000 <= x
    ensures 0 <= r ==> r == x
  {
    if x < 0x8000_0000 then x else x - 0x1_0000_0000
  }

  /** s with the elements from index at on replaced by r. */
  function Splice<T>(s: seq<T>, at: nat, r: seq<T>): (t: seq<T>)
    requires at + |r| <= |s|
    ensures |t| == |s|
    ensures forall k :: 0 <= k < |s| ==> t[k] == if at <= k < at + |r| then r[k - at] else s[k]
  {
    s[..at] + r + s[at + |r|..]
  }

  /** What a splice leaves and what it puts in, read back as slices of the
      first n elements. */
  lemma SpliceSlices<T>(s: seq<T>, at: nat, r: seq<T>, n: nat, lo: nat, hi: nat)
    requires at + |r| <= n <= |s| && lo <= hi <= n
    ensures Splice(s, at, r)[..n][at..at + |r|] == r
    ensures hi <= at ==> Splice(s, at, r)[..n][lo..hi] == s[lo..hi]
  {
    var t := Splice(s, at, r)[..n];
    assert forall k :: 0 <= k < |r| ==> t[at..at + |r|][k] == t[at + k] == r[k];
    if hi <= at {
      assert forall k :: 0 <= k < hi - lo ==> t[lo..hi][k] == t[lo + k] == s[lo + k];
    }
  }

  function GetU16(s: seq<byte>, at: nat): (v: u16)
    requires at + 2 <= |s|
  {
    s[at] as int + 0x100 * (s[at + 1] as int)
  }

  function LowByte(v: u16): byte { (v % 0x100) as byte }

  function HighByte(v: u16): byte { (v / 0x100) as byte }

  /** A store to the 16-bit field at index at; every other byte, and so every
      other field, keeps its value. */
  function SetU16(s: seq<byte>, at: nat, v: u16): (t: seq<byte>)
    requires at + 2 <= |s|
    ensures |t| == |s|
    ensures GetU16(t, at) == v
    ensures forall k :: 0 <= k < |s| && k != at && k != at + 1 ==> t[k] == s[k]
    ensures forall p: nat :: p + 2 <= |s| && (p + 2 <= at || at + 2 <= p) ==> GetU16(t, p) == GetU16(s, p)
  {
    s[at := LowByte(v)][at + 1 := HighByte(v)]
  }

  /** A field's value determines its two bytes. */
  lemma U16Injective(s: seq<byte>, t: seq<byte>, at: nat)
    requires at + 2 <= |s| && at + 2 <= |t|
    requires GetU16(s, at) == GetU16(t, at)
    ensures s[at] == t[at] && s[at + 1] == t[at + 1]
  {
  }

  /** memmove, as section 7.24.2.2 of ISO C11 describes it: the n bytes are
      first copied into a temporary array and then to the destination, so the
      two ranges may overlap. */
  method MemMove(a: array<byte>, dst: nat, src: nat, n: nat)
    requires dst + n <= a.Length && src + n <= a.Length
    modifies a
    ensures a[..] == Splice(old(a[..]), dst, old(a[src..src + n]))
  {
    var temp := a[src..src + n];
    CopyIn(a, dst, temp);
  }

  /** memcpy of the bytes r to a + dst. */
  method CopyIn(a: array<byte>, dst: nat, r: seq<byte>)
    requires dst + |r| <= a.Length
    modifies a
    ensures a[..] == Splice(old(a[..]), dst, r)
  {
    for i := 0 to |r|
      invariant forall k :: 0 <= k < a.Length ==>
        a[k] == if dst <= k < dst + i then r[k - dst] else old(a[k])
    {
      a[dst + i] := r[i];
    }
  }

  method StoreU16(a: array<byte>, at: nat, v: u16)
    requires at + 2 <= a.Length
    modifies a
    ensures a[..] == SetU16(old(a[..]), at, v)
  {
    a[at] := LowByte(v);
    a[at + 1] := HighByte(v);
  }
}
