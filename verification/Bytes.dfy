/** Bytes as the C program sees them: fixed-width little-endian integers, NUL-terminated
    strings held in fixed buffers, and decimal numbers as printed by "%d". */
module Bytes {

  type byte = x: int | 0 <= x < 256
  type Bytes = seq<byte>

  datatype Option<+T> = None | Some(value: T)

  const TWO_31 := 0x8000_0000
  const TWO_32 := 0x1_0000_0000
  const TWO_63 := 0x8000_0000_0000_0000
  const TWO_64 := 0x1_0000_0000_0000_0000

  type uint32 = x: int | 0 <= x < TWO_32

  predicate IsInt32(x: int) { -TWO_31 <= x < TWO_31 }
  predicate IsInt64(x: int) { -TWO_63 <= x < TWO_63 }

  function Zeros(n: nat): (z: Bytes)
    ensures |z| == n && forall i :: 0 <= i < n ==> z[i] == 0
  {
    seq(n, _ => 0)
  }

  /** The bytes of a string constant (ASCII; anything else would read as '?'). */
  function Ascii(s: string): (b: Bytes)
    ensures |b| == |s| && 0 !in b
    ensures forall i :: 0 <= i < |s| && 0 < s[i] as int < 128 ==> b[i] == s[i] as int
  {
    seq(|s|, i requires 0 <= i < |s| => if 0 < s[i] as int < 128 then s[i] as int else 63)
  }

  // ----- little-endian integers -------------------------------------------------------

  function Pow256(w: nat): (p: nat)
    ensures p > 0
  {
    if w == 0 then 1 else 256 * Pow256(w - 1)
  }

  function LE(x: nat, w: nat): (b: Bytes)
    ensures |b| == w
  {
    if w == 0 then [] else [x % 256] + LE(x / 256, w - 1)
  }

  function FromLE(b: Bytes): (x: nat)
    ensures x < Pow256(|b|)
  {
    if b == [] then 0 else b[0] + 256 * FromLE(b[1..])
  }

  lemma {:induction false} LERoundTrip(x: nat, w: nat)
    requires x < Pow256(w)
    ensures FromLE(LE(x, w)) == x
  {
    if w > 0 {
      LERoundTrip(x / 256, w - 1);
      assert LE(x, w)[1..] == LE(x / 256, w - 1);
    }
  }

  lemma Widths()
    ensures Pow256(4) == TWO_32 && Pow256(8) == TWO_64
  {
    assert Pow256(2) == 65536;
    assert Pow256(4) == 65536 * 65536;
  }

  /** The four bytes of an int (or unsigned int) in memory; a value outside the type's range
      is reduced to its low 32 bits. */
  function Int32(x: int): (b: Bytes)
    ensures |b| == 4
  {
    LE(x % TWO_32, 4)
  }

  function Int64(x: int): (b: Bytes)
    ensures |b| == 8
  {
    LE(x % TWO_64, 8)
  }

  function ToUint32(b: Bytes): (x: uint32)
    requires |b| == 4
  {
    Widths();
    FromLE(b)
  }

  function ToInt32(b: Bytes): (x: int)
    requires |b| == 4
    ensures IsInt32(x)
  {
    var u := ToUint32(b);
    if u < TWO_31 then u else u - TWO_32
  }

  function ToInt64(b: Bytes): (x: int)
    requires |b| == 8
    ensures IsInt64(x)
  {
    Widths();
    var u := FromLE(b);
    if u < TWO_63 then u else u - TWO_64
  }

  lemma FourBytes(b: Bytes)
    requires |b| >= 4
    ensures FromLE(b) == b[0] + 256 * b[1] + 65536 * b[2] + 16777216 * b[3] + 4294967296 * FromLE(b[4..])
  {
    assert b[1..][1..] == b[2..] && b[2..][1..] == b[3..] && b[3..][1..] == b[4..];
    assert FromLE(b[1..]) == b[1] + 256 * FromLE(b[2..]);
    assert FromLE(b[2..]) == b[2] + 256 * FromLE(b[3..]);
    assert FromLE(b[3..]) == b[3] + 256 * FromLE(b[4..]);
  }

  /** Two's complement, lowest byte first. */
  lemma IntBytes(x: int)
    ensures var b: seq<int> := Int32(x); b[0] + 256 * b[1] + 65536 * b[2] + 16777216 * b[3] == x % 4294967296
    ensures var b: seq<int> := Int64(x);
            && b[0] + 256 * b[1] + 65536 * b[2] + 16777216 * b[3]
               + 4294967296 * (b[4] + 256 * b[5] + 65536 * b[6] + 16777216 * b[7]) == x % 18446744073709551616
  {
    Widths();
    LERoundTrip(x % TWO_32, 4);
    FourBytes(Int32(x));
    LERoundTrip(x % TWO_64, 8);
    FourBytes(Int64(x));
    FourBytes(Int64(x)[4..]);
    hide LE;
    assert Int32(x)[4..] == [] && Int64(x)[4..][4..] == [];
  }

  lemma Int32RoundTrip(x: int)
    ensures 0 <= x < TWO_32 ==> ToUint32(Int32(x)) == x
    ensures IsInt32(x) ==> ToInt32(Int32(x)) == x
  {
    Widths();
    LERoundTrip(x % TWO_32, 4);
  }

  lemma Int64RoundTrip(x: int)
    ensures IsInt64(x) ==> ToInt64(Int64(x)) == x
  {
    Widths();
    LERoundTrip(x % TWO_64, 8);
  }

  // ----- strings in fixed buffers ------------------------------------------------------

  /** What strcmp and strlen see of a buffer: the bytes before the first NUL. */
  function CString(b: Bytes): (s: Bytes)
    ensures |s| <= |b| && s == b[..|s|] && 0 !in s
    ensures |s| < |b| ==> b[|s|] == 0
  {
    if b == [] || b[0] == 0 then [] else [b[0]] + CString(b[1..])
  }

  /** A NUL-free string followed by a NUL reads back as itself, whatever follows. */
  lemma {:induction false} CStringOfTerminated(s: Bytes, rest: Bytes)
    requires 0 !in s
    ensures CString(s + [0] + rest) == s
  {
    if s != [] {
      CStringOfTerminated(s[1..], rest);
      assert (s + [0] + rest)[1..] == s[1..] + [0] + rest;
    } else {
      assert (s + [0] + rest)[0] == 0;
    }
  }

  // ----- decimal numbers ---------------------------------------------------------------

  predicate IsDigit(b: byte) { 48 <= b < 58 }

  function Dec(n: nat): (d: Bytes)
    ensures |d| > 0 && forall i :: 0 <= i < |d| ==> IsDigit(d[i])
  {
    if n < 10 then [48 + n] else Dec(n / 10) + [48 + n % 10]
  }

  /** The number that a row of digits stands for. */
  function Number(d: Bytes): int {
    if d == [] then 0 else 10 * Number(d[..|d| - 1]) + (d[|d| - 1] as int - 48)
  }

  /** What is printed reads back as the number, and does not begin with a superfluous zero. */
  lemma {:induction false} DecReads(n: nat)
    ensures Number(Dec(n)) == n
    ensures Dec(n)[0] == 48 ==> n == 0
  {
    var d := Dec(n);
    if n < 10 {
      assert d[..0] == [];
    } else {
      DecReads(n / 10);
      assert d[..|d| - 1] == Dec(n / 10);
      assert d[0] == Dec(n / 10)[0];
    }
  }

  lemma {:induction false} DecInjective(m: nat, n: nat)
    requires Dec(m) == Dec(n)
    ensures m == n
  {
    var dm, dn := Dec(m), Dec(n);
    assert dm[|dm| - 1] == 48 + m % 10 && dn[|dn| - 1] == 48 + n % 10;
    if m >= 10 && n >= 10 {
      assert Dec(m / 10) == dm[..|dm| - 1] == dn[..|dn| - 1] == Dec(n / 10);
      DecInjective(m / 10, n / 10);
    }
  }
}
