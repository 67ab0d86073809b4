/**
 * Byte-level vocabulary shared by the packet codec and the session:
 * bytes, 32-bit signed integers, the little-endian layout that
 * BitConverter produces on a little-endian host, the ASCII encoder and
 * decoder of .NET, and Array.Copy.
 */
module Bytes {

  newtype byte = b: int | 0 <= b < 0x100
  newtype int32 = x: int | -0x8000_0000 <= x < 0x8000_0000

  const TwoTo32: int := 0x1_0000_0000

  /** Unchecked C# int arithmetic: the int32 congruent to x modulo 2^32. */
  function Wrap32(x: int): (r: int32)
    ensures (r as int - x) % TwoTo32 == 0
    ensures -0x8000_0000 <= x < 0x8000_0000 ==> r as int == x
  {
    var u := x % TwoTo32;
    if u < 0x8000_0000 then u as int32 else (u - TwoTo32) as int32
  }

  /** The value of four bytes read as an unsigned little-endian number. */
  function Unsigned(b: seq<byte>): (u: int)
    requires |b| == 4
    ensures 0 <= u < TwoTo32
  {
    b[0] as int + 0x100 * b[1] as int + 0x1_0000 * b[2] as int + 0x100_0000 * b[3] as int
  }

  /** BitConverter.GetBytes(int) on a little-endian host: the two's-complement
      bytes of x, least significant first. */
  function Le32(x: int32): (b: seq<byte>)
    ensures |b| == 4
    ensures Unsigned(b) == (x as int) % TwoTo32
  {
    var u := (x as int) % TwoTo32;
    var q1 := u / 0x100;
    var q2 := q1 / 0x100;
    [(u % 0x100) as byte, (q1 % 0x100) as byte, (q2 % 0x100) as byte, (q2 / 0x100) as byte]
  }

  /** BitConverter.ToInt32 on a little-endian host. */
  function FromLe32(b: seq<byte>): (x: int32)
    requires |b| == 4
    ensures (x as int) % TwoTo32 == Unsigned(b)
  {
    Wrap32(Unsigned(b))
  }

  /** Decoding the bytes of x gives x back. */
  lemma FromLe32Le32(x: int32)
    ensures FromLe32(Le32(x)) == x
  {
    var u := (x as int) % TwoTo32;
    assert Unsigned(Le32(x)) == u;
    assert x < 0 ==> u == x as int + TwoTo32;
  }

  /** Encoding a decoded four-byte field gives the same four bytes back. */
  lemma Le32FromLe32(b: seq<byte>)
    requires |b| == 4
    ensures Le32(FromLe32(b)) == b
  {
    var u := Unsigned(b);
    assert (FromLe32(b) as int) % TwoTo32 == u;
    var e := Le32(FromLe32(b));
    // peel off one byte at a time: u == b0 + 256 * q1, q1 == b1 + 256 * q2, q2 == b2 + 256 * b3
    var q2 := b[2] as int + 0x100 * b[3] as int;
    var q1 := b[1] as int + 0x100 * q2;
    assert u == b[0] as int + 0x100 * q1;
    DivMod256Unique(u, b[0] as int, q1);
    DivMod256Unique(q1, b[1] as int, q2);
    DivMod256Unique(q2, b[2] as int, b[3] as int);
    assert e[0] == b[0] && e[1] == b[1] && e[2] == b[2] && e[3] == b[3];
  }

  /** The digit and quotient of a division by 256 are unique. */
  lemma DivMod256Unique(u: int, d: int, q: int)
    requires 0 <= d < 0x100 && 0 <= q && u == d + 0x100 * q
    ensures u % 0x100 == d && u / 0x100 == q
  {
  }

  /** Distinct numbers have distinct wire bytes. */
  lemma Le32Injective(x: int32, y: int32)
    ensures Le32(x) == Le32(y) <==> x == y
  {
    FromLe32Le32(x);
    FromLe32Le32(y);
  }

  /** The byte the .NET ASCII encoder emits for one character: the character
      itself below 128, the replacement '?' otherwise. */
  function AsciiByte(c: char): (b: byte)
    ensures c as int < 0x80 ==> b as int == c as int
    ensures c as int >= 0x80 ==> b as int == '?' as int
  {
    if c as int < 0x80 then c as int as byte else '?' as int as byte
  }

  /** Encoding.ASCII.GetBytes: one byte per character. */
  function AsciiBytes(s: string): (b: seq<byte>)
    ensures |b| == |s|
    ensures forall i :: 0 <= i < |s| ==> b[i] == AsciiByte(s[i])
  {
    seq(|s|, i requires 0 <= i < |s| => AsciiByte(s[i]))
  }

  /** Encoding.ASCII.GetString: one character per byte, bytes above 127
      replaced by '?'. */
  function AsciiText(b: seq<byte>): (s: string)
    ensures |s| == |b|
    ensures forall i :: 0 <= i < |b| ==> s[i] == if b[i] < 0x80 then b[i] as int as char else '?'
  {
    seq(|b|, i requires 0 <= i < |b| => if b[i] < 0x80 then b[i] as int as char else '?')
  }

  /** Text made only of 7-bit characters survives encoding and decoding. */
  lemma AsciiTextOfBytes(s: string)
    requires forall i :: 0 <= i < |s| ==> s[i] as int < 0x80
    ensures AsciiText(AsciiBytes(s)) == s
  {
  }

  /** A sequence of n zero bytes, the contents of a freshly allocated array. */
  function Zeros(n: nat): (z: seq<byte>)
    ensures |z| == n && forall i :: 0 <= i < n ==> z[i] == 0
  {
    seq(n, _ => 0)
  }

  /** BitConverter.GetBytes(int): a fresh four-byte array. */
  method GetBytes(x: int32) returns (a: array<byte>)
    ensures fresh(a) && a[..] == Le32(x)
  {
    var b := Le32(x);
    a := new byte[4](i requires 0 <= i < 4 => b[i]);
  }

  /** Encoding.ASCII.GetBytes(string): a fresh array of one byte per character. */
  method AsciiGetBytes(s: string) returns (a: array<byte>)
    ensures fresh(a) && a[..] == AsciiBytes(s)
  {
    a := new byte[|s|](i requires 0 <= i < |s| => AsciiByte(s[i]));
  }

  /** d with the bytes from offset at onwards overwritten by s. */
  function Splice(d: seq<byte>, at: nat, s: seq<byte>): (r: seq<byte>)
    requires at + |s| <= |d|
    ensures |r| == |d|
  {
    seq(|d|, k requires 0 <= k < |d| => if at <= k < at + |s| then s[k - at] else d[k])
  }

  /** The bytes of a splice: s inside its range, d outside it. */
  lemma SpliceAt(d: seq<byte>, at: nat, s: seq<byte>)
    requires at + |s| <= |d|
    ensures forall k :: 0 <= k < |d| ==> Splice(d, at, s)[k] == if at <= k < at + |s| then s[k - at] else d[k]
  {
  }

  /** Array.Copy(src, srcIndex, dst, dstIndex, length) between two distinct
      arrays: the range is overwritten, the rest of dst is kept. */
  method ArrayCopy(src: array<byte>, srcIndex: nat, dst: array<byte>, dstIndex: nat, length: nat)
    requires src != dst
    requires srcIndex + length <= src.Length && dstIndex + length <= dst.Length
    modifies dst
    ensures dst[..] == Splice(old(dst[..]), dstIndex, old(src[srcIndex..srcIndex + length]))
  {
    var i := 0;
    while i < length
      invariant 0 <= i <= length
      invariant forall k :: 0 <= k < dst.Length ==>
        dst[k] == if dstIndex <= k < dstIndex + i then src[srcIndex + (k - dstIndex)] else old(dst[k])
    {
      dst[dstIndex + i] := src[srcIndex + i];
      i := i + 1;
    }
    SpliceAt(old(dst[..]), dstIndex, src[srcIndex..srcIndex + length]);
    assert dst[..] == Splice(old(dst[..]), dstIndex, src[srcIndex..srcIndex + length]);
  }
}
