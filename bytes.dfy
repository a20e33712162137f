/**
 * Octets and the fixed-width integer encodings the query protocol uses
 * (`struct.pack('>l')`, `struct.unpack('>l')`, `struct.unpack('<h')`), and the
 * ISO-8859-1 codec that turns payload bytes into text and back.
 */
module Bytes {

  /** One element of a Python `bytes` object. */
  type byte = b: int | 0 <= b < 256

  const Int32Min: int := -0x8000_0000
  const Int32Max: int := 0x7FFF_FFFF

  /** The range `struct.pack('>l', n)` accepts; any other `n` raises `struct.error`. */
  predicate InInt32(n: int) {
    Int32Min <= n <= Int32Max
  }

  /** The range of a signed 16-bit integer (`'h'` format). */
  predicate InInt16(n: int) {
    -0x8000 <= n < 0x8000
  }

  /** `struct.pack('>l', n)`: four bytes, big-endian two's complement. */
  function PackInt32BE(n: int): (r: seq<byte>)
    requires InInt32(n)
    ensures |r| == 4
  {
    var u := if n < 0 then n + 0x1_0000_0000 else n;
    [u / 0x100_0000, u / 0x1_0000 % 0x100, u / 0x100 % 0x100, u % 0x100]
  }

  /** `struct.unpack('>l', b)[0]` for a 4-byte `b`. */
  function UnpackInt32BE(b: seq<byte>): (n: int)
    requires |b| == 4
    ensures InInt32(n)
    ensures n < 0 <==> b[0] >= 0x80
  {
    var u := b[0] as int * 0x100_0000 + b[1] as int * 0x1_0000 + b[2] as int * 0x100 + b[3] as int;
    if u >= 0x8000_0000 then u - 0x1_0000_0000 else u
  }

  /** A 32-bit word is the sum of its four base-256 digits. */
  lemma WordDigits(u: int)
    requires 0 <= u < 0x1_0000_0000
    ensures u / 0x100_0000 * 0x100_0000 + u / 0x1_0000 % 0x100 * 0x1_0000 + u / 0x100 % 0x100 * 0x100 + u % 0x100 == u
  {
    var q1 := u / 0x100;
    var q2 := u / 0x1_0000;
    var q3 := u / 0x100_0000;
    assert q2 == q1 / 0x100;
    assert q3 == q2 / 0x100;
    assert u == q1 * 0x100 + u % 0x100;
    assert q1 == q2 * 0x100 + q1 % 0x100;
    assert q2 == q3 * 0x100 + q2 % 0x100;
  }

  lemma UnpackPackInt32(n: int)
    requires InInt32(n)
    ensures UnpackInt32BE(PackInt32BE(n)) == n
  {
    WordDigits(if n < 0 then n + 0x1_0000_0000 else n);
  }

  lemma PackUnpackInt32(b: seq<byte>)
    requires |b| == 4
    ensures PackInt32BE(UnpackInt32BE(b)) == b
  {
    var u := b[0] as int * 0x100_0000 + b[1] as int * 0x1_0000 + b[2] as int * 0x100 + b[3] as int;
    assert u / 0x100_0000 == b[0];
    assert u / 0x1_0000 == b[0] as int * 0x100 + b[1] as int;
    assert u / 0x100 == b[0] as int * 0x1_0000 + b[1] as int * 0x100 + b[2] as int;
  }

  /** `struct.unpack('<h', b)[0]` for a 2-byte `b`: little-endian signed 16-bit. */
  function UnpackInt16LE(b: seq<byte>): (n: int)
    requires |b| == 2
    ensures InInt16(n)
    ensures n < 0 <==> b[1] >= 0x80
  {
    var u := b[0] as int + b[1] as int * 0x100;
    if u >= 0x8000 then u - 0x1_0000 else u
  }

  /** `struct.pack('<h', n)`, the server side of `UnpackInt16LE`. */
  function PackInt16LE(n: int): (r: seq<byte>)
    requires InInt16(n)
    ensures |r| == 2
  {
    var u := if n < 0 then n + 0x1_0000 else n;
    [u % 0x100, u / 0x100]
  }

  lemma UnpackPackInt16(n: int)
    requires InInt16(n)
    ensures UnpackInt16LE(PackInt16LE(n)) == n
  {
    var u := if n < 0 then n + 0x1_0000 else n;
    assert u % 0x100 + u / 0x100 * 0x100 == u;
  }

  /** `b.decode("iso-8859-1")`: every byte becomes the code point of the same value. */
  function Latin1Decode(b: seq<byte>): (s: string)
    ensures |s| == |b|
    ensures forall i :: 0 <= i < |b| ==> s[i] as int == b[i]
  {
    seq(|b|, i requires 0 <= i < |b| => b[i] as char)
  }

  /** Text that `s.encode("iso-8859-1")` accepts: every code point below 256. */
  predicate IsLatin1(s: string) {
    forall i :: 0 <= i < |s| ==> s[i] as int < 256
  }

  /** `s.encode("iso-8859-1")` for text it accepts. */
  function Latin1Encode(s: string): (b: seq<byte>)
    requires IsLatin1(s)
    ensures |b| == |s|
    ensures Latin1Decode(b) == s
  {
    seq(|s|, i requires 0 <= i < |s| => s[i] as int)
  }

  lemma DecodeIsLatin1(b: seq<byte>)
    ensures IsLatin1(Latin1Decode(b))
  {
  }

  lemma EncodeDecode(b: seq<byte>)
    ensures Latin1Encode(Latin1Decode(b)) == b
  {
  }

  lemma DecodeAppend(a: seq<byte>, b: seq<byte>)
    ensures Latin1Decode(a + b) == Latin1Decode(a) + Latin1Decode(b)
  {
  }

  lemma DecodeSlice(b: seq<byte>, i: int, j: int)
    requires 0 <= i <= j <= |b|
    ensures Latin1Decode(b[i..j]) == Latin1Decode(b)[i..j]
  {
  }

  /** Decoding keeps the number of occurrences of every value. */
  lemma {:induction false} DecodeCount(b: seq<byte>, x: byte)
    ensures multiset(Latin1Decode(b))[x as char] == multiset(b)[x]
  {
    if b != [] {
      var k := |b| - 1;
      DecodeCount(b[..k], x);
      assert b == b[..k] + [b[k]];
      DecodeAppend(b[..k], [b[k]]);
      assert Latin1Decode([b[k]]) == [b[k] as char];
    }
  }

  lemma Latin1Append(a: string, b: string)
    requires IsLatin1(a) && IsLatin1(b)
    ensures IsLatin1(a + b)
  {
    forall i | |a| <= i < |a + b| ensures (a + b)[i] as int < 256 {
      assert (a + b)[i] == b[i - |a|];
    }
  }
}
