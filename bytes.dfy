/** Byte sequences and the little-endian integer fields a PAC is made of
    (section 2.3 of [MS-PAC]: every integer of the PACTYPE header and of the
    PAC_INFO_BUFFER records is little-endian). Java reads them as signed
    `int` and `long`, so the decoders here give the two's-complement value. */
module Bytes {

  newtype byte = b: int | 0 <= b < 0x100

  const WORD32: nat := 0x1_0000_0000
  const INT32_HALF: nat := 0x8000_0000
  const INT64_HALF: nat := 0x8000_0000_0000_0000

  predicate IsInt32(x: int) { -(INT32_HALF as int) <= x < INT32_HALF }
  predicate IsInt64(x: int) { -(INT64_HALF as int) <= x < INT64_HALF }

  /** The unsigned value of the 4 bytes at `at`, least significant first. */
  function Word32(s: seq<byte>, at: nat): (v: nat)
    requires at + 4 <= |s|
    ensures v < WORD32
  {
    s[at] as nat + 0x100 * (s[at + 1] as nat + 0x100 * (s[at + 2] as nat + 0x100 * (s[at + 3] as nat)))
  }

  /** The unsigned value of the 8 bytes at `at`, least significant first. */
  function Word64(s: seq<byte>, at: nat): (v: nat)
    requires at + 8 <= |s|
    ensures v < 2 * INT64_HALF
  {
    Word32(s, at) + WORD32 * Word32(s, at + 4)
  }

  /** Two's-complement reading of an unsigned field whose top bit is worth `half`. */
  function ToSigned(u: nat, half: nat): (x: int)
    requires u < 2 * half
    ensures -(half as int) <= x < half
    ensures x >= 0 ==> x == u
    ensures x < 0 ==> x == u - 2 * half
  {
    if u < half then u else u - 2 * half
  }

  /** The unsigned field a signed value is stored as. */
  function ToUnsigned(x: int, half: nat): (u: nat)
    requires -(half as int) <= x < half
    ensures u < 2 * half && ToSigned(u, half) == x
  {
    if x >= 0 then x else x + 2 * half
  }

  /** What `PacDataInputStream.readInt` yields for the 4 bytes at `at`. */
  function Int32At(s: seq<byte>, at: nat): (x: int)
    requires at + 4 <= |s|
    ensures IsInt32(x)
  {
    ToSigned(Word32(s, at), INT32_HALF)
  }

  /** What `PacDataInputStream.readLong` yields for the 8 bytes at `at`. */
  function Int64At(s: seq<byte>, at: nat): (x: int)
    requires at + 8 <= |s|
    ensures IsInt64(x)
  {
    ToSigned(Word64(s, at), INT64_HALF)
  }

  /** The 4 bytes, least significant first, that hold u. */
  function EncodeWord32(u: nat): (s: seq<byte>)
    requires u < WORD32
    ensures |s| == 4
  {
    var u1 := u / 0x100;
    var u2 := u1 / 0x100;
    [(u % 0x100) as byte, (u1 % 0x100) as byte, (u2 % 0x100) as byte, (u2 / 0x100) as byte]
  }

  /** The 4 bytes a signed 32-bit integer is written as. */
  function EncodeInt32(x: int): (s: seq<byte>)
    requires IsInt32(x)
    ensures |s| == 4
  {
    EncodeWord32(ToUnsigned(x, INT32_HALF))
  }

  /** The 8 bytes a signed 64-bit integer is written as. */
  function EncodeInt64(x: int): (s: seq<byte>)
    requires IsInt64(x)
    ensures |s| == 8
  {
    var u := ToUnsigned(x, INT64_HALF);
    EncodeWord32(u % WORD32) + EncodeWord32(u / WORD32)
  }

  /** Byte sequences equal position by position are equal. */
  lemma SameBytes(a: seq<byte>, b: seq<byte>)
    requires |a| == |b| && forall j | 0 <= j < |a| :: a[j] == b[j]
    ensures a == b
  {
  }

  /** Reading a 32-bit field depends only on the bytes of that field. */
  lemma Int32Frame(s: seq<byte>, at: nat, t: seq<byte>, bt: nat)
    requires at + 4 <= |s| && bt + 4 <= |t| && s[at..at + 4] == t[bt..bt + 4]
    ensures Word32(s, at) == Word32(t, bt) && Int32At(s, at) == Int32At(t, bt)
  {
    var r := t[bt..bt + 4];
    assert s[at] == r[0] == t[bt] && s[at + 1] == r[1] == t[bt + 1];
    assert s[at + 2] == r[2] == t[bt + 2] && s[at + 3] == r[3] == t[bt + 3];
  }

  /** Reading a 64-bit field depends only on the bytes of that field. */
  lemma Int64Frame(s: seq<byte>, at: nat, t: seq<byte>, bt: nat)
    requires at + 8 <= |s| && bt + 8 <= |t| && s[at..at + 8] == t[bt..bt + 8]
    ensures Int64At(s, at) == Int64At(t, bt)
  {
    assert s[at..at + 4] == s[at..at + 8][..4] == t[bt..bt + 8][..4] == t[bt..bt + 4];
    Int32Frame(s, at, t, bt);
    assert s[at + 4..at + 8] == s[at..at + 8][4..] == t[bt..bt + 8][4..] == t[bt + 4..bt + 8];
    Int32Frame(s, at + 4, t, bt + 4);
  }

  /** Splitting off the low byte: a byte and a quotient give back their value. */
  lemma LowByte(lo: nat, hi: nat)
    requires lo < 0x100
    ensures (lo + 0x100 * hi) % 0x100 == lo && (lo + 0x100 * hi) / 0x100 == hi
  {
  }

  /** Decoding what EncodeWord32 wrote gives back the value. */
  lemma DecodeEncodeWord32(u: nat)
    requires u < WORD32
    ensures Word32(EncodeWord32(u), 0) == u
  {
    var u1 := u / 0x100;
    var u2 := u1 / 0x100;
    assert u == u % 0x100 + 0x100 * u1;
    assert u1 == u1 % 0x100 + 0x100 * u2;
    assert u2 == u2 % 0x100 + 0x100 * (u2 / 0x100);
  }

  /** Encoding the value read from 4 bytes gives back those bytes. */
  lemma EncodeDecodeWord32(s: seq<byte>, at: nat)
    requires at + 4 <= |s|
    ensures EncodeWord32(Word32(s, at)) == s[at..at + 4]
  {
    var b0, b1, b2, b3 := s[at] as nat, s[at + 1] as nat, s[at + 2] as nat, s[at + 3] as nat;
    var u2 := b2 + 0x100 * b3;
    var u1 := b1 + 0x100 * u2;
    LowByte(b0, u1);
    LowByte(b1, u2);
    LowByte(b2, b3);
  }

  /** A 32-bit field round-trips through EncodeInt32 and Int32At. */
  lemma Int32RoundTrip(x: int)
    requires IsInt32(x)
    ensures Int32At(EncodeInt32(x), 0) == x
  {
    DecodeEncodeWord32(ToUnsigned(x, INT32_HALF));
  }

  /** A 64-bit field round-trips through EncodeInt64 and Int64At. */
  lemma Int64RoundTrip(x: int)
    requires IsInt64(x)
    ensures Int64At(EncodeInt64(x), 0) == x
  {
    var u := ToUnsigned(x, INT64_HALF);
    var lo, hi := EncodeWord32(u % WORD32), EncodeWord32(u / WORD32);
    var s := lo + hi;
    DecodeEncodeWord32(u % WORD32);
    DecodeEncodeWord32(u / WORD32);
    assert s[0..4] == lo[0..4];
    Int32Frame(s, 0, lo, 0);
    assert s[4..8] == hi[0..4];
    Int32Frame(s, 4, hi, 0);
    assert Word64(s, 0) == u % WORD32 + WORD32 * (u / WORD32);
  }

  /** The 4 bytes at `at` are exactly the encoding of the integer read there. */
  lemma Int32Bytes(s: seq<byte>, at: nat)
    requires at + 4 <= |s|
    ensures EncodeInt32(Int32At(s, at)) == s[at..at + 4]
  {
    EncodeDecodeWord32(s, at);
  }
}
