/** Bytes and the fixed-width integer packings used by the serialisers:
    struct.pack("i", x) on a little-endian machine (four bytes, two's
    complement) and a 32-bit pattern in big-endian order (struct.pack(">f")
    of a value already held as its float32 bit pattern). */
module Bytes {

  /** One element of a Python bytes object. */
  type byte = x: int | 0 <= x < 256

  const I32_MIN: int := -0x8000_0000
  const I32_MAX: int := 0x7fff_ffff

  /** A 32-bit pattern, here the bits of a float32. */
  type Bits32 = x: int | 0 <= x < 0x1_0000_0000

  predicate FitsI32(x: int)
  {
    I32_MIN <= x <= I32_MAX
  }

  function Pow256(n: nat): (p: nat)
    ensures p >= 1
  {
    if n == 0 then 1 else 256 * Pow256(n - 1)
  }

  /** The n low bytes of u, least significant first. */
  function LittleEndian(u: nat, n: nat): (b: seq<byte>)
    ensures |b| == n
  {
    if n == 0 then [] else [u % 256] + LittleEndian(u / 256, n - 1)
  }

  function FromLittleEndian(b: seq<byte>): (u: nat)
    ensures u < Pow256(|b|)
  {
    if b == [] then 0 else b[0] + 256 * FromLittleEndian(b[1..])
  }

  /** The n low bytes of u, most significant first. */
  function BigEndian(u: nat, n: nat): (b: seq<byte>)
    ensures |b| == n
  {
    if n == 0 then [] else BigEndian(u / 256, n - 1) + [u % 256]
  }

  function FromBigEndian(b: seq<byte>): (u: nat)
    ensures u < Pow256(|b|)
  {
    if b == [] then 0 else 256 * FromBigEndian(b[..|b| - 1]) + b[|b| - 1]
  }

  lemma {:induction false} FromToLittleEndian(u: nat, n: nat)
    requires u < Pow256(n)
    ensures FromLittleEndian(LittleEndian(u, n)) == u
  {
    if n > 0 {
      FromToLittleEndian(u / 256, n - 1);
      assert LittleEndian(u, n)[1..] == LittleEndian(u / 256, n - 1);
    }
  }

  lemma {:induction false} FromToBigEndian(u: nat, n: nat)
    requires u < Pow256(n)
    ensures FromBigEndian(BigEndian(u, n)) == u
  {
    if n > 0 {
      FromToBigEndian(u / 256, n - 1);
      assert BigEndian(u, n)[..n - 1] == BigEndian(u / 256, n - 1);
    }
  }

  /** struct.pack("i", x); Python raises struct.error when x does not fit. */
  function PackI32(x: int): (b: seq<byte>)
    requires FitsI32(x)
    ensures |b| == 4
  {
    LittleEndian(if x < 0 then x + 0x1_0000_0000 else x, 4)
  }

  /** struct.unpack("i", b)[0] for a four-byte slice. */
  function UnpackI32(b: seq<byte>): (x: int)
    requires |b| == 4
    ensures FitsI32(x)
  {
    var u := FromLittleEndian(b);
    assert Pow256(4) == 0x1_0000_0000;
    if u > I32_MAX then u - 0x1_0000_0000 else u
  }

  lemma UnpackPackI32(x: int)
    requires FitsI32(x)
    ensures UnpackI32(PackI32(x)) == x
  {
    assert Pow256(4) == 0x1_0000_0000;
    FromToLittleEndian(if x < 0 then x + 0x1_0000_0000 else x, 4);
  }

  /** The four bytes of a 32-bit pattern, most significant first. */
  function PackBE32(v: Bits32): (b: seq<byte>)
    ensures |b| == 4
  {
    BigEndian(v, 4)
  }

  function UnpackBE32(b: seq<byte>): Bits32
    requires |b| == 4
  {
    assert Pow256(4) == 0x1_0000_0000;
    FromBigEndian(b)
  }

  lemma UnpackPackBE32(v: Bits32)
    ensures UnpackBE32(PackBE32(v)) == v
  {
    assert Pow256(4) == 0x1_0000_0000;
    FromToBigEndian(v, 4);
  }
}
