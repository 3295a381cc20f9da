/** The CRC-style and PJW byte-string hashes, computed over unbounded
    nonnegative integers as Python does (neither masks h to 32 bits). */
module Hashing {
  import opened Bytes

  function Pow2(n: nat): (p: nat)
    ensures p >= 1
  {
    if n == 0 then 1 else 2 * Pow2(n - 1)
  }

  /** Python's ^ on nonnegative integers, bit by bit from the lowest. */
  function Xor(a: nat, b: nat): nat
    decreases a + b
  {
    if a == 0 && b == 0 then 0 else 2 * Xor(a / 2, b / 2) + (if a % 2 == b % 2 then 0 else 1)
  }

  /** The lowest bit of a ^ b is the exclusive or of the lowest bits, and the
      remaining bits are the ^ of the remaining bits. */
  lemma XorUnfold(a: nat, b: nat)
    ensures Xor(a, b) == 2 * Xor(a / 2, b / 2) + (if a % 2 == b % 2 then 0 else 1)
  {
    if a == 0 && b == 0 {
      assert Xor(0, 0) == 0;
    }
  }

  /** 0 is the identity of ^. */
  lemma {:induction false} XorZero(x: nat)
    ensures Xor(0, x) == x && Xor(x, 0) == x
    decreases x
  {
    if x != 0 {
      XorZero(x / 2);
    }
  }

  lemma {:induction false} XorSelf(x: nat)
    ensures Xor(x, x) == 0
    decreases x
  {
    if x != 0 {
      XorSelf(x / 2);
    }
  }

  lemma Halve(x: int, y: int, r: int)
    requires x == 2 * y + r && 0 <= r < 2
    ensures x / 2 == y && x % 2 == r
  {
  }

  /** ^ acts independently on the bits below position n and on those above:
      splitting both operands at bit n splits the result the same way. */
  lemma {:induction false} XorSplit(a1: nat, a0: nat, b1: nat, b0: nat, n: nat)
    requires a0 < Pow2(n) && b0 < Pow2(n)
    ensures Xor(a1 * Pow2(n) + a0, b1 * Pow2(n) + b0) == Xor(a1, b1) * Pow2(n) + Xor(a0, b0)
    ensures Xor(a0, b0) < Pow2(n)
    decreases n
  {
    if n == 0 {
      assert a0 == 0 && b0 == 0;
    } else {
      var p, q := Pow2(n), Pow2(n - 1);
      assert p == 2 * q;
      var x := Xor(a1, b1);
      DoubleOfMul(a1, q);
      DoubleOfMul(b1, q);
      DoubleOfMul(x, q);
      var aq, bq, xq := a1 * q, b1 * q, x * q;
      Halve(2 * aq + a0, aq + a0 / 2, a0 % 2);
      Halve(2 * bq + b0, bq + b0 / 2, b0 % 2);
      XorSplit(a1, a0 / 2, b1, b0 / 2, n - 1);
      CombineLowBit(2 * aq + a0, 2 * bq + b0, a0, b0, xq, Xor(a0 / 2, b0 / 2));
    }
  }

  lemma DoubleOfMul(x: nat, q: nat)
    ensures x * q >= 0 && x * (2 * q) == 2 * (x * q)
  {
  }

  /** Reassembles a ^ b from the ^ of the halves and the lowest bits. */
  lemma CombineLowBit(a: nat, b: nat, a0: nat, b0: nat, hi: nat, lowHalf: nat)
    requires a % 2 == a0 % 2 && b % 2 == b0 % 2
    requires Xor(a / 2, b / 2) == hi + lowHalf && Xor(a0 / 2, b0 / 2) == lowHalf
    ensures Xor(a, b) == 2 * hi + Xor(a0, b0)
    ensures Xor(a0, b0) <= 2 * lowHalf + 1
  {
    XorUnfold(a, b);
    XorUnfold(a0, b0);
  }

  /** h & 0xf8000000, the five bits 27..31 of h. */
  function CrcHighOrder(h: nat): nat
  {
    ((h / 0x800_0000) % 32) * 0x800_0000
  }

  /** One iteration of hash_crc: h = (h << 5) ^ (high_order >> 27) ^ ki. */
  function CrcStep(h: nat, k: byte): nat
  {
    Xor(Xor(h * 32, CrcHighOrder(h) / 0x800_0000), k)
  }

  /** hash_crc as a left fold of CrcStep from 0. */
  function CrcFold(data: seq<byte>): nat
  {
    if data == [] then 0 else CrcStep(CrcFold(data[..|data| - 1]), data[|data| - 1])
  }

  /** hash_crc(data). */
  method HashCrc(data: seq<byte>) returns (h: nat)
    ensures h == CrcFold(data)
  {
    h := 0;
    for i := 0 to |data|
      invariant h == CrcFold(data[..i])
    {
      assert data[..i + 1][..i] == data[..i];
      var highOrder := CrcHighOrder(h);
      h := h * 32;
      h := Xor(h, highOrder / 0x800_0000);
      h := Xor(h, data[i]);
    }
    assert data[..|data|] == data;
  }

  /** Hashing one more byte applies one more step to the hash so far. */
  lemma CrcAppend(data: seq<byte>, b: byte)
    ensures CrcFold(data + [b]) == CrcStep(CrcFold(data), b)
  {
    assert (data + [b])[..|data|] == data;
  }

  /** The empty input hashes to 0 and a one-byte input to the byte itself. */
  lemma CrcShortInputs(b: byte)
    ensures CrcFold([]) == 0 && CrcFold([b]) == b
  {
    assert [b][..0] == [];
    XorZero(b);
  }

  /** A zero byte shifts the hash left by five bits and feeds the old bits
      27..31 back in at the bottom; nothing is cut off at the top. */
  lemma CrcZeroStep(h: nat)
    ensures CrcStep(h, 0) == h * 32 + (h / 0x800_0000) % 32
  {
    var hi := (h / 0x800_0000) % 32;
    var mixed := Xor(h * 32, CrcHighOrder(h) / 0x800_0000);
    assert mixed == h * 32 + hi by {
      assert CrcHighOrder(h) / 0x800_0000 == hi;
      XorBelow5(h, hi);
    }
    XorZero(mixed);
  }

  /** A value below 32 only changes the low five bits of h << 5. */
  lemma XorBelow5(h: nat, m: nat)
    requires m < 32
    ensures Xor(h * 32, m) == h * 32 + m
  {
    Pow2Constants();
    XorSplit(h, 0, 0, m, 5);
    XorZero(h);
    XorZero(m);
  }

  /** Appending a zero byte multiplies the CRC hash by at least 32. */
  lemma CrcAppendZero(data: seq<byte>)
    ensures CrcFold(data + [0]) >= 32 * CrcFold(data)
  {
    CrcAppend(data, 0);
    CrcZeroStep(CrcFold(data));
  }

  /** Appending m zero bytes multiplies the CRC hash by at least 32^m. */
  lemma {:induction false} CrcAppendZeros(data: seq<byte>, m: nat)
    ensures CrcFold(data + seq(m, _ => 0)) >= Pow2(5 * m) * CrcFold(data)
  {
    if m == 0 {
      assert data + seq(0, _ => 0) == data;
    } else {
      var prefix := data + seq(m - 1, _ => 0);
      var x, w := CrcFold(prefix + [0]), CrcFold(prefix);
      assert prefix + [0] == data + seq(m, _ => 0);
      assert w >= Pow2(5 * (m - 1)) * CrcFold(data) by {
        CrcAppendZeros(data, m - 1);
      }
      assert x >= 32 * w by {
        CrcAppendZero(prefix);
      }
      assert Pow2(5 * m) == Pow2(5 * (m - 1)) * 32 by {
        PowAdd(5 * (m - 1), 5);
        Pow2Constants();
      }
      ScaleBound(x, w, Pow2(5 * (m - 1)), CrcFold(data));
    }
  }

  lemma ScaleBound(x: nat, w: nat, pw: nat, v: nat)
    requires x >= 32 * w && w >= pw * v
    ensures x >= (pw * 32) * v
  {
    assert 32 * (pw * v) == (pw * 32) * v;
  }

  /** hash_crc does not stay within 32 bits: [1, 0, 0, 0, 0, 0, 0, 0] hashes
      to at least 2^35. */
  lemma CrcExceeds32Bits()
    ensures CrcFold([1, 0, 0, 0, 0, 0, 0, 0]) >= 0x8_0000_0000
  {
    CrcShortInputs(1);
    CrcAppendZeros([1], 7);
    assert [1] + seq(7, _ => 0) == [1, 0, 0, 0, 0, 0, 0, 0];
    Pow2Constants();
    PowAdd(28, 7);
    assert Pow2(7) == 128 by {
      PowAdd(4, 3);
      assert Pow2(3) == 8 by { assert Pow2(1) == 2 && Pow2(2) == 4; }
    }
  }

  lemma {:induction false} PowAdd(m: nat, n: nat)
    ensures Pow2(m + n) == Pow2(m) * Pow2(n)
    decreases n
  {
    if n > 0 {
      PowAdd(m, n - 1);
    }
  }

  /** h & 0xf0000000, the four bits 28..31 of h. */
  function PjwHighNibble(h: nat): nat
  {
    ((h / 0x1000_0000) % 16) * 0x1000_0000
  }

  /** One iteration of hash_pjw: h = (h << 4) + ki; g = h & 0xf0000000; if g
      is nonzero, h = h ^ (g >> 24) and then h = h ^ g. */
  function PjwStep(h: nat, k: byte): nat
  {
    var h1 := h * 16 + k;
    var g := PjwHighNibble(h1);
    if g != 0 then Xor(Xor(h1, g / 0x100_0000), g) else h1
  }

  /** hash_pjw as a left fold of PjwStep from 0. */
  function PjwFold(data: seq<byte>): nat
  {
    if data == [] then 0 else PjwStep(PjwFold(data[..|data| - 1]), data[|data| - 1])
  }

  /** hash_pjw(data). */
  method HashPjw(data: seq<byte>) returns (h: nat)
    ensures h == PjwFold(data)
  {
    h := 0;
    for i := 0 to |data|
      invariant h == PjwFold(data[..i])
    {
      assert data[..i + 1][..i] == data[..i];
      h := h * 16 + data[i];
      var g := PjwHighNibble(h);
      if g != 0 {
        h := Xor(h, g / 0x100_0000);
        h := Xor(h, g);
      }
    }
    assert data[..|data|] == data;
  }

  lemma Pow2Constants()
    ensures Pow2(4) == 16 && Pow2(5) == 32 && Pow2(28) == 0x1000_0000
  {
    assert Pow2(4) == 16 by {
      assert Pow2(1) == 2 && Pow2(2) == 4 && Pow2(3) == 8;
    }
    PowAdd(4, 4);
    PowAdd(8, 8);
    PowAdd(16, 8);
    PowAdd(24, 4);
  }

  /** XorSplit at bit 28. */
  lemma XorSplit28(a1: nat, a0: nat, b1: nat, b0: nat)
    requires a0 < 0x1000_0000 && b0 < 0x1000_0000
    ensures Xor(a1 * 0x1000_0000 + a0, b1 * 0x1000_0000 + b0) == Xor(a1, b1) * 0x1000_0000 + Xor(a0, b0)
    ensures Xor(a0, b0) < 0x1000_0000
  {
    Pow2Constants();
    XorSplit(a1, a0, b1, b0, 28);
  }

  /** XorSplit at bit 4. */
  lemma XorSplit4(a1: nat, a0: nat, b1: nat, b0: nat)
    requires a0 < 16 && b0 < 16
    ensures Xor(a1 * 16 + a0, b1 * 16 + b0) == Xor(a1, b1) * 16 + Xor(a0, b0)
  {
    Pow2Constants();
    XorSplit(a1, a0, b1, b0, 4);
  }

  lemma DivOfSplit(c: nat, l: nat)
    requires l < 0x1000_0000
    ensures (c * 0x1000_0000 + l) / 0x1000_0000 == c
  {
  }

  /** Clearing bits 28..31 of upper * 2^28 + low as hash_pjw does: xor the
      nibble in at bit 4 and then xor it out at bit 28. */
  lemma PjwClearNibble(upper: nat, low: nat)
    requires low < 0x1000_0000
    ensures var mid := upper % 16;
            Xor(Xor(upper * 0x1000_0000 + low, mid * 16), mid * 0x1000_0000) / 0x1000_0000 == upper / 16 * 16
  {
    var top, mid := upper / 16, upper % 16;
    var low' := Xor(low, mid * 16);
    assert Xor(upper * 0x1000_0000 + low, mid * 16) == upper * 0x1000_0000 + low' && low' < 0x1000_0000 by {
      XorBelow28(upper, low, mid * 16);
    }
    assert Xor(upper * 0x1000_0000 + low', mid * 0x1000_0000) == Xor(upper, mid) * 0x1000_0000 + low' by {
      XorAbove28(upper, low', mid);
    }
    assert Xor(upper, mid) == top * 16 by {
      assert upper == top * 16 + mid;
      XorSplit4(top, mid, 0, mid);
      XorSelf(mid);
      XorZero(top);
    }
    DivOfSplit(top * 16, low');
  }

  /** A value below 2^28 only changes the low 28 bits. */
  lemma XorBelow28(upper: nat, low: nat, m: nat)
    requires low < 0x1000_0000 && m < 0x1000_0000
    ensures Xor(upper * 0x1000_0000 + low, m) == upper * 0x1000_0000 + Xor(low, m)
    ensures Xor(low, m) < 0x1000_0000
  {
    XorSplit28(upper, low, 0, m);
    XorZero(upper);
  }

  /** A multiple of 2^28 leaves the low 28 bits alone. */
  lemma XorAbove28(upper: nat, low: nat, m: nat)
    requires low < 0x1000_0000
    ensures Xor(upper * 0x1000_0000 + low, m * 0x1000_0000) == Xor(upper, m) * 0x1000_0000 + low
  {
    XorSplit28(upper, low, m, 0);
    XorZero(low);
  }

  /** Bits 28 and above of a PJW step's result are those of (h << 4) + ki
      with bits 28..31 cleared. */
  lemma PjwStepShape(h: nat, k: byte)
    ensures PjwStep(h, k) / 0x1000_0000 == ((h * 16 + k) / 0x1000_0000) / 16 * 16
  {
    var h1 := h * 16 + k;
    var upper, low := h1 / 0x1000_0000, h1 % 0x1000_0000;
    assert h1 == upper * 0x1000_0000 + low;
    var mid := upper % 16;
    assert PjwHighNibble(h1) == mid * 0x1000_0000;
    if mid != 0 {
      assert (mid * 0x1000_0000) / 0x100_0000 == mid * 16;
      PjwClearNibble(upper, low);
    } else {
      DivOfSplit(upper, low);
    }
  }

  /** After every PJW step bits 28..31 of h are zero. */
  lemma PjwClearsHighNibble(h: nat, k: byte)
    ensures (PjwStep(h, k) / 0x1000_0000) % 16 == 0
  {
    PjwStepShape(h, k);
  }

  lemma DivDiv(x: nat)
    ensures x / 0x1_0000_0000 == (x / 0x1000_0000) / 16
  {
  }

  /** The PJW step keeps the bits above 31 instead of masking them off. */
  lemma PjwKeepsUpperBits(h: nat, k: byte)
    ensures PjwStep(h, k) / 0x1_0000_0000 == (h * 16 + k) / 0x1_0000_0000
  {
    PjwStepShape(h, k);
    DivDiv(PjwStep(h, k));
    DivDiv(h * 16 + k);
  }

  /** hash_pjw's result always has bits 28..31 clear. */
  lemma PjwFoldHighNibble(data: seq<byte>)
    ensures (PjwFold(data) / 0x1000_0000) % 16 == 0
  {
    if data != [] {
      PjwClearsHighNibble(PjwFold(data[..|data| - 1]), data[|data| - 1]);
    }
  }

  /** Hashing one more byte applies one more step to the hash so far. */
  lemma PjwAppend(data: seq<byte>, b: byte)
    ensures PjwFold(data + [b]) == PjwStep(PjwFold(data), b)
  {
    assert (data + [b])[..|data|] == data;
  }

  /** The empty input hashes to 0 and a one-byte input to the byte itself. */
  lemma PjwShortInputs(b: byte)
    ensures PjwFold([]) == 0 && PjwFold([b]) == b
  {
    assert [b][..0] == [];
    assert PjwHighNibble(b) == 0;
    XorZero(b);
  }
}
