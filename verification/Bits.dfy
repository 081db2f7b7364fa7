/** The arithmetic forms used in this project are the bit operations of the C code, on 8-bit words. */
module Bits {
  import opened Bytes
  import opened ConnSpec
  import opened Mask

  function Num(x: bv8): byte {
    x as int
  }

  lemma HalfOf(x: bv8)
    ensures Num(x) / 2 == Num(x >> 1) && Num(x) % 2 == Num(x & 1)
  {
  }

  lemma XorHalf(x: bv8, y: bv8)
    ensures (x ^ y) >> 1 == (x >> 1) ^ (y >> 1)
    ensures (x ^ y) & 1 == (x & 1) ^ (y & 1)
    ensures x & 1 <= 1
  {
  }

  lemma LowXor(p: bv8, q: bv8)
    requires p <= 1 && q <= 1
    ensures Num(p ^ q) == (Num(p) + Num(q)) % 2
  {
  }

  lemma XorUnfold(a: nat, b: nat)
    ensures Xor(a, b) == if a == 0 && b == 0 then 0 else 2 * Xor(a / 2, b / 2) + (a % 2 + b % 2) % 2
  {
  }

  lemma XorParts(x: bv8, y: bv8)
    ensures Num(x ^ y) == 2 * Num((x >> 1) ^ (y >> 1)) + (Num(x) % 2 + Num(y) % 2) % 2
  {
    hide Num;
    HalfOf(x);
    HalfOf(y);
    HalfOf(x ^ y);
    XorHalf(x, y);
    XorHalf(y, x);
    LowXor(x & 1, y & 1);
  }

  lemma NumZero(x: bv8)
    ensures Num(x) == 0 <==> x == 0
  {
  }

  lemma XorStep(x: bv8, y: bv8)
    requires Xor(Num(x >> 1), Num(y >> 1)) == Num((x >> 1) ^ (y >> 1))
    ensures Xor(Num(x), Num(y)) == Num(x ^ y)
  {
    hide Num, Xor;
    XorUnfold(Num(x), Num(y));
    XorParts(x, y);
    HalfOf(x);
    HalfOf(y);
    NumZero(x);
    NumZero(y);
    NumZero(x ^ y);
  }

  lemma HalfSmaller(x: bv8)
    ensures Num(x >> 1) <= Num(x) && (x != 0 ==> Num(x >> 1) < Num(x))
  {
    hide Num;
    HalfOf(x);
    NumZero(x);
  }

  /** `Xor` is the exclusive or of C. */
  lemma {:induction false} XorIsBitwise(x: bv8, y: bv8)
    ensures Xor(Num(x), Num(y)) == Num(x ^ y)
    decreases Num(x) + Num(y)
  {
    hide Num, Xor;
    if x != 0 || y != 0 {
      HalfSmaller(x);
      HalfSmaller(y);
      XorIsBitwise(x >> 1, y >> 1);
      XorStep(x, y);
    } else {
      NumZero(x);
      XorUnfold(0, 0);
    }
  }

  lemma Bit7(b: bv8)
    ensures (b & 0x80 != 0) == (Num(b) >= 128)
  {
  }

  lemma Bit6(b: bv8)
    ensures (b & 0x40 != 0) == ((Num(b) / 64) % 2 == 1)
  {
  }

  lemma Bit5(b: bv8)
    ensures (b & 0x20 != 0) == ((Num(b) / 32) % 2 == 1)
  {
  }

  lemma Bit4(b: bv8)
    ensures (b & 0x10 != 0) == ((Num(b) / 16) % 2 == 1)
  {
  }

  lemma Bit3(b: bv8)
    ensures (b & 0x08 != 0) == ((Num(b) / 8) % 2 == 1)
  {
  }

  /** The flag tests on the first header byte. */
  lemma FlagBits(b: bv8)
    ensures (b & 0x80 != 0) == (Num(b) >= 128)
    ensures (b & 0x40 != 0) == ((Num(b) / 64) % 2 == 1)
    ensures (b & 0x20 != 0) == ((Num(b) / 32) % 2 == 1)
    ensures (b & 0x10 != 0) == ((Num(b) / 16) % 2 == 1)
  {
    hide Num;
    Bit7(b);
    Bit6(b);
    Bit5(b);
    Bit4(b);
  }

  /** The test for a control opcode. */
  lemma ControlBit(op: bv8)
    ensures (op & 0x08 != 0) == IsControl(Num(op))
  {
    hide Num;
    Bit3(op);
  }

  lemma LowFour(b: bv8)
    ensures Num(b & 0x0F) == Num(b) % 16
  {
  }

  lemma LowSeven(b: bv8)
    ensures Num(b & 0x7F) == Num(b) % 128
  {
  }

  /** The opcode and the 7-bit length. */
  lemma FieldBits(b: bv8)
    ensures Num(b & 0x0F) == Num(b) % 16 && Num(b & 0x7F) == Num(b) % 128
  {
    hide Num;
    LowFour(b);
    LowSeven(b);
  }

  /** Masking on machine bytes: byte i is `data[i] ^ key[i % 4]`. */
  lemma MaskIsBitwise(data: seq<byte>, key: Key, i: nat, x: bv8, y: bv8)
    requires i < |data| && Num(x) == data[i] && Num(y) == key[i % 4]
    ensures MaskSeq(data, key)[i] == Num(x ^ y)
  {
    hide Num, Xor;
    XorIsBitwise(x, y);
  }
}
