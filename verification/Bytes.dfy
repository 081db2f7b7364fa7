/** Bytes, little-endian words and the bitwise operations of the C code, as arithmetic on naturals. */
module Bytes {
  type byte = x: int | 0 <= x < 256

  datatype Option<+T> = None | Some(value: T)

  const TWO63: nat := 0x8000_0000_0000_0000
  const TWO64: nat := 0x1_0000_0000_0000_0000

  function Pow2(n: nat): (p: nat)
    ensures p > 0
  {
    if n == 0 then 1 else 2 * Pow2(n - 1)
  }

  lemma {:induction false} Pow2Add(m: nat, n: nat)
    ensures Pow2(m + n) == Pow2(m) * Pow2(n)
  {
    if m == 0 {
    } else {
      Pow2Add(m - 1, n);
      assert Pow2(m + n) == 2 * Pow2(m - 1 + n);
      MulAssoc(2, Pow2(m - 1), Pow2(n));
    }
  }

  lemma MulAssoc(a: int, b: int, c: int)
    ensures a * (b * c) == (a * b) * c
  {
  }

  /** Bitwise exclusive or, bit by bit from the low end, at any width. */
  function Xor(a: nat, b: nat): nat
    decreases a + b
  {
    if a == 0 && b == 0 then 0 else 2 * Xor(a / 2, b / 2) + (a % 2 + b % 2) % 2
  }

  /** Bitwise or, bit by bit from the low end, at any width. */
  function Or(a: nat, b: nat): nat
    decreases a + b
  {
    if a == 0 && b == 0 then 0 else 2 * Or(a / 2, b / 2) + (if a % 2 + b % 2 > 0 then 1 else 0)
  }

  lemma {:induction false} XorBound(a: nat, b: nat, n: nat)
    requires a < Pow2(n) && b < Pow2(n)
    ensures Xor(a, b) < Pow2(n)
  {
    if n > 0 && (a > 0 || b > 0) {
      XorBound(a / 2, b / 2, n - 1);
    }
  }

  lemma {:induction false} XorInvolution(a: nat, k: nat)
    ensures Xor(Xor(a, k), k) == a
    decreases a + k
  {
    hide Xor;
    XorHalves(a, k);
    if a > 0 || k > 0 {
      XorInvolution(a / 2, k / 2);
      var bit := (a % 2 + k % 2) % 2;
      XorDouble(Xor(a / 2, k / 2), k / 2, bit, k % 2);
      assert k == 2 * (k / 2) + k % 2;
    } else {
      XorHalves(0, 0);
    }
  }

  lemma XorDouble(a: nat, b: nat, p: nat, q: nat)
    requires p < 2 && q < 2
    ensures Xor(2 * a + p, 2 * b + q) == 2 * Xor(a, b) + (p + q) % 2
  {
    var x, y := 2 * a + p, 2 * b + q;
    assert x / 2 == a && y / 2 == b && x % 2 == p && y % 2 == q;
  }

  lemma {:induction false} ShiftIn(n: nat, a: nat, hi: nat)
    requires n > 0
    ensures a + Pow2(n) * hi == 2 * (a / 2 + Pow2(n - 1) * hi) + a % 2
  {
    MulAssoc(2, Pow2(n - 1), hi);
  }

  lemma XorHalves(a: nat, b: nat)
    ensures Xor(a, b) == 2 * Xor(a / 2, b / 2) + (a % 2 + b % 2) % 2
  {
  }

  /** Xor acts on the low `n` bits and on the bits above them separately. */
  lemma {:induction false} XorSplit(n: nat, a: nat, b: nat, hiA: nat, hiB: nat)
    requires a < Pow2(n) && b < Pow2(n)
    ensures Xor(a + Pow2(n) * hiA, b + Pow2(n) * hiB) == Xor(a, b) + Pow2(n) * Xor(hiA, hiB)
  {
    if n > 0 {
      var x, y := a / 2 + Pow2(n - 1) * hiA, b / 2 + Pow2(n - 1) * hiB;
      var p, q := a % 2, b % 2;
      calc {
        Xor(a + Pow2(n) * hiA, b + Pow2(n) * hiB);
      == { ShiftIn(n, a, hiA); ShiftIn(n, b, hiB); }
        Xor(2 * x + p, 2 * y + q);
      == { XorDouble(x, y, p, q); }
        2 * Xor(x, y) + (p + q) % 2;
      == { XorSplit(n - 1, a / 2, b / 2, hiA, hiB); }
        2 * (Xor(a / 2, b / 2) + Pow2(n - 1) * Xor(hiA, hiB)) + (p + q) % 2;
      == { MulAssoc(2, Pow2(n - 1), Xor(hiA, hiB)); XorHalves(a, b); }
        Xor(a, b) + Pow2(n) * Xor(hiA, hiB);
      }
    }
  }

  lemma {:induction false} OrSame(a: nat)
    ensures Or(a, a) == a
  {
    if a > 0 {
      OrSame(a / 2);
    }
  }

  lemma {:induction false} OrZero(a: nat)
    ensures Or(0, a) == a
  {
    if a > 0 {
      OrZero(a / 2);
    }
  }

  /** Or of numbers whose bits do not overlap is their sum. */
  lemma {:induction false} OrDisjoint(n: nat, lo: nat, hi: nat)
    requires lo < Pow2(n)
    ensures Or(lo, Pow2(n) * hi) == lo + Pow2(n) * hi
  {
    if n == 0 {
      OrZero(hi);
    } else {
      var m := Pow2(n - 1);
      OrDisjoint(n - 1, lo / 2, hi);
      MulAssoc(2, m, hi);
      var y := Pow2(n) * hi;
      assert y == 2 * (m * hi);
      assert y / 2 == m * hi && y % 2 == 0;
    }
  }

  function XorByte(a: byte, b: byte): byte {
    assert Pow2(8) == 256;
    XorBound(a, b, 8);
    Xor(a, b)
  }

  function XorSeq(a: seq<byte>, b: seq<byte>): (r: seq<byte>)
    requires |a| == |b|
    ensures |r| == |a|
  {
    seq(|a|, i requires 0 <= i < |a| => XorByte(a[i], b[i]))
  }

  /** The value of a little-endian byte string: what loading a word from memory reads. */
  function FromLE(s: seq<byte>): nat {
    if s == [] then 0 else s[0] + 256 * FromLE(s[1..])
  }

  /** The `n` low bytes of `v`, little-endian: what storing a word to memory writes. */
  function ToLE(v: nat, n: nat): (s: seq<byte>)
    ensures |s| == n
  {
    if n == 0 then [] else [v % 256] + ToLE(v / 256, n - 1)
  }

  lemma {:induction false} ToFromLE(s: seq<byte>)
    ensures ToLE(FromLE(s), |s|) == s
  {
    if s != [] {
      ToFromLE(s[1..]);
      assert FromLE(s) % 256 == s[0] && FromLE(s) / 256 == FromLE(s[1..]);
    }
  }

  lemma {:induction false} FromLEBound(s: seq<byte>)
    ensures FromLE(s) < Pow2(8 * |s|)
  {
    if s != [] {
      FromLEBound(s[1..]);
      Pow2Add(8, 8 * |s[1..]|);
      assert Pow2(8) == 256;
    }
  }

  lemma FromLEOne(b: byte)
    ensures FromLE([b]) == b
  {
  }

  lemma ByteWide(n: nat)
    ensures Pow2(8 + n) == 256 * Pow2(n)
  {
    Pow2Add(8, n);
    assert Pow2(8) == 256;
  }

  lemma {:induction false} FromLEConcat(a: seq<byte>, b: seq<byte>)
    ensures FromLE(a + b) == FromLE(a) + Pow2(8 * |a|) * FromLE(b)
  {
    if a == [] {
      assert a + b == b;
    } else {
      var n := 8 * |a[1..]|;
      calc {
        FromLE(a + b);
      == { assert (a + b)[1..] == a[1..] + b; }
        a[0] + 256 * FromLE(a[1..] + b);
      == { FromLEConcat(a[1..], b); }
        a[0] + 256 * (FromLE(a[1..]) + Pow2(n) * FromLE(b));
      == { MulAssoc(256, Pow2(n), FromLE(b)); }
        FromLE(a) + (256 * Pow2(n)) * FromLE(b);
      == { ByteWide(n); }
        FromLE(a) + Pow2(8 * |a|) * FromLE(b);
      }
    }
  }

  /** Xor of two loaded words is the load of the bytewise xor. */
  lemma {:induction false} XorLE(a: seq<byte>, b: seq<byte>)
    requires |a| == |b|
    ensures Xor(FromLE(a), FromLE(b)) == FromLE(XorSeq(a, b))
  {
    if a != [] {
      XorLE(a[1..], b[1..]);
      assert Pow2(8) == 256;
      XorSplit(8, a[0], b[0], FromLE(a[1..]), FromLE(b[1..]));
      assert XorSeq(a, b)[1..] == XorSeq(a[1..], b[1..]);
    }
  }

  /** `s` with the bytes from `at` on replaced by `t`. */
  function Splice(s: seq<byte>, at: nat, t: seq<byte>): (r: seq<byte>)
    requires at + |t| <= |s|
    ensures |r| == |s|
  {
    s[..at] + t + s[at + |t|..]
  }

  /** One piece after the other at the front. */
  lemma SpliceMore(s: seq<byte>, a: seq<byte>, b: seq<byte>)
    requires |a| + |b| <= |s|
    ensures Splice(Splice(s, 0, a), |a|, b) == Splice(s, 0, a + b)
  {
  }

  /** A sequence that agrees with `t` on the spliced range and with `s` elsewhere is the splice. */
  lemma SpliceIs(s: seq<byte>, at: nat, t: seq<byte>, r: seq<byte>)
    requires at + |t| <= |s| == |r|
    requires forall k :: 0 <= k < |s| ==> r[k] == if at <= k < at + |t| then t[k - at] else s[k]
    ensures r == Splice(s, at, t)
  {
  }

  /** x >> n, one bit at a time. */
  function Shr(x: nat, n: nat): nat {
    if n == 0 then x else Shr(x / 2, n - 1)
  }

  /** x << n in 64 bits. */
  function Shl64(x: nat, n: nat): (r: nat)
    ensures r < TWO64
    decreases n
  {
    if n == 0 then x % TWO64 else Shl64(2 * x, n - 1)
  }

  lemma {:induction false} Shl64Is(x: nat, n: nat)
    ensures Shl64(x, n) == (x * Pow2(n)) % TWO64
    decreases n
  {
    if n > 0 {
      Shl64Is(2 * x, n - 1);
      MulAssoc(x, 2, Pow2(n - 1));
    }
  }

  lemma {:induction false} ShrDrops(n: nat, a: nat, hi: nat)
    requires a < Pow2(n)
    ensures Shr(a + Pow2(n) * hi, n) == hi
  {
    if n > 0 {
      ShiftIn(n, a, hi);
      ShrDrops(n - 1, a / 2, hi);
      assert (a + Pow2(n) * hi) / 2 == a / 2 + Pow2(n - 1) * hi;
    }
  }

  lemma ModTwo64(a: nat, b: nat)
    requires a < TWO64
    ensures (a + TWO64 * b) % TWO64 == a
  {
  }

  lemma WordSize()
    ensures Pow2(64) == TWO64
  {
    assert Pow2(8) == 256;
    Pow2Add(8, 8);
    Pow2Add(16, 16);
    Pow2Add(32, 32);
  }
}
