/** The block walk and the padding of src/protocol/sha1.c (section 4 of RFC 3174). */
module Sha1 {
  import opened Bytes
  import opened FrameHeader

  type Word = x: int | 0 <= x < 0x1_0000_0000

  /** The five words that the compression function chains. */
  type Chain = h: seq<Word> | |h| == 5 witness [0, 0, 0, 0, 0]

  const INITIAL: Chain := [0x67452301, 0xEFCDAB89, 0x98BADCFE, 0x10325476, 0xC3D2E1F0]

  function Zeros(n: nat): (s: seq<byte>)
    ensures |s| == n
  {
    seq(n, _ => 0)
  }

  /** The fewest zero bytes that complete the last block. */
  function ZeroCount(len: nat): nat {
    (119 - len % 64) % 64
  }

  /** The standard padded message: a one bit, zeros, and the length in bits in eight bytes. */
  function Padded(m: seq<byte>): seq<byte> {
    m + [0x80] + Zeros(ZeroCount(|m|)) + ToBE(8 * |m|, 8)
  }

  /** The compression function `f` applied to each 64-byte block in turn. */
  function Fold<H>(f: (H, seq<byte>) -> H, h: H, s: seq<byte>): H
    requires |s| % 64 == 0
    decreases |s|
  {
    if s == [] then h else Fold(f, f(h, s[..64]), s[64..])
  }

  /** Padding fills whole blocks with fewer than 64 zeros. */
  lemma PaddedBlocks(m: seq<byte>)
    ensures |Padded(m)| % 64 == 0 && |m| + 9 <= |Padded(m)| < |m| + 73
    ensures m <= Padded(m)
  {
    var r := |m| % 64;
    assert (|m| + 9 + (119 - r) % 64) % 64 == 0;
  }

  /** Different messages have different padded forms. */
  lemma PaddingInjective(a: seq<byte>, b: seq<byte>)
    requires |a| < 0x2000_0000_0000_0000 && |b| < 0x2000_0000_0000_0000
    requires Padded(a) == Padded(b)
    ensures a == b
  {
    hide ToBE, FromBE, Pow2, ZeroCount;
    var p := Padded(a);
    assert p[|p| - 8..] == ToBE(8 * |a|, 8);
    assert p[|p| - 8..] == ToBE(8 * |b|, 8);
    BEWidths();
    FromToBE(8 * |a|, 8);
    FromToBE(8 * |b|, 8);
    assert a == p[..|a|] && b == p[..|b|];
  }

  /** The last one or two blocks of the padded message, for a message whose last `rem` bytes are `tail`. */
  function LastBlocks(tail: seq<byte>, len: nat): seq<byte>
    requires |tail| < 64
  {
    tail + [0x80] + Zeros((if |tail| + 1 <= 56 then 55 else 119) - |tail|) + ToBE(8 * len, 8)
  }

  lemma TailIsPadding(m: seq<byte>, i: nat)
    requires i <= |m| < i + 64 && i % 64 == 0
    ensures |LastBlocks(m[i..], |m|)| == if |m| - i + 1 <= 56 then 64 else 128
    ensures Padded(m) == m[..i] + LastBlocks(m[i..], |m|)
  {
    hide ToBE;
    var rem := |m| - i;
    assert |m| % 64 == rem by {
      assert |m| == 64 * (i / 64) + rem;
    }
    assert ZeroCount(|m|) == (if rem + 1 <= 56 then 55 else 119) - rem;
    assert m == m[..i] + m[i..];
  }

  /** `sha1_blocks`: the whole blocks of the data. */
  method Sha1Blocks<H>(f: (H, seq<byte>) -> H, h0: H, data: array<byte>, len: nat) returns (h: H, i: nat)
    requires len <= data.Length
    ensures i % 64 == 0 && i <= len < i + 64
    ensures h == Fold(f, h0, data[..i])
  {
    h := h0;
    i := 0;
    while i + 64 <= len
      invariant i <= len && i % 64 == 0 && h == Fold(f, h0, data[..i])
    {
      FoldSnoc(f, h0, data[..i], data[i..i + 64]);
      assert data[..i + 64] == data[..i] + data[i..i + 64];
      h := f(h, data[i..i + 64]);
      i := i + 64;
    }
  }

  lemma {:induction false} FoldConcat<H>(f: (H, seq<byte>) -> H, h: H, a: seq<byte>, b: seq<byte>)
    requires |a| % 64 == 0 && |b| % 64 == 0
    ensures Fold(f, h, a + b) == Fold(f, Fold(f, h, a), b)
    decreases |a|
  {
    if a == [] {
      assert a + b == b;
    } else {
      assert (a + b)[..64] == a[..64] && (a + b)[64..] == a[64..] + b;
      FoldConcat(f, f(h, a[..64]), a[64..], b);
    }
  }

  lemma FoldSnoc<H>(f: (H, seq<byte>) -> H, h: H, a: seq<byte>, block: seq<byte>)
    requires |a| % 64 == 0 && |block| == 64
    ensures Fold(f, h, a + block) == f(Fold(f, h, a), block)
  {
    FoldConcat(f, h, a, block);
    assert block[..64] == block && block[64..] == [];
  }

  /** `sha1_put_len`: the bit length, big-endian, in the last eight bytes; the product is 64 bits wide. */
  method PutLen(buf: array<byte>, total: nat, len: nat)
    requires 8 <= total <= buf.Length && len < 0x2000_0000_0000_0000
    modifies buf
    ensures buf[..] == Splice(old(buf[..]), total - 8, ToBE(8 * len, 8))
  {
    hide ToBE, Shr;
    var bits := (len * 8) % 0x1_0000_0000_0000_0000;
    assert bits == 8 * len;
    var k := 0;
    while k < 8
      invariant k <= 8
      invariant buf[total - k..total] == ToBE(bits, k)
      invariant forall j :: 0 <= j < buf.Length && !(total - k <= j < total) ==> buf[j] == old(buf[j])
    {
      ToBEHead(bits, k);
      buf[total - 1 - k] := Shr(bits, 8 * k) % 256;
      k := k + 1;
      assert buf[total - k..total] == [buf[total - k]] + buf[total - k + 1..total];
    }
    SpliceIs(old(buf[..]), total - 8, ToBE(bits, 8), buf[..]);
  }

  method Fill(buf: array<byte>, from: nat, to: nat)
    requires from <= to <= buf.Length
    modifies buf
    ensures buf[..] == Splice(old(buf[..]), from, Zeros(to - from))
  {
    var j := from;
    while j < to
      invariant from <= j <= to
      invariant forall k :: 0 <= k < buf.Length ==> buf[k] == if from <= k < j then 0 else old(buf[k])
    {
      buf[j] := 0;
      j := j + 1;
    }
    SpliceIs(old(buf[..]), from, Zeros(to - from), buf[..]);
  }

  /** `sha1_pad`: the padded last one or two blocks. */
  method Pad(buf: array<byte>, data: array<byte>, from: nat, rem: nat, len: nat) returns (total: nat)
    requires buf.Length == 128 && buf != data && from + rem <= data.Length && rem < 64
    requires len < 0x2000_0000_0000_0000
    modifies buf
    ensures total == (if rem + 1 <= 56 then 64 else 128)
    ensures buf[..total] == LastBlocks(data[from..from + rem], len)
  {
    hide ToBE;
    var j := 0;
    while j < rem
      invariant j <= rem && buf[..j] == data[from..from + j]
    {
      buf[j] := data[from + j];
      j := j + 1;
    }
    buf[rem] := 0x80;
    total := if rem + 1 <= 56 then 64 else 128;
    ghost var head := data[from..from + rem] + [0x80];
    assert buf[..rem + 1] == head;
    Fill(buf, rem + 1, total - 8);
    assert buf[..total - 8] == head + Zeros(total - 9 - rem);
    PutLen(buf, total, len);
    assert buf[..total] == buf[..total - 8] + buf[total - 8..total];
  }

  /** Words as bytes, each big-endian. */
  function WordBytes(h: seq<Word>): (s: seq<byte>)
    ensures |s| == 4 * |h|
  {
    if h == [] then [] else WordBytes(h[..|h| - 1]) + ToBE(h[|h| - 1], 4)
  }

  /** Different chains have different digests. */
  lemma {:induction false} WordBytesInjective(g: seq<Word>, h: seq<Word>)
    requires WordBytes(g) == WordBytes(h)
    ensures g == h
    decreases |g|
  {
    assert |g| == |h|;
    if g != [] {
      var n := |g| - 1;
      assert WordBytes(g)[..4 * n] == WordBytes(g[..n]) && WordBytes(h)[..4 * n] == WordBytes(h[..n]);
      assert WordBytes(g)[4 * n..] == ToBE(g[n], 4) && WordBytes(h)[4 * n..] == ToBE(h[n], 4);
      WordBytesInjective(g[..n], h[..n]);
      WordWidth();
      FromToBE(g[n], 4);
      FromToBE(h[n], 4);
      assert g == g[..n] + [g[n]] && h == h[..n] + [h[n]];
    }
  }

  lemma WordWidth()
    ensures Pow2(8 * 4) == 0x1_0000_0000
  {
    BEWidths();
    Pow2Add(16, 16);
  }

  lemma WordIsBytes(v: nat)
    ensures ToBE(v, 4) == [Shr(v, 24) % 256, Shr(v, 16) % 256, Shr(v, 8) % 256, v % 256]
  {
    hide Shr;
    ToBEHead(v, 3);
    ToBEHead(v, 2);
    ToBEHead(v, 1);
    assert ToBE(v, 1) == [v % 256];
  }

  /** `sha1_emit`. */
  method Emit(h: Chain, out: array<byte>)
    requires out.Length == 20
    modifies out
    ensures out[..] == WordBytes(h)
  {
    hide ToBE, Shr;
    var k := 0;
    while k < 5
      invariant k <= 5
      invariant out[..4 * k] == WordBytes(h[..k])
    {
      ghost var done := out[..4 * k];
      out[4 * k] := Shr(h[k], 24) % 256;
      out[4 * k + 1] := Shr(h[k], 16) % 256;
      out[4 * k + 2] := Shr(h[k], 8) % 256;
      out[4 * k + 3] := h[k] % 256;
      WordIsBytes(h[k]);
      assert h[..k + 1][..k] == h[..k];
      assert out[..4 * k + 4] == done + [out[4 * k], out[4 * k + 1], out[4 * k + 2], out[4 * k + 3]];
      k := k + 1;
    }
    assert h[..5] == h && out[..20] == out[..];
  }

  /**
   * `ws_sha1` over any compression function: the digest is that of the fold, from the standard initial
   * chain, over exactly the 64-byte blocks of the standard padded message.
   */
  method Sha1(f: (Chain, seq<byte>) -> Chain, data: array<byte>, len: nat, out: array<byte>)
    requires len <= data.Length && len < 0x2000_0000_0000_0000 && out.Length == 20
    modifies out
    ensures |Padded(old(data[..len]))| % 64 == 0
    ensures out[..] == WordBytes(Fold(f, INITIAL, Padded(old(data[..len]))))
    ensures (forall h, block :: f(h, block) == h) ==>
      out[..] == [0x67, 0x45, 0x23, 0x01, 0xEF, 0xCD, 0xAB, 0x89, 0x98, 0xBA, 0xDC, 0xFE, 0x10, 0x32, 0x54, 0x76,
                  0xC3, 0xD2, 0xE1, 0xF0]
  {
    hide Padded, LastBlocks, WordBytes;
    ghost var m := data[..len];
    PaddedBlocks(m);
    var h, i := Sha1Blocks(f, INITIAL, data, len);
    var buf := new byte[128](_ => 0);
    var total := Pad(buf, data, i, len - i, len);
    TailIsPadding(m, i);
    assert data[i..len] == m[i..] && data[..i] == m[..i];
    FoldConcat(f, INITIAL, m[..i], buf[..total]);
    FoldSnoc(f, h, [], buf[..64]);
    assert [] + buf[..64] == buf[0..64];
    h := f(h, buf[0..64]);
    if total == 128 {
      FoldSnoc(f, Fold(f, INITIAL, m[..i]), buf[..64], buf[64..128]);
      assert buf[..128] == buf[..64] + buf[64..128];
      h := f(h, buf[64..128]);
    }
    Emit(h, out);
    if forall h, block :: f(h, block) == h {
      FoldSame(f, INITIAL, Padded(m));
      InitialBytes();
    }
  }

  /** A compression that changes nothing leaves the chain as it was. */
  lemma {:induction false} FoldSame<H>(f: (H, seq<byte>) -> H, h: H, s: seq<byte>)
    requires |s| % 64 == 0 && forall g, block :: f(g, block) == g
    ensures Fold(f, h, s) == h
    decreases |s|
  {
    if s != [] {
      FoldSame(f, f(h, s[..64]), s[64..]);
    }
  }

  /** The initial words as bytes, which are the digest of no compression at all. */
  lemma InitialBytes()
    ensures WordBytes(INITIAL) ==
      [0x67, 0x45, 0x23, 0x01, 0xEF, 0xCD, 0xAB, 0x89, 0x98, 0xBA, 0xDC, 0xFE, 0x10, 0x32, 0x54, 0x76,
       0xC3, 0xD2, 0xE1, 0xF0]
  {
    hide ToBE, WordBytes;
    FiveWords(INITIAL);
    WordForm(INITIAL[0], 0x67, 0x45, 0x23, 0x01);
    WordForm(INITIAL[1], 0xEF, 0xCD, 0xAB, 0x89);
    WordForm(INITIAL[2], 0x98, 0xBA, 0xDC, 0xFE);
    WordForm(INITIAL[3], 0x10, 0x32, 0x54, 0x76);
    WordForm(INITIAL[4], 0xC3, 0xD2, 0xE1, 0xF0);
  }

  lemma FiveWords(h: Chain)
    ensures WordBytes(h) == ToBE(h[0], 4) + ToBE(h[1], 4) + ToBE(h[2], 4) + ToBE(h[3], 4) + ToBE(h[4], 4)
  {
    hide ToBE;
    assert h[..5] == h && h[..0] == [];
    assert forall k :: 0 <= k < 5 ==> h[..k + 1][..k] == h[..k];
    assert WordBytes(h[..1]) == WordBytes(h[..0]) + ToBE(h[0], 4) == ToBE(h[0], 4);
    assert WordBytes(h[..2]) == WordBytes(h[..1]) + ToBE(h[1], 4);
    assert WordBytes(h[..3]) == WordBytes(h[..2]) + ToBE(h[2], 4);
    assert WordBytes(h[..4]) == WordBytes(h[..3]) + ToBE(h[3], 4);
    assert WordBytes(h[..5]) == WordBytes(h[..4]) + ToBE(h[4], 4);
  }

  lemma WordForm(v: nat, a: byte, b: byte, c: byte, d: byte)
    requires v == ((a * 256 + b) * 256 + c) * 256 + d
    ensures ToBE(v, 4) == [a, b, c, d]
  {
    var high: nat, mid: nat, low: nat := a, a * 256 + b, (a * 256 + b) * 256 + c;
    assert v % 256 == d && v / 256 == low && low % 256 == c && low / 256 == mid && mid % 256 == b && mid / 256 == high;
    assert ToBE(high, 1) == [a];
    assert ToBE(mid, 2) == [a, b];
    assert ToBE(low, 3) == [a, b, c];
  }
}
