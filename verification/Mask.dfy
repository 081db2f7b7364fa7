/** Payload masking (section 5.3 of RFC 6455), word at a time (src/core/mask.c). */
module Mask {
  import opened Bytes

  type Key = k: seq<byte> | |k| == 4 witness [0, 0, 0, 0]

  /** The masked form of `data`: byte i is combined with key byte i mod 4. */
  function MaskSeq(data: seq<byte>, key: Key): (r: seq<byte>)
    ensures |r| == |data|
  {
    seq(|data|, i requires 0 <= i < |data| => XorByte(data[i], key[i % 4]))
  }

  /** Masking twice with one key restores the data. */
  lemma MaskInvolution(data: seq<byte>, key: Key)
    ensures MaskSeq(MaskSeq(data, key), key) == data
  {
    forall i | 0 <= i < |data| ensures MaskSeq(MaskSeq(data, key), key)[i] == data[i] {
      XorInvolution(data[i], key[i % 4]);
    }
  }

  /** The key bytes that meet eight consecutive data bytes when the first one meets key byte r. */
  function KeyRun(key: Key, r: nat): (s: seq<byte>)
    ensures |s| == 8
  {
    seq(8, b requires 0 <= b < 8 => key[(r + b) % 4])
  }

  /** x >> r | x << ((64 - r) & 63) on 64-bit words. */
  function Rotr64(x: nat, r: nat): nat
    requires r < 64
  {
    Or(Shr(x, r), Shl64(x, (64 - r) % 64))
  }

  /** One more byte or-ed in above the ones loaded. */
  lemma LoadMore(run: seq<byte>, b: nat)
    requires b < |run|
    ensures Or(FromLE(run[..b]), Pow2(8 * b) * run[b]) == FromLE(run[..b + 1])
  {
    hide FromLE, Or, Pow2;
    FromLEBound(run[..b]);
    OrDisjoint(8 * b, FromLE(run[..b]), run[b]);
    FromLEConcat(run[..b], [run[b]]);
    FromLEOne(run[b]);
    assert run[..b + 1] == run[..b] + [run[b]];
  }

  method KeyWord(key: Key) returns (kw: nat)
    ensures kw == FromLE(KeyRun(key, 0))
  {
    kw := 0;
    var b := 0;
    ghost var run := KeyRun(key, 0);
    assert forall k :: 0 <= k < 8 ==> run[k] == key[k % 4];
    assert FromLE(run[..0]) == 0;
    hide FromLE, KeyRun, Or, Pow2;
    while b < 8
      invariant 0 <= b <= 8
      invariant kw == FromLE(run[..b])
    {
      LoadMore(run, b);
      kw := Or(kw, Pow2(8 * b) * key[b % 4]);
      b := b + 1;
    }
    assert run[..8] == run;
  }

  lemma RotateNone(x: nat)
    requires x < TWO64
    ensures Rotr64(x, 0) == x
  {
    OrSame(x);
  }

  /** Rotating the key word right by 8r bits makes its byte b the key byte (r + b) mod 4. */
  lemma RotatedKeyWord(key: Key, r: nat)
    requires r < 4
    ensures Rotr64(FromLE(KeyRun(key, 0)), 8 * r) == FromLE(KeyRun(key, r))
  {
    var run := KeyRun(key, 0);
    if r == 0 {
      WordSize();
      FromLEBound(run);
      RotateNone(FromLE(run));
    } else {
      var lo, hi := run[..r], run[r..];
      assert run == lo + hi;
      assert KeyRun(key, r) == hi + lo;
      RotateBytes(lo, hi);
    }
  }

  lemma RotateBytes(lo: seq<byte>, hi: seq<byte>)
    requires |lo| + |hi| == 8 && lo != [] && hi != []
    ensures Rotr64(FromLE(lo + hi), 8 * |lo|) == FromLE(hi + lo)
  {
    var a, b := FromLE(lo), FromLE(hi);
    var m, n := 8 * |lo|, 8 * |hi|;
    FromLEBound(lo);
    FromLEBound(hi);
    calc {
      Rotr64(FromLE(lo + hi), m);
    == { FromLEConcat(lo, hi); }
      Rotr64(a + Pow2(m) * b, m);
    == { RotateWord(a, b, m, n); }
      b + Pow2(n) * a;
    == { FromLEConcat(hi, lo); }
      FromLE(hi + lo);
    }
  }

  lemma RotateWord(a: nat, b: nat, m: nat, n: nat)
    requires m + n == 64 && m > 0 && n > 0 && a < Pow2(m) && b < Pow2(n)
    ensures Rotr64(a + Pow2(m) * b, m) == b + Pow2(n) * a
  {
    hide *;
    ShrDrops(m, a, b);
    RotateHigh(a, b, m, n);
    OrDisjoint(n, b, a);
    RotateIs(a + Pow2(m) * b, m, n);
  }

  lemma RotateIs(x: nat, m: nat, n: nat)
    requires m + n == 64 && m > 0 && n > 0
    ensures Rotr64(x, m) == Or(Shr(x, m), Shl64(x, n))
  {
    assert (64 - m) % 64 == n;
  }

  lemma RotateHigh(a: nat, b: nat, m: nat, n: nat)
    requires m + n == 64 && a < Pow2(m)
    ensures Shl64(a + Pow2(m) * b, n) == Pow2(n) * a
  {
    hide *;
    Shl64Is(a + Pow2(m) * b, n);
    Pow2Add(m, n);
    WordSize();
    HighPart(a, b, Pow2(m), Pow2(n));
  }

  lemma HighPart(a: nat, b: nat, p: nat, q: nat)
    requires p * q == TWO64 && a < p && q > 0
    ensures ((a + p * b) * q) % TWO64 == q * a
  {
    Distribute(a, b, p, q);
    assert a * q < p * q;
    ModTwo64(q * a, b);
  }

  lemma Distribute(a: nat, b: nat, p: nat, q: nat)
    ensures (a + p * b) * q == q * a + (p * q) * b
  {
  }

  /** Between `lo` and `hi` the slice at `at` holds `masked`, and the rest of the array is `before`. */
  predicate MaskedRange(now: seq<byte>, before: seq<byte>, at: nat, lo: nat, hi: nat, masked: seq<byte>) {
    && |now| == |before| && hi <= |masked| && at + |masked| <= |before|
    && (forall k :: at + lo <= k < at + hi ==> now[k] == masked[k - at])
    && (forall k :: 0 <= k < |now| && !(at + lo <= k < at + hi) ==> now[k] == before[k])
  }

  /** Byte by byte until the address is a multiple of eight. */
  method MaskLead(data: array<byte>, at: nat, len: nat, addr: nat, key: Key) returns (i: nat)
    requires at + len <= data.Length
    modifies data
    ensures i <= len && MaskedRange(data[..], old(data[..]), at, 0, i, MaskSeq(old(data[at..at + len]), key))
    ensures i == len || (addr + i) % 8 == 0
  {
    i := 0;
    ghost var before := data[..];
    ghost var masked := MaskSeq(before[at..at + len], key);
    while i < len && (addr + i) % 8 != 0
      invariant i <= len && MaskedRange(data[..], before, at, 0, i, masked)
    {
      assert data[at + i] == data[..][at + i];
      data[at + i] := XorByte(data[at + i], key[i % 4]);
      i := i + 1;
    }
  }

  /** One 64-bit word at slice index `i`: load, combine, store. */
  method MaskWord(data: array<byte>, at: nat, kcur: nat, ghost slice: seq<byte>, ghost i: nat, key: Key)
    requires at + 8 <= data.Length && i + 8 <= |slice|
    requires kcur == FromLE(KeyRun(key, i))
    requires data[at..at + 8] == slice[i..i + 8]
    modifies data
    ensures data[..] == Splice(old(data[..]), at, MaskSeq(slice, key)[i..i + 8])
  {
    ghost var out := MaskSeq(slice, key)[i..i + 8];
    var v := FromLE(data[at..at + 8]);
    v := Xor(v, kcur);
    WordIsBytes(slice, key, i);
    assert v == FromLE(out);
    var bytes := ToLE(v, 8);
    assert bytes == out by { ToFromLE(out); }
    forall b | 0 <= b < 8 {
      data[at + b] := bytes[b];
    }
    SpliceIs(old(data[..]), at, out, data[..]);
  }

  lemma WordIsBytes(slice: seq<byte>, key: Key, i: nat)
    requires i + 8 <= |slice|
    ensures Xor(FromLE(slice[i..i + 8]), FromLE(KeyRun(key, i))) == FromLE(MaskSeq(slice, key)[i..i + 8])
  {
    XorLE(slice[i..i + 8], KeyRun(key, i));
    MaskedWord(slice, key, i);
  }

  lemma MaskedWord(data: seq<byte>, key: Key, i: nat)
    requires i + 8 <= |data|
    ensures XorSeq(data[i..i + 8], KeyRun(key, i)) == MaskSeq(data, key)[i..i + 8]
  {
  }

  /** Key bytes repeat every four, so the run only depends on the index mod 4. */
  lemma KeyRunRepeats(key: Key, i: nat, j: nat)
    requires i % 4 == j % 4
    ensures KeyRun(key, i) == KeyRun(key, j)
  {
    forall b: nat | b < 8 ensures KeyRun(key, i)[b] == KeyRun(key, j)[b] {
      SameIndex(i, j, b);
    }
  }

  lemma SameIndex(i: nat, j: nat, b: nat)
    requires i % 4 == j % 4
    ensures (i + b) % 4 == (j + b) % 4
  {
  }

  lemma MaskedExtend(before: seq<byte>, mid: seq<byte>, now: seq<byte>, at: nat, lo: nat, i: nat, masked: seq<byte>)
    requires lo <= i && i + 8 <= |masked|
    requires MaskedRange(mid, before, at, lo, i, masked)
    requires now == Splice(mid, at + i, masked[i..i + 8])
    ensures MaskedRange(now, before, at, lo, i + 8, masked)
  {
  }

  /** The next word of the slice is still as it was. */
  lemma NotYetMasked(before: seq<byte>, mid: seq<byte>, at: nat, len: nat, lo: nat, i: nat, masked: seq<byte>)
    requires at + len <= |before| && |masked| == len && i + 8 <= len
    requires MaskedRange(mid, before, at, lo, i, masked)
    ensures mid[at + i..at + i + 8] == before[at..at + len][i..i + 8]
  {
    var now, word := mid[at + i..at + i + 8], before[at..at + len][i..i + 8];
    forall b | 0 <= b < 8 ensures now[b] == word[b] {
      assert mid[at + i + b] == before[at + i + b];
    }
  }

  lemma NothingMasked(before: seq<byte>, at: nat, lo: nat, masked: seq<byte>)
    requires lo <= |masked| && at + |masked| <= |before|
    ensures MaskedRange(before, before, at, lo, lo, masked)
  {
  }

  method MaskWords(data: array<byte>, at: nat, len: nat, start: nat, kcur: nat, key: Key) returns (i: nat)
    requires at + len <= data.Length && start <= len
    requires kcur == FromLE(KeyRun(key, start))
    modifies data
    ensures start <= i <= len && len < i + 8
    ensures MaskedRange(data[..], old(data[..]), at, start, i, MaskSeq(old(data[at..at + len]), key))
  {
    hide MaskSeq, KeyRun, FromLE, MaskedRange, Splice;
    i := start;
    ghost var before := data[..];
    ghost var slice := before[at..at + len];
    ghost var masked := MaskSeq(slice, key);
    NothingMasked(before, at, start, masked);
    while i + 8 <= len
      invariant start <= i <= len && i % 4 == start % 4
      invariant MaskedRange(data[..], before, at, start, i, masked)
    {
      ghost var mid := data[..];
      KeyRunRepeats(key, start, i);
      NotYetMasked(before, mid, at, len, start, i, masked);
      MaskWord(data, at + i, kcur, slice, i, key);
      MaskedExtend(before, mid, data[..], at, start, i, masked);
      i := i + 8;
    }
  }

  /** The bytes left over after the last whole word. */
  method MaskTail(data: array<byte>, at: nat, len: nat, start: nat, key: Key)
    requires at + len <= data.Length && start <= len
    modifies data
    ensures MaskedRange(data[..], old(data[..]), at, start, len, MaskSeq(old(data[at..at + len]), key))
  {
    var i := start;
    ghost var before := data[..];
    ghost var masked := MaskSeq(before[at..at + len], key);
    while i < len
      invariant start <= i <= len && MaskedRange(data[..], before, at, start, i, masked)
    {
      assert data[at + i] == data[..][at + i];
      data[at + i] := XorByte(data[at + i], key[i % 4]);
      i := i + 1;
    }
  }

  /** Bytes that a pass has not reached mask to the same values afterwards. */
  lemma MaskLater(before: seq<byte>, mid: seq<byte>, at: nat, len: nat, j: nat, key: Key, i: nat)
    requires at + len <= |before| == |mid| && j <= i < len
    requires forall k :: at + j <= k < |before| ==> mid[k] == before[k]
    ensures MaskSeq(mid[at..at + len], key)[i] == MaskSeq(before[at..at + len], key)[i]
  {
  }

  /** Two passes over adjacent ranges make one pass over both. */
  lemma MaskedJoin(before: seq<byte>, mid: seq<byte>, now: seq<byte>, at: nat, len: nat, i: nat, j: nat, key: Key)
    requires i <= j <= len && at + len <= |before|
    requires MaskedRange(mid, before, at, 0, i, MaskSeq(before[at..at + len], key))
    requires MaskedRange(now, mid, at, i, j, MaskSeq(mid[at..at + len], key))
    ensures MaskedRange(now, before, at, 0, j, MaskSeq(before[at..at + len], key))
  {
    forall k | at + i <= k < at + j
      ensures now[k] == MaskSeq(before[at..at + len], key)[k - at]
    {
      MaskLater(before, mid, at, len, i, key, k - at);
    }
  }

  method RotatedKey(kw: nat, key: Key, i: nat) returns (kcur: nat)
    requires kw == FromLE(KeyRun(key, 0))
    ensures kcur == FromLE(KeyRun(key, i))
  {
    hide *;
    var r := i % 4;
    kcur := Rotr64(kw, 8 * r);
    RotatedKeyWord(key, r);
    KeyRunRepeats(key, r, i);
  }

  /** `ws_mask`: whatever the address, every byte meets the key byte of its own index. */
  method MaskInPlace(data: array<byte>, at: nat, len: nat, addr: nat, key: Key)
    requires at + len <= data.Length
    modifies data
    ensures data[..] == Splice(old(data[..]), at, MaskSeq(old(data[at..at + len]), key))
  {
    ghost var before := data[..];
    var kw := KeyWord(key);
    var i := MaskLead(data, at, len, addr, key);
    ghost var lead := data[..];
    var kcur := RotatedKey(kw, key, i);
    var j := MaskWords(data, at, len, i, kcur, key);
    ghost var words := data[..];
    MaskedJoin(before, lead, words, at, len, i, j, key);
    MaskTail(data, at, len, j, key);
    MaskedJoin(before, words, data[..], at, len, j, len, key);
    SpliceIs(before, at, MaskSeq(before[at..at + len], key), data[..]);
  }
}
