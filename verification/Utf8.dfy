/** The streaming UTF-8 automaton of src/core/utf8.c and what it accepts (section 4 of RFC 3629). */
module Utf8 {
  import opened Bytes

  /** The value of a `ws_utf8_state`: bytes still due and the range of the next one. */
  datatype Cursor = Cursor(remaining: nat, lo: byte, hi: byte)

  const START := Cursor(0, 0, 0)

  // ----- What UTF-8 is -----

  predicate IsScalar(v: int) {
    0 <= v <= 0x10FFFF && !(0xD800 <= v <= 0xDFFF)
  }

  type Scalar = v: int | 0 <= v <= 0x10FFFF && !(0xD800 <= v <= 0xDFFF)

  function Tail6(v: nat): byte {
    0x80 + v % 64
  }

  /** The UTF-8 form of one Unicode scalar value. */
  function Encode(v: Scalar): (s: seq<byte>)
    ensures 1 <= |s| <= 4
  {
    var v: int := v;
    if v <= 0x7F then [v]
    else if v <= 0x7FF then [0xC0 + v / 64, Tail6(v)]
    else if v <= 0xFFFF then [0xE0 + v / 4096, Tail6(v / 64), Tail6(v)]
    else [0xF0 + v / 262144, Tail6(v / 4096), Tail6(v / 64), Tail6(v)]
  }

  function EncodeAll(vs: seq<Scalar>): seq<byte> {
    if vs == [] then [] else Encode(vs[0]) + EncodeAll(vs[1..])
  }

  ghost predicate WellFormed(s: seq<byte>) {
    exists vs: seq<Scalar> :: EncodeAll(vs) == s
  }

  /** Some continuation makes `s` well formed. */
  ghost predicate Viable(s: seq<byte>) {
    exists t: seq<byte> :: WellFormed(s + t)
  }

  // ----- The automaton -----

  predicate IsLead(b: byte) {
    b <= 0x7F || 0xC2 <= b <= 0xF4
  }

  /** `feed_byte` succeeds. */
  predicate Accepts(c: Cursor, b: byte) {
    if c.remaining == 0 then IsLead(b) else c.lo <= b <= c.hi
  }

  /** The state after a lead byte: sequence length and the range of the first continuation byte. */
  function AfterLead(c: Cursor, b: byte): Cursor
    requires IsLead(b)
  {
    if b <= 0x7F then c.(remaining := 0)
    else if b <= 0xDF then Cursor(1, 0x80, 0xBF)
    else if b <= 0xEF then Cursor(2, if b == 0xE0 then 0xA0 else 0x80, if b == 0xED then 0x9F else 0xBF)
    else Cursor(3, if b == 0xF0 then 0x90 else 0x80, if b == 0xF4 then 0x8F else 0xBF)
  }

  function Next(c: Cursor, b: byte): Cursor
    requires Accepts(c, b)
  {
    if c.remaining == 0 then AfterLead(c, b) else Cursor(c.remaining - 1, 0x80, 0xBF)
  }

  /** `ws_utf8_feed`: the state reached, and whether every byte was accepted. */
  function Feed(c: Cursor, s: seq<byte>): (Cursor, bool)
    decreases |s|
  {
    if s == [] then (c, true)
    else if Accepts(c, s[0]) then Feed(Next(c, s[0]), s[1..])
    else (c, false)
  }

  /** What `remaining/lo/hi` look like in every reachable state. */
  predicate Reachable(c: Cursor) {
    c.remaining <= 3 && (c.remaining > 0 ==> 0x80 <= c.lo <= c.hi <= 0xBF)
  }

  lemma {:induction false} FeedReachable(c: Cursor, s: seq<byte>)
    requires Reachable(c)
    ensures Reachable(Feed(c, s).0)
    decreases |s|
  {
    if s != [] && Accepts(c, s[0]) {
      FeedReachable(Next(c, s[0]), s[1..]);
    }
  }

  lemma FeedNothing(c: Cursor)
    ensures Feed(c, []) == (c, true)
  {
  }

  /** Fragment independence: feeding a then b is feeding a + b. */
  lemma {:induction false} FeedConcat(c: Cursor, a: seq<byte>, b: seq<byte>)
    ensures Feed(c, a + b) == if Feed(c, a).1 then Feed(Feed(c, a).0, b) else Feed(c, a)
    decreases |a|
  {
    if a == [] {
      assert a + b == b;
    } else {
      assert (a + b)[1..] == a[1..] + b;
      if Accepts(c, a[0]) {
        FeedConcat(Next(c, a[0]), a[1..], b);
      }
    }
  }

  // ----- One scalar at a time -----

  /** The lead byte and the continuation bytes of a scalar are the ones the automaton expects. */
  lemma ScalarBytes(v: Scalar)
    ensures var e := Encode(v);
      && IsLead(e[0])
      && (|e| == 1 <==> e[0] <= 0x7F)
      && (|e| > 1 ==>
           var c := AfterLead(START, e[0]);
           c.remaining == |e| - 1 && c.lo <= e[1] <= c.hi && forall k :: 2 <= k < |e| ==> 0x80 <= e[k] <= 0xBF)
  {
  }

  lemma {:induction false} FeedTail(c: Cursor, s: seq<byte>)
    requires c.remaining == |s| && (s != [] ==> c.lo <= s[0] <= c.hi)
    requires forall k :: 1 <= k < |s| ==> 0x80 <= s[k] <= 0xBF
    ensures Feed(c, s).1 && Feed(c, s).0.remaining == 0
    decreases |s|
  {
    if s != [] {
      FeedTail(Next(c, s[0]), s[1..]);
    }
  }

  /** The automaton accepts the form of every scalar and ends at a boundary. */
  lemma AcceptsScalar(c: Cursor, v: Scalar)
    requires c.remaining == 0
    ensures Feed(c, Encode(v)).1 && Feed(c, Encode(v)).0.remaining == 0
  {
    hide Encode;
    ScalarBytes(v);
    FeedTail(Next(c, Encode(v)[0]), Encode(v)[1..]);
  }

  /** The number of bytes that a lead byte announces. */
  function SeqLen(b: byte): (n: nat)
    requires IsLead(b)
    ensures 1 <= n <= 4
  {
    if b <= 0x7F then 1 else if b <= 0xDF then 2 else if b <= 0xEF then 3 else 4
  }

  /** The scalar that an accepted sequence starts with. */
  function Decode(s: seq<byte>): int
    requires s != [] && IsLead(s[0]) && SeqLen(s[0]) <= |s|
  {
    var n, a: int := SeqLen(s[0]), s[0];
    if n == 1 then a
    else
      var b: int := s[1];
      if n == 2 then (a - 0xC0) * 64 + (b - 0x80)
      else
        var c: int := s[2];
        if n == 3 then (a - 0xE0) * 4096 + (b - 0x80) * 64 + (c - 0x80)
        else
          var d: int := s[3];
          (a - 0xF0) * 262144 + (b - 0x80) * 4096 + (c - 0x80) * 64 + (d - 0x80)
  }

  /** What acceptance of the continuation bytes says about them. */
  lemma AcceptedHead(c: Cursor, s: seq<byte>)
    requires c.remaining == 0 && s != [] && Feed(c, s).1 && Feed(c, s).0.remaining == 0
    ensures IsLead(s[0]) && SeqLen(s[0]) <= |s|
    ensures var n, c1 := SeqLen(s[0]), AfterLead(c, s[0]);
      && (n > 1 ==> c1.lo <= s[1] <= c1.hi)
      && (n > 2 ==> 0x80 <= s[2] <= 0xBF)
      && (n > 3 ==> 0x80 <= s[3] <= 0xBF)
    ensures var n := SeqLen(s[0]);
      exists d: Cursor :: d.remaining == 0 && Feed(d, s[n..]) == Feed(c, s)
  {
    var n := SeqLen(s[0]);
    var c1 := Next(c, s[0]);
    assert Feed(c1, s[1..]) == Feed(c, s);
    if n == 1 {
      assert c1.remaining == 0;
    } else {
      assert s[1..] != [];
      var c2 := Next(c1, s[1]);
      assert s[1..][1..] == s[2..];
      assert Feed(c2, s[2..]) == Feed(c, s);
      if n == 2 {
        assert c2.remaining == 0;
      } else {
        assert s[2..] != [];
        var c3 := Next(c2, s[2]);
        assert s[2..][1..] == s[3..];
        assert Feed(c3, s[3..]) == Feed(c, s);
        if n == 3 {
          assert c3.remaining == 0;
        } else {
          assert s[3..] != [];
          assert s[3..][1..] == s[4..];
          assert Feed(Next(c3, s[3]), s[4..]) == Feed(c, s);
        }
      }
    }
  }

  lemma DecodeIsScalar(c: Cursor, s: seq<byte>)
    requires c.remaining == 0 && s != [] && Feed(c, s).1 && Feed(c, s).0.remaining == 0
    ensures IsLead(s[0]) && SeqLen(s[0]) <= |s|
    ensures IsScalar(Decode(s)) && Encode(Decode(s)) == s[..SeqLen(s[0])]
  {
    hide Feed, Decode, Encode;
    AcceptedHead(c, s);
    var n := SeqLen(s[0]);
    var form := s[..n];
    DecodePrefix(s);
    if n == 1 {
      Decode1(form);
    } else if n == 2 {
      Decode2(form);
    } else if n == 3 {
      Decode3(form, c);
    } else {
      Decode4(form, c);
    }
  }

  lemma DecodePrefix(s: seq<byte>)
    requires s != [] && IsLead(s[0]) && SeqLen(s[0]) <= |s|
    ensures Decode(s[..SeqLen(s[0])]) == Decode(s)
  {
  }

  lemma Decode1(s: seq<byte>)
    requires |s| == 1 && s[0] <= 0x7F
    ensures IsScalar(Decode(s)) && Encode(Decode(s)) == s
  {
  }

  lemma Decode2(s: seq<byte>)
    requires |s| == 2 && 0xC2 <= s[0] <= 0xDF && 0x80 <= s[1] <= 0xBF
    ensures IsScalar(Decode(s)) && Encode(Decode(s)) == s
  {
    Digits2(s[0] - 0xC0, s[1] - 0x80);
  }

  lemma Decode3(s: seq<byte>, c: Cursor)
    requires |s| == 3 && 0xE0 <= s[0] <= 0xEF
    requires AfterLead(c, s[0]).lo <= s[1] <= AfterLead(c, s[0]).hi && 0x80 <= s[2] <= 0xBF
    ensures IsScalar(Decode(s)) && Encode(Decode(s)) == s
  {
    Digits3(s[0] - 0xE0, s[1] - 0x80, s[2] - 0x80);
  }

  lemma Decode4(s: seq<byte>, c: Cursor)
    requires |s| == 4 && 0xF0 <= s[0] <= 0xF4
    requires AfterLead(c, s[0]).lo <= s[1] <= AfterLead(c, s[0]).hi && 0x80 <= s[2] <= 0xBF && 0x80 <= s[3] <= 0xBF
    ensures IsScalar(Decode(s)) && Encode(Decode(s)) == s
  {
    Digits4(s[0] - 0xF0, s[1] - 0x80, s[2] - 0x80, s[3] - 0x80);
  }

  lemma Digits2(a: nat, b: nat)
    requires b < 64
    ensures (a * 64 + b) / 64 == a && (a * 64 + b) % 64 == b
  {
  }

  lemma Digits3(a: nat, b: nat, c: nat)
    requires b < 64 && c < 64
    ensures var v := a * 4096 + b * 64 + c; v / 4096 == a && (v / 64) % 64 == b && v % 64 == c
  {
    assert (a * 4096 + b * 64 + c) / 64 == a * 64 + b;
  }

  lemma Digits4(a: nat, b: nat, c: nat, d: nat)
    requires b < 64 && c < 64 && d < 64
    ensures var v := a * 262144 + b * 4096 + c * 64 + d;
      v / 262144 == a && (v / 4096) % 64 == b && (v / 64) % 64 == c && v % 64 == d
  {
    assert (a * 262144 + b * 4096 + c * 64 + d) / 64 == a * 4096 + b * 64 + c;
    assert (a * 262144 + b * 4096 + c * 64 + d) / 4096 == a * 64 + b;
  }

  // ----- What the automaton accepts -----

  lemma {:induction false} AcceptsWellFormed(c: Cursor, vs: seq<Scalar>)
    requires c.remaining == 0
    ensures Feed(c, EncodeAll(vs)).1 && Feed(c, EncodeAll(vs)).0.remaining == 0
    decreases |vs|
  {
    if vs != [] {
      AcceptsScalar(c, vs[0]);
      FeedConcat(c, Encode(vs[0]), EncodeAll(vs[1..]));
      AcceptsWellFormed(Feed(c, Encode(vs[0])).0, vs[1..]);
    }
  }

  lemma {:induction false} DecodeAll(c: Cursor, s: seq<byte>) returns (vs: seq<Scalar>)
    requires c.remaining == 0 && Feed(c, s).1 && Feed(c, s).0.remaining == 0
    ensures EncodeAll(vs) == s
    decreases |s|
  {
    if s == [] {
      vs := [];
    } else {
      AcceptedHead(c, s);
      DecodeIsScalar(c, s);
      var n := SeqLen(s[0]);
      var d: Cursor :| d.remaining == 0 && Feed(d, s[n..]) == Feed(c, s);
      var rest := DecodeAll(d, s[n..]);
      vs := [Decode(s)] + rest;
      assert vs[1..] == rest;
      assert s == s[..n] + s[n..];
    }
  }

  /** `ws_utf8_valid`, as a function. */
  predicate Valid(s: seq<byte>) {
    Feed(START, s).1 && Feed(START, s).0.remaining == 0
  }

  /** The validator accepts exactly the concatenations of encoded scalar values. */
  lemma ValidIsWellFormed(s: seq<byte>)
    ensures Valid(s) <==> WellFormed(s)
  {
    if Valid(s) {
      var vs := DecodeAll(START, s);
    }
    if WellFormed(s) {
      var vs: seq<Scalar> :| EncodeAll(vs) == s;
      AcceptsWellFormed(START, vs);
    }
  }

  /** No form of a scalar is a prefix of the form of another. */
  lemma EncodePrefixFree(v: Scalar, w: Scalar, x: seq<byte>, y: seq<byte>)
    requires Encode(v) + x == Encode(w) + y
    ensures v == w && x == y
  {
    var e, f := Encode(v), Encode(w);
    var s := e + x;
    assert s[0] == e[0] == f[0];
    assert |e| == |f|;
    assert forall i :: 0 <= i < |e| ==> s[i] == e[i] && s[i] == f[i];
    assert v == w by { EncodeInjective(v, w); }
    assert x == s[|e|..] && y == s[|f|..];
  }

  lemma EncodeInjective(v: Scalar, w: Scalar)
    requires |Encode(v)| == |Encode(w)|
    requires forall i :: 0 <= i < |Encode(v)| ==> Encode(v)[i] == Encode(w)[i]
    ensures v == w
  {
    DecodeEncode(v);
    DecodeEncode(w);
    assert Encode(v) == Encode(w);
  }

  lemma DecodeEncode(v: Scalar)
    ensures IsLead(Encode(v)[0]) && SeqLen(Encode(v)[0]) == |Encode(v)|
    ensures Decode(Encode(v)) == v
  {
    var e := Encode(v);
    if |e| == 2 {
      assert e == [0xC0 + v / 64, Tail6(v)];
    } else if |e| == 3 {
      assert e == [0xE0 + v / 4096, Tail6(v / 64), Tail6(v)];
      assert v / 64 / 64 == v / 4096;
    } else if |e| == 4 {
      assert e == [0xF0 + v / 262144, Tail6(v / 4096), Tail6(v / 64), Tail6(v)];
      assert v / 64 / 64 == v / 4096 && v / 4096 / 64 == v / 262144;
    }
  }

  /** A well-formed string is the encoding of only one sequence of scalars. */
  lemma {:induction false} DecodingIsUnique(vs: seq<Scalar>, ws: seq<Scalar>)
    requires EncodeAll(vs) == EncodeAll(ws)
    ensures vs == ws
    decreases |vs|
  {
    if vs != [] && ws != [] {
      EncodePrefixFree(vs[0], ws[0], EncodeAll(vs[1..]), EncodeAll(ws[1..]));
      DecodingIsUnique(vs[1..], ws[1..]);
      assert vs == [vs[0]] + vs[1..] && ws == [ws[0]] + ws[1..];
    }
  }

  /** Bytes that lead a reachable state back to a boundary. */
  function Completion(c: Cursor): seq<byte> {
    if c.remaining == 0 then []
    else if c.remaining == 1 then [c.lo]
    else if c.remaining == 2 then [c.lo, 0x80]
    else [c.lo, 0x80, 0x80]
  }

  lemma CompletionWorks(c: Cursor)
    requires Reachable(c)
    ensures Feed(c, Completion(c)).1 && Feed(c, Completion(c)).0.remaining == 0
  {
    FeedTail(c, Completion(c));
  }

  /** Fail-fast exactness: the feed succeeds exactly on the prefixes of well-formed strings. */
  lemma FeedIsViable(s: seq<byte>)
    ensures Feed(START, s).1 <==> Viable(s)
  {
    if Feed(START, s).1 {
      FeedReachable(START, s);
      var c := Feed(START, s).0;
      CompletionWorks(c);
      FeedConcat(START, s, Completion(c));
      ValidIsWellFormed(s + Completion(c));
    }
    if Viable(s) {
      var t: seq<byte> :| WellFormed(s + t);
      ValidIsWellFormed(s + t);
      FeedConcat(START, s, t);
    }
  }

  // ----- The C code -----

  /** `ws_utf8_state`, updated in place. */
  class State {
    var remaining: nat
    var lo: byte
    var hi: byte

    ghost function Value(): Cursor
      reads this
    {
      Cursor(remaining, lo, hi)
    }

    constructor ()
      ensures Value() == START
    {
      remaining, lo, hi := 0, 0, 0;
    }

    /** The `ws_memset` to zero at the start of a text message. */
    method Reset()
      modifies this
      ensures Value() == START
    {
      remaining, lo, hi := 0, 0, 0;
    }

    method SetSeq(r: nat, l: byte, h: byte)
      modifies this
      ensures Value() == Cursor(r, l, h)
    {
      remaining, lo, hi := r, l, h;
    }

    method LeadAscii()
      modifies this
      ensures Value() == old(Value()).(remaining := 0)
    {
      remaining := 0;
    }

    method Lead2Byte()
      modifies this
      ensures Value() == Cursor(1, 0x80, 0xBF)
    {
      SetSeq(1, 0x80, 0xBF);
    }

    /** No overlong forms after E0, no surrogates after ED. */
    method Lead3Byte(b: byte)
      modifies this
      ensures Value() == Cursor(2, if b == 0xE0 then 0xA0 else 0x80, if b == 0xED then 0x9F else 0xBF)
    {
      SetSeq(2, if b == 0xE0 then 0xA0 else 0x80, if b == 0xED then 0x9F else 0xBF);
    }

    /** No overlong forms after F0, nothing above U+10FFFF after F4. */
    method Lead4Byte(b: byte)
      modifies this
      ensures Value() == Cursor(3, if b == 0xF0 then 0x90 else 0x80, if b == 0xF4 then 0x8F else 0xBF)
    {
      SetSeq(3, if b == 0xF0 then 0x90 else 0x80, if b == 0xF4 then 0x8F else 0xBF);
    }

    /** The testers: the count of extra bytes, or -1 when the byte is not of that kind. */
    method TryAscii(b: byte) returns (extra: int)
      modifies this
      ensures if b <= 0x7F then extra == 0 && Value() == AfterLead(old(Value()), b)
              else extra == -1 && Value() == old(Value())
    {
      if b > 0x7F {
        return -1;
      }
      LeadAscii();
      return 0;
    }

    method Try2Byte(b: byte) returns (extra: int)
      modifies this
      ensures if 0xC2 <= b <= 0xDF then extra == 1 && Value() == AfterLead(old(Value()), b)
              else extra == -1 && Value() == old(Value())
    {
      if b < 0xC2 || b > 0xDF {
        return -1;
      }
      Lead2Byte();
      return 1;
    }

    method Try3Byte(b: byte) returns (extra: int)
      modifies this
      ensures if 0xE0 <= b <= 0xEF then extra == 2 && Value() == AfterLead(old(Value()), b)
              else extra == -1 && Value() == old(Value())
    {
      if b < 0xE0 || b > 0xEF {
        return -1;
      }
      Lead3Byte(b);
      return 2;
    }

    method Try4Byte(b: byte) returns (extra: int)
      modifies this
      ensures if 0xF0 <= b <= 0xF4 then extra == 3 && Value() == AfterLead(old(Value()), b)
              else extra == -1 && Value() == old(Value())
    {
      if b < 0xF0 || b > 0xF4 {
        return -1;
      }
      Lead4Byte(b);
      return 3;
    }

    /** Entry k of the table of testers. */
    method TryLead(k: nat, b: byte) returns (extra: int)
      requires k < 4
      modifies this
      ensures var mine := if k == 0 then b <= 0x7F else if k == 1 then 0xC2 <= b <= 0xDF
                          else if k == 2 then 0xE0 <= b <= 0xEF else 0xF0 <= b <= 0xF4;
        && extra == (if mine then k else -1)
        && Value() == if mine then AfterLead(old(Value()), b) else old(Value())
    {
      if k == 0 {
        extra := TryAscii(b);
      } else if k == 1 {
        extra := Try2Byte(b);
      } else if k == 2 {
        extra := Try3Byte(b);
      } else {
        extra := Try4Byte(b);
      }
    }

    method ClassifyLead(b: byte) returns (ok: bool)
      modifies this
      ensures ok == IsLead(b)
      ensures Value() == if ok then AfterLead(old(Value()), b) else old(Value())
    {
      var k := 0;
      while k < 4
        invariant k <= 4 && Value() == old(Value())
        invariant k > 0 ==> b > 0x7F
        invariant k > 1 ==> !(0xC2 <= b <= 0xDF)
        invariant k > 2 ==> !(0xE0 <= b <= 0xEF)
        invariant k > 3 ==> !(0xF0 <= b <= 0xF4)
      {
        var extra := TryLead(k, b);
        if extra >= 0 {
          return true;
        }
        k := k + 1;
      }
      return false;
    }

    method FeedCont(b: byte) returns (ok: bool)
      requires remaining > 0
      modifies this
      ensures ok == (old(lo) <= b <= old(hi))
      ensures Value() == if ok then Cursor(old(remaining) - 1, 0x80, 0xBF) else old(Value())
    {
      if !(lo <= b <= hi) {
        return false;
      }
      remaining := remaining - 1;
      lo, hi := 0x80, 0xBF;
      return true;
    }

    method FeedByte(b: byte) returns (ok: bool)
      modifies this
      ensures ok == Accepts(old(Value()), b)
      ensures Value() == if ok then Next(old(Value()), b) else old(Value())
    {
      if remaining == 0 {
        ok := ClassifyLead(b);
      } else {
        ok := FeedCont(b);
      }
    }

    /** `ws_utf8_feed` over buf[from..from + len]. */
    method FeedBytes(buf: array<byte>, from: nat, len: nat) returns (ok: bool)
      requires from + len <= buf.Length
      modifies this
      ensures (Value(), ok) == Feed(old(Value()), buf[from..from + len])
    {
      var i := 0;
      while i < len
        invariant i <= len
        invariant Feed(old(Value()), buf[from..from + len]) == Feed(Value(), buf[from + i..from + len])
      {
        assert buf[from + i..from + len][1..] == buf[from + i + 1..from + len];
        ok := FeedByte(buf[from + i]);
        if !ok {
          return false;
        }
        i := i + 1;
      }
      return true;
    }

    method Complete() returns (done: bool)
      ensures done == (Value().remaining == 0)
    {
      return remaining == 0;
    }
  }

  /** `ws_utf8_valid`: accepts exactly the well-formed strings. */
  method IsValid(buf: array<byte>, len: nat) returns (ok: bool)
    requires len <= buf.Length
    ensures ok <==> WellFormed(buf[..len])
  {
    var s := new State();
    ok := s.FeedBytes(buf, 0, len);
    if ok {
      ok := s.Complete();
    }
    ValidIsWellFormed(buf[..len]);
  }
}
