/** The base64 encoder of src/protocol/base64.c and its inverse (section 4 of RFC 4648). */
module Base64 {
  import opened Bytes

  const PAD: byte := 61

  /** The alphabet: A-Z, a-z, 0-9, plus and slash, as ASCII codes. */
  function Symbol(v: nat): (c: byte)
    requires v < 64
    ensures c != PAD
  {
    if v < 26 then 65 + v else if v < 52 then 71 + v else if v < 62 then v - 4 else if v == 62 then 43 else 47
  }

  /** The position of a character in the alphabet. */
  function Value(c: byte): Option<nat> {
    if 65 <= c <= 90 then Some(c - 65)
    else if 97 <= c <= 122 then Some(c - 71)
    else if 48 <= c <= 57 then Some(c + 4)
    else if c == 43 then Some(62)
    else if c == 47 then Some(63)
    else None
  }

  lemma SymbolValue(v: nat, c: byte)
    requires v < 64
    ensures Value(c) == Some(v) <==> c == Symbol(v)
  {
  }

  /** Four characters for the 24-bit value v. */
  function Quad(v: nat): (s: seq<byte>)
    ensures |s| == 4 && PAD !in s
  {
    [Symbol((v / 262144) % 64), Symbol((v / 4096) % 64), Symbol((v / 64) % 64), Symbol(v % 64)]
  }

  function Word3(a: byte, b: byte, c: byte): nat {
    65536 * a + 256 * b + c
  }

  /** The encoding of a byte string. */
  function Encode(s: seq<byte>): seq<byte>
    decreases |s|
  {
    if s == [] then []
    else if |s| == 1 then Quad(Word3(s[0], 0, 0))[..2] + [PAD, PAD]
    else if |s| == 2 then Quad(Word3(s[0], s[1], 0))[..3] + [PAD]
    else Quad(Word3(s[0], s[1], s[2])) + Encode(s[3..])
  }

  lemma {:induction false} EncodeLength(s: seq<byte>)
    ensures |Encode(s)| == 4 * ((|s| + 2) / 3)
    decreases |s|
  {
    hide Quad;
    if |s| >= 3 {
      EncodeLength(s[3..]);
    }
  }

  /** Padding stands at the end only: none, one or two characters by the length mod 3. */
  lemma {:induction false} EncodePadding(s: seq<byte>, i: nat)
    requires i < |Encode(s)|
    ensures Encode(s)[i] == 61 <==> i + (3 - |s| % 3) % 3 >= |Encode(s)|
    decreases |s|
  {
    hide Quad, Word3;
    EncodeLength(s);
    if |s| >= 3 {
      assert |s[3..]| % 3 == |s| % 3;
      EncodeLength(s[3..]);
      if i >= 4 {
        EncodePadding(s[3..], i - 4);
      } else {
        assert Encode(s)[i] == Quad(Word3(s[0], s[1], s[2]))[i];
      }
    } else if i < |s| + 1 {
      assert Encode(s)[i] in Quad(Word3(s[0], if |s| == 2 then s[1] else 0, 0));
    }
  }

  /** So an encoding that is not of whole groups ends in an equals sign. */
  lemma EndsPadded(s: seq<byte>)
    requires |s| % 3 != 0
    ensures Encode(s) != [] && Encode(s)[|Encode(s)| - 1] == 61
  {
    hide Encode;
    EncodeLength(s);
    EncodePadding(s, |Encode(s)| - 1);
  }

  // ----- A strict decoder -----

  datatype Sextets = Sextets(w: nat, x: nat, y: nat, z: nat)

  /** The four 6-bit groups of three bytes. */
  function Split(a: byte, b: byte, c: byte): Sextets {
    Sextets(a / 4, 16 * (a % 4) + b / 16, 4 * (b % 16) + c / 64, c % 64)
  }

  lemma SplitIsWord(a: byte, b: byte, c: byte)
    ensures var v, q := Word3(a, b, c), Split(a, b, c);
      (v / 262144) % 64 == q.w < 64 && (v / 4096) % 64 == q.x < 64 && (v / 64) % 64 == q.y < 64 && v % 64 == q.z < 64
  {
    var a: int, b: int, c: int := a, b, c;
    Shifted(a, b, c);
    LowSextet(a, b / 16);
    MidSextet(a, b, c / 64);
  }

  lemma LowSextet(a: nat, h: nat)
    requires h < 16
    ensures (16 * a + h) % 64 == 16 * (a % 4) + h
  {
    assert 16 * a + h == 64 * (a / 4) + (16 * (a % 4) + h);
  }

  lemma MidSextet(a: nat, b: nat, h: nat)
    requires h < 4
    ensures (1024 * a + 4 * b + h) % 64 == 4 * (b % 16) + h
  {
    assert 1024 * a + 4 * b + h == 64 * (16 * a + b / 16) + (4 * (b % 16) + h);
  }

  lemma Shifted(a: int, b: int, c: int)
    requires 0 <= a < 256 && 0 <= b < 256 && 0 <= c < 256
    ensures var v := 65536 * a + 256 * b + c;
      v / 64 == 1024 * a + 4 * b + c / 64 && v / 4096 == 16 * a + b / 16 && v / 262144 == a / 4 && v % 64 == c % 64
  {
  }

  /** Three bytes from four 6-bit groups. */
  function Join(q: Sextets): (s: seq<byte>)
    requires q.w < 64 && q.x < 64 && q.y < 64 && q.z < 64
    ensures |s| == 3
  {
    [4 * q.w + q.x / 16, 16 * (q.x % 16) + q.y / 4, 64 * (q.y % 4) + q.z]
  }

  lemma JoinSplit(q: Sextets, a: byte, b: byte, c: byte)
    requires q.w < 64 && q.x < 64 && q.y < 64 && q.z < 64
    ensures Join(q) == [a, b, c] <==> q == Split(a, b, c)
  {
    var v: int, x: int, y: int := a, b, c;
    assert v == 4 * (v / 4) + v % 4 && x == 16 * (x / 16) + x % 16 && y == 64 * (y / 64) + y % 64;
    if q == Split(a, b, c) {
      assert q.x / 16 == a % 4 && q.x % 16 == b / 16 && q.y / 4 == b % 16 && q.y % 4 == c / 64;
    }
  }

  /** The 6-bit groups that four characters stand for. */
  function Groups(t0: byte, t1: byte, t2: byte, t3: byte): (r: Option<Sextets>)
    ensures r.Some? ==> r.value.w < 64 && r.value.x < 64 && r.value.y < 64 && r.value.z < 64
  {
    match (Value(t0), Value(t1), Value(t2), Value(t3))
    case (Some(w), Some(x), Some(y), Some(z)) => Some(Sextets(w, x, y, z))
    case _ => None
  }

  const ZERO: byte := 65

  /** Reads groups of four; padding only in the last one, and only over zero bits. */
  function Decode(t: seq<byte>): Option<seq<byte>>
    decreases |t|
  {
    if t == [] then Some([])
    else if |t| < 4 then None
    else
      var padded := |t| == 4 && t[3] == PAD;
      var double := padded && t[2] == PAD;
      match Groups(t[0], t[1], if double then ZERO else t[2], if padded then ZERO else t[3])
      case None => None
      case Some(q) =>
        var s := Join(q);
        if double then if s[1] == 0 && s[2] == 0 then Some(s[..1]) else None
        else if padded then if s[2] == 0 then Some(s[..2]) else None
        else
          match Decode(t[4..])
          case None => None
          case Some(rest) => Some(s + rest)
  }

  /** Four characters stand for three bytes exactly when they are their quad. */
  lemma GroupsAre(t0: byte, t1: byte, t2: byte, t3: byte, a: byte, b: byte, c: byte)
    ensures Groups(t0, t1, t2, t3).Some? && Join(Groups(t0, t1, t2, t3).value) == [a, b, c]
       <==> [t0, t1, t2, t3] == Quad(Word3(a, b, c))
  {
    hide Symbol, Value, Word3, Split, Join;
    var q := Split(a, b, c);
    SplitIsWord(a, b, c);
    SymbolValue(q.w, t0);
    SymbolValue(q.x, t1);
    SymbolValue(q.y, t2);
    SymbolValue(q.z, t3);
    if Groups(t0, t1, t2, t3).Some? {
      JoinSplit(Groups(t0, t1, t2, t3).value, a, b, c);
    }
  }

  /** With two known zero bytes the last two characters of the quad are the first of the alphabet. */
  lemma ZeroTail(a: byte, b: byte)
    ensures Quad(Word3(a, b, 0))[3] == ZERO
    ensures Quad(Word3(a, 0, 0))[2] == ZERO
  {
    SplitIsWord(a, b, 0);
    SplitIsWord(a, 0, 0);
  }

  lemma WholeGroup(s: seq<byte>, t: seq<byte>)
    requires |t| >= 4 && !(|t| == 4 && t[3] == PAD)
    ensures Decode(t) == Some(s) <==>
      |s| >= 3 && t[..4] == Quad(Word3(s[0], s[1], s[2])) && Decode(t[4..]) == Some(s[3..])
  {
    hide Quad, Word3, Groups, Join;
    if |s| >= 3 {
      GroupsAre(t[0], t[1], t[2], t[3], s[0], s[1], s[2]);
      assert t[..4] == [t[0], t[1], t[2], t[3]];
      assert s == [s[0], s[1], s[2]] + s[3..];
      HeadOf(s, t);
    }
  }

  lemma HeadOf(s: seq<byte>, t: seq<byte>)
    requires |t| >= 4 && |s| >= 3
    ensures forall head: seq<byte>, rest: seq<byte> :: |head| == 3 ==>
      (head + rest == s <==> head == [s[0], s[1], s[2]] && rest == s[3..])
  {
    forall head: seq<byte>, rest: seq<byte> | |head| == 3
      ensures head + rest == s <==> head == [s[0], s[1], s[2]] && rest == s[3..]
    {
      if head + rest == s {
        assert (head + rest)[..3] == head && (head + rest)[3..] == rest;
      }
      if head == [s[0], s[1], s[2]] && rest == s[3..] {
        assert s == head + rest;
      }
    }
  }

  lemma OneByteGroup(a: byte, t: seq<byte>)
    requires |t| == 4 && t[3] == PAD
    ensures Decode(t) == Some([a]) <==> t == Encode([a])
  {
    hide Quad, Word3, Groups, Join;
    GroupsAre(t[0], t[1], ZERO, ZERO, a, 0, 0);
    ZeroTail(a, 0);
    var quad := Quad(Word3(a, 0, 0));
    assert quad == [quad[0], quad[1], quad[2], quad[3]] && t == [t[0], t[1], t[2], t[3]];
    assert Encode([a]) == [quad[0], quad[1], PAD, PAD];
    if Groups(t[0], t[1], ZERO, ZERO).Some? {
      var j := Join(Groups(t[0], t[1], ZERO, ZERO).value);
      assert j == [j[0], j[1], j[2]] && j[..1] == [j[0]];
    }
  }

  lemma TwoByteGroup(a: byte, b: byte, t: seq<byte>)
    requires |t| == 4 && t[3] == PAD
    ensures Decode(t) == Some([a, b]) <==> t == Encode([a, b])
  {
    hide Quad, Word3, Groups, Join;
    GroupsAre(t[0], t[1], t[2], ZERO, a, b, 0);
    ZeroTail(a, b);
    var quad := Quad(Word3(a, b, 0));
    assert quad[2] in quad;
    assert quad == [quad[0], quad[1], quad[2], quad[3]] && t == [t[0], t[1], t[2], t[3]];
    assert Encode([a, b]) == [quad[0], quad[1], quad[2], PAD];
    if Groups(t[0], t[1], t[2], ZERO).Some? {
      var j := Join(Groups(t[0], t[1], t[2], ZERO).value);
      assert j == [j[0], j[1], j[2]] && j[..2] == [j[0], j[1]];
    }
  }

  lemma PaddedGroup(s: seq<byte>, t: seq<byte>)
    requires |t| == 4 && t[3] == PAD
    ensures Decode(t) == Some(s) <==> t == Encode(s)
  {
    hide Quad, Word3, Groups, Join;
    EncodeLength(s);
    if |s| == 1 {
      assert s == [s[0]];
      OneByteGroup(s[0], t);
    } else if |s| == 2 {
      assert s == [s[0], s[1]];
      TwoByteGroup(s[0], s[1], t);
    } else if |s| == 3 {
      assert Encode(s)[3] in Quad(Word3(s[0], s[1], s[2]));
    }
  }

  /** The decoder accepts exactly the encodings, each as the encoding of one byte string. */
  lemma {:induction false} DecodeIsInverse(s: seq<byte>, t: seq<byte>)
    ensures Decode(t) == Some(s) <==> t == Encode(s)
    decreases |t|
  {
    hide Quad, Groups, Join, Word3;
    EncodeLength(s);
    if |t| < 4 {
    } else if |t| == 4 && t[3] == PAD {
      PaddedGroup(s, t);
    } else {
      WholeGroup(s, t);
      if |s| >= 3 {
        DecodeIsInverse(s[3..], t[4..]);
        assert t == t[..4] + t[4..];
      } else if s != [] {
        EncodePadding(s, |Encode(s)| - 1);
      }
    }
  }

  // ----- The C encoder -----

  /** `b64_quad` at an offset. */
  method PutQuad(out: array<byte>, o: nat, v: nat)
    requires o + 4 <= out.Length
    modifies out
    ensures out[..] == Splice(old(out[..]), o, Quad(v))
  {
    hide Symbol;
    out[o] := Symbol((v / 262144) % 64);
    out[o + 1] := Symbol((v / 4096) % 64);
    out[o + 2] := Symbol((v / 64) % 64);
    out[o + 3] := Symbol(v % 64);
    SpliceIs(old(out[..]), o, Quad(v), out[..]);
  }

  /** `b64_tail2`: one or two bytes left. */
  method PutTail(out: array<byte>, o: nat, data: array<byte>, i: nat, rem: nat)
    requires (rem == 1 || rem == 2) && i + rem <= data.Length && o + 4 <= out.Length && data != out
    modifies out
    ensures out[..] == Splice(old(out[..]), o, Encode(data[i..i + rem]))
  {
    hide Quad, Word3;
    ghost var before := out[..];
    ghost var tail := data[i..i + rem];
    EncodeLength(tail);
    ghost var w := Word3(data[i], if rem == 2 then data[i + 1] else 0, 0);
    var a: int, b: int := data[i], if rem == 2 then data[i + 1] else 0;
    var v := 65536 * a + 256 * b;
    WordIs(data[i], if rem == 2 then data[i + 1] else 0);
    PutQuad(out, o, v);
    out[o + 3] := PAD;
    if rem == 1 {
      out[o + 2] := PAD;
    }
    SpliceIs(before, o, Encode(tail), out[..]);
  }

  lemma WordIs(a: byte, b: byte)
    ensures Word3(a, b, 0) == 65536 * a + 256 * b
  {
  }

  lemma {:induction false} EncodeConcat(a: seq<byte>, b: seq<byte>)
    requires |a| % 3 == 0
    ensures Encode(a + b) == Encode(a) + Encode(b)
    decreases |a|
  {
    hide Quad, Word3;
    if a == [] {
      assert a + b == b;
    } else {
      assert (a + b)[3..] == a[3..] + b;
      EncodeConcat(a[3..], b);
    }
  }

  lemma EncodeThree(s: seq<byte>)
    requires |s| == 3
    ensures Encode(s) == Quad(Word3(s[0], s[1], s[2]))
  {
    hide Quad, Word3;
    assert s[3..] == [];
  }

  /** The groups of three, as long as there are any. */
  method EncodeGroups(data: array<byte>, len: nat, out: array<byte>) returns (i: nat, o: nat)
    requires len <= data.Length && data != out && 4 * ((len + 2) / 3) < out.Length
    modifies out
    ensures i <= len < i + 3 && i % 3 == 0 && 3 * o == 4 * i && |Encode(data[..i])| == o
    ensures out[..] == Splice(old(out[..]), 0, Encode(data[..i]))
  {
    hide Encode, Quad, Word3, Splice;
    i, o := 0, 0;
    EncodeNothing(out[..]);
    while i + 3 <= len
      invariant i <= len && i % 3 == 0 && 3 * o == 4 * i && |Encode(data[..i])| == o
      invariant out[..] == Splice(old(out[..]), 0, Encode(data[..i]))
    {
      ghost var group := data[i..i + 3];
      EncodeConcat(data[..i], group);
      EncodeThree(group);
      assert data[..i + 3] == data[..i] + group;
      SpliceMore(old(out[..]), Encode(data[..i]), Encode(group));
      PutQuad(out, o, Word3(data[i], data[i + 1], data[i + 2]));
      i := i + 3;
      o := o + 4;
    }
  }

  lemma EncodeNothing(out: seq<byte>)
    ensures Encode([]) == [] && Splice(out, 0, []) == out
  {
  }

  /** `ws_base64_encode`: the encoding, then a zero byte, and nothing else. */
  method EncodeTo(data: array<byte>, len: nat, out: array<byte>) returns (o: nat)
    requires len <= data.Length && data != out && 4 * ((len + 2) / 3) < out.Length
    modifies out
    ensures o == 4 * ((len + 2) / 3) == |Encode(data[..len])|
    ensures out[..] == Splice(old(out[..]), 0, Encode(data[..len]) + [0])
  {
    hide Encode, Quad, Word3, Splice;
    var i;
    i, o := EncodeGroups(data, len, out);
    EncodeLength(data[..len]);
    if len - i > 0 {
      ghost var tail := data[i..len];
      EncodeConcat(data[..i], tail);
      EncodeLength(tail);
      assert data[..len] == data[..i] + tail;
      SpliceMore(old(out[..]), Encode(data[..i]), Encode(tail));
      PutTail(out, o, data, i, len - i);
      o := o + 4;
    }
    SpliceMore(old(out[..]), Encode(data[..len]), [0]);
    SpliceOne(out[..], o, 0);
    out[o] := 0;
  }

  lemma SpliceOne(s: seq<byte>, at: nat, b: byte)
    requires at < |s|
    ensures Splice(s, at, [b]) == s[at := b]
  {
  }
}
