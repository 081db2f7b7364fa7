/** The frame header codec of src/core/frame.c (section 5.2 of RFC 6455). */
module FrameHeader {
  import opened Bytes
  import opened Mask

  const OP_CONTINUATION: byte := 0x0
  const OP_TEXT: byte := 0x1
  const OP_BINARY: byte := 0x2
  const OP_CLOSE: byte := 0x8
  const OP_PING: byte := 0x9
  const OP_PONG: byte := 0xA

  const NO_KEY: Key := [0, 0, 0, 0]

  datatype Header = Header(fin: bool, rsv1: bool, rsv2: bool, rsv3: bool, opcode: byte,
                           masked: bool, payloadLen: nat, key: Key, headerLen: nat)

  datatype ParseStatus = PARSE_OK | PARSE_NEED_MORE | PARSE_ERROR

  datatype ParseResult = NeedMore | Bad | Parsed(h: Header)
  {
    function Status(): ParseStatus {
      match this
      case NeedMore => PARSE_NEED_MORE
      case Bad => PARSE_ERROR
      case Parsed(_) => PARSE_OK
    }
  }

  // ----- Big-endian numbers -----

  function FromBE(s: seq<byte>): nat {
    if s == [] then 0 else FromBE(s[..|s| - 1]) * 256 + s[|s| - 1]
  }

  function ToBE(v: nat, n: nat): (s: seq<byte>)
    ensures |s| == n
  {
    if n == 0 then [] else ToBE(v / 256, n - 1) + [v % 256]
  }

  lemma {:induction false} FromToBE(v: nat, n: nat)
    requires v < Pow2(8 * n)
    ensures FromBE(ToBE(v, n)) == v
  {
    if n > 0 {
      Pow2Add(8, 8 * (n - 1));
      assert Pow2(8) == 256;
      FromToBE(v / 256, n - 1);
      assert ToBE(v, n)[..n - 1] == ToBE(v / 256, n - 1);
    }
  }

  lemma {:induction false} ToFromBE(s: seq<byte>)
    ensures ToBE(FromBE(s), |s|) == s
  {
    if s != [] {
      var t := s[..|s| - 1];
      ToFromBE(t);
      assert FromBE(s) % 256 == s[|s| - 1] && FromBE(s) / 256 == FromBE(t);
      assert s == t + [s[|s| - 1]];
    }
  }

  lemma {:induction false} FromBEBound(s: seq<byte>)
    ensures FromBE(s) < Pow2(8 * |s|)
  {
    if s != [] {
      FromBEBound(s[..|s| - 1]);
      Pow2Add(8, 8 * (|s| - 1));
      assert Pow2(8) == 256;
    }
  }

  lemma BEWidths()
    ensures Pow2(8 * 2) == 0x1_0000 && Pow2(8 * 8) == TWO64
  {
    WordSize();
    assert Pow2(8) == 256;
    Pow2Add(8, 8);
  }

  /** The bytes of a number from the low end: byte i is the number shifted right by 8i bits. */
  lemma {:induction false} ToBEHead(v: nat, i: nat)
    ensures ToBE(v, i + 1) == [Shr(v, 8 * i) % 256] + ToBE(v, i)
  {
    if i > 0 {
      ToBEHead(v / 256, i - 1);
      ShrByte(v, 8 * (i - 1));
    }
  }

  lemma ShrByte(v: nat, n: nat)
    ensures Shr(v, 8 + n) == Shr(v / 256, n)
  {
    ShrTwo(v, n + 6);
    ShrTwo(v / 4, n + 4);
    ShrTwo(v / 16, n + 2);
    ShrTwo(v / 64, n);
    assert v / 4 / 4 == v / 16 && v / 16 / 4 == v / 64 && v / 64 / 4 == v / 256;
  }

  lemma ShrTwo(v: nat, n: nat)
    ensures Shr(v, n + 2) == Shr(v / 4, n)
  {
    assert Shr(v, n + 2) == Shr(v / 2, n + 1) == Shr(v / 2 / 2, n);
  }

  method ReadBE(buf: array<byte>, at: nat, n: nat) returns (v: nat)
    requires at + n <= buf.Length && n <= 8
    ensures v == FromBE(buf[at..at + n]) && v < TWO64
  {
    v := 0;
    var i := 0;
    while i < n
      invariant i <= n && v == FromBE(buf[at..at + i])
    {
      assert buf[at..at + i + 1][..i] == buf[at..at + i];
      v := v * 256 + buf[at + i];
      i := i + 1;
    }
    FromBEBound(buf[at..at + n]);
    Pow2Monotone(8 * n, 64);
    WordSize();
  }

  lemma {:induction false} Pow2Monotone(m: nat, n: nat)
    requires m <= n
    ensures Pow2(m) <= Pow2(n)
    decreases n
  {
    if m < n {
      Pow2Monotone(m, n - 1);
    }
  }

  method WriteBE(buf: array<byte>, at: nat, n: nat, v: nat)
    requires at + n <= buf.Length
    modifies buf
    ensures buf[..] == Splice(old(buf[..]), at, ToBE(v, n))
  {
    var i := 0;
    while i < n
      invariant i <= n
      invariant buf[at + n - i..at + n] == ToBE(v, i)
      invariant forall k :: 0 <= k < buf.Length && !(at + n - i <= k < at + n) ==> buf[k] == old(buf[k])
    {
      ToBEHead(v, i);
      buf[at + n - 1 - i] := Shr(v, 8 * i) % 256;
      i := i + 1;
      assert buf[at + n - i..at + n] == [buf[at + n - i]] + buf[at + n - i + 1..at + n];
    }
    assert buf[at..at + n] == ToBE(v, n);
    SpliceIs(old(buf[..]), at, ToBE(v, n), buf[..]);
  }

  // ----- The wire format -----

  function LenExtra(n: nat): nat {
    if n <= 125 then 0 else if n <= 0xFFFF then 2 else 8
  }

  function MaskLen(masked: bool): nat {
    if masked then 4 else 0
  }

  function Bit(b: bool, weight: nat): nat {
    if b then weight else 0
  }

  function FirstByte(h: Header): byte
    requires h.opcode < 16
  {
    Bit(h.fin, 128) + Bit(h.rsv1, 64) + Bit(h.rsv2, 32) + Bit(h.rsv3, 16) + h.opcode
  }

  /** The length field, in the shortest of its three forms. */
  function LenField(masked: bool, n: nat): (s: seq<byte>)
    ensures |s| == 1 + LenExtra(n)
  {
    if n <= 125 then [Bit(masked, 128) + n]
    else if n <= 0xFFFF then [Bit(masked, 128) + 126] + ToBE(n, 2)
    else [Bit(masked, 128) + 127] + ToBE(n, 8)
  }

  /** The headers that can appear on the wire. */
  predicate ValidHeader(h: Header) {
    && h.opcode < 16
    && h.payloadLen < TWO63
    && h.headerLen == 2 + LenExtra(h.payloadLen) + MaskLen(h.masked)
    && (!h.masked ==> h.key == NO_KEY)
  }

  /** What the builder prints: first byte, shortest length field, key. */
  function Printed(h: Header): (s: seq<byte>)
    requires h.opcode < 16
    ensures |s| == 2 + LenExtra(h.payloadLen) + MaskLen(h.masked) <= 14
  {
    [FirstByte(h)] + LenField(h.masked, h.payloadLen) + (if h.masked then h.key else [])
  }

  /** The one wire form of a header. */
  function HeaderBytes(h: Header): (s: seq<byte>)
    requires ValidHeader(h)
    ensures |s| == h.headerLen <= 14
  {
    Printed(h)
  }

  // ----- Parsing -----

  datatype LenResult = LenNeedMore | LenBad | LenOk(value: nat, extra: nat)

  function CheckLen64(v: nat): ParseStatus {
    if v >= TWO63 then PARSE_ERROR else if v <= 0xFFFF then PARSE_ERROR else PARSE_OK
  }

  function ParseLen(bs: seq<byte>, len7: byte): LenResult
    requires |bs| >= 2
  {
    if len7 < 126 then LenOk(len7, 0)
    else if len7 == 126 then
      if |bs| < 4 then LenNeedMore
      else
        var v := FromBE(bs[2..4]);
        if v < 126 then LenBad else LenOk(v, 2)
    else
      if |bs| < 10 then LenNeedMore
      else
        var v := FromBE(bs[2..10]);
        if CheckLen64(v) != PARSE_OK then LenBad else LenOk(v, 8)
  }

  function FillHeader(bs: seq<byte>, masked: bool, extra: nat, plen: nat): Header
    requires |bs| >= 2 + extra + MaskLen(masked)
  {
    Header(bs[0] >= 128, (bs[0] / 64) % 2 == 1, (bs[0] / 32) % 2 == 1, (bs[0] / 16) % 2 == 1, bs[0] % 16,
           masked, plen, if masked then bs[2 + extra..6 + extra] else NO_KEY, 2 + extra + MaskLen(masked))
  }

  /** `ws_frame_parse_header` on the bytes available so far. */
  function Parse(bs: seq<byte>): ParseResult {
    if |bs| < 2 then NeedMore
    else
      match ParseLen(bs, bs[1] % 128)
      case LenNeedMore => NeedMore
      case LenBad => Bad
      case LenOk(plen, extra) =>
        var masked := bs[1] >= 128;
        if |bs| < 2 + extra + MaskLen(masked) then NeedMore else Parsed(FillHeader(bs, masked, extra, plen))
  }

  // ----- Parser and printer -----

  /** The flags and the opcode of a first byte. */
  predicate Unpacked(b: byte, h: Header) {
    && h.fin == (b >= 128)
    && h.rsv1 == ((b / 64) % 2 == 1)
    && h.rsv2 == ((b / 32) % 2 == 1)
    && h.rsv3 == ((b / 16) % 2 == 1)
    && h.opcode == b % 16
  }

  /** Packing and unpacking the first byte are inverses. */
  lemma FirstByteBits(b: byte, h: Header)
    requires h.opcode < 16
    ensures b == FirstByte(h) <==> Unpacked(b, h)
  {
    hide FirstByte, Unpacked;
    UnpackPacked(h);
    if Unpacked(b, h) {
      PackUnpacked(b, h);
    }
  }

  lemma UnpackPacked(h: Header)
    requires h.opcode < 16
    ensures Unpacked(FirstByte(h), h)
  {
    Flags(Bit(h.fin, 1), Bit(h.rsv1, 1), Bit(h.rsv2, 1), Bit(h.rsv3, 1), h.opcode);
  }

  lemma PackUnpacked(b: byte, h: Header)
    requires h.opcode < 16 && Unpacked(b, h)
    ensures b == FirstByte(h)
  {
    var v: int := b;
    FlagsSum(v);
    FlagDigits(v);
  }

  lemma FlagDigits(b: nat)
    requires b < 256
    ensures b / 128 == (if b >= 128 then 1 else 0)
    ensures 0 <= (b / 64) % 2 < 2 && 0 <= (b / 32) % 2 < 2 && 0 <= (b / 16) % 2 < 2
  {
  }

  lemma Flags(a: nat, c: nat, d: nat, e: nat, o: nat)
    requires a < 2 && c < 2 && d < 2 && e < 2 && o < 16
    ensures var b := 128 * a + 64 * c + 32 * d + 16 * e + o;
      b / 128 == a && (b / 64) % 2 == c && (b / 32) % 2 == d && (b / 16) % 2 == e && b % 16 == o
  {
    var b := 128 * a + 64 * c + 32 * d + 16 * e + o;
    assert b / 16 == 8 * a + 4 * c + 2 * d + e;
    assert b / 32 == 4 * a + 2 * c + d;
    assert b / 64 == 2 * a + c;
  }

  lemma FlagsSum(b: nat)
    requires b < 256
    ensures b == 128 * (b / 128) + 64 * ((b / 64) % 2) + 32 * ((b / 32) % 2) + 16 * ((b / 16) % 2) + b % 16
  {
    assert b / 64 == (b / 32) / 2 && b / 32 == (b / 16) / 2 && b / 128 == (b / 64) / 2;
  }

  /** An accepted length has exactly the field that was read. */
  lemma ParseLenSound(bs: seq<byte>)
    requires |bs| >= 2 && ParseLen(bs, bs[1] % 128).LenOk?
    ensures var r := ParseLen(bs, bs[1] % 128);
      && r.value < TWO63 && r.extra == LenExtra(r.value) && 2 + r.extra <= |bs|
      && LenField(bs[1] >= 128, r.value) == bs[1..2 + r.extra]
  {
    hide FromBE, ToBE, Pow2;
    BEWidths();
    var r := ParseLen(bs, bs[1] % 128);
    if r.extra == 2 {
      FromBEBound(bs[2..4]);
      ToFromBE(bs[2..4]);
      assert bs[1..4] == [bs[1]] + bs[2..4];
    } else if r.extra == 8 {
      ToFromBE(bs[2..10]);
      assert bs[1..10] == [bs[1]] + bs[2..10];
    }
  }

  /** The printed field of any length below 2^63 parses to that length. */
  lemma ParseLenComplete(bs: seq<byte>, masked: bool, n: nat)
    requires n < TWO63 && |bs| >= 2 + LenExtra(n)
    requires LenField(masked, n) == bs[1..2 + LenExtra(n)]
    ensures (bs[1] >= 128) == masked && ParseLen(bs, bs[1] % 128) == LenOk(n, LenExtra(n))
  {
    hide FromBE, ToBE, Pow2;
    BEWidths();
    var f := LenField(masked, n);
    assert f[0] == bs[1];
    if n <= 125 {
    } else if n <= 0xFFFF {
      assert bs[2..4] == f[1..3] == ToBE(n, 2);
      FromToBE(n, 2);
    } else {
      assert bs[2..10] == f[1..9] == ToBE(n, 8);
      FromToBE(n, 8);
    }
  }

  /** Rebuilding an accepted header gives back exactly the bytes that were consumed. */
  lemma ParseSound(bs: seq<byte>)
    requires Parse(bs).Parsed?
    ensures var h := Parse(bs).h; ValidHeader(h) && h.headerLen <= |bs| && HeaderBytes(h) == bs[..h.headerLen]
  {
    var h := Parse(bs).h;
    ParseLenSound(bs);
    FirstByteBits(bs[0], h);
    var extra := LenExtra(h.payloadLen);
    assert bs[..2 + extra] == [bs[0]] + bs[1..2 + extra];
    if h.masked {
      assert bs[..6 + extra] == bs[..2 + extra] + bs[2 + extra..6 + extra];
    }
  }

  /** Parsing printed bytes, followed by anything, recovers the header. */
  lemma ParseComplete(h: Header, rest: seq<byte>)
    requires ValidHeader(h)
    ensures Parse(HeaderBytes(h) + rest) == Parsed(h)
  {
    var bs := HeaderBytes(h) + rest;
    var extra := LenExtra(h.payloadLen);
    var f := LenField(h.masked, h.payloadLen);
    assert bs[0] == FirstByte(h);
    assert bs[1..2 + extra] == f;
    ParseLenComplete(bs, h.masked, h.payloadLen);
    FirstByteBits(bs[0], h);
    if h.masked {
      assert bs[2 + extra..6 + extra] == h.key;
    }
  }

  /** Parser and printer are mutual inverses: acceptance means that the one wire form comes first. */
  lemma ParseExact(bs: seq<byte>, h: Header)
    ensures Parse(bs) == Parsed(h) <==> ValidHeader(h) && HeaderBytes(h) <= bs
  {
    if Parse(bs) == Parsed(h) {
      ParseSound(bs);
    }
    if ValidHeader(h) && HeaderBytes(h) <= bs {
      ParseComplete(h, bs[h.headerLen..]);
      assert bs == HeaderBytes(h) + bs[h.headerLen..];
    }
  }

  /** Verdicts other than "need more" do not change when bytes are appended. */
  lemma ParseStable(bs: seq<byte>, more: seq<byte>)
    requires !Parse(bs).NeedMore?
    ensures Parse(bs + more) == Parse(bs)
  {
    var all := bs + more;
    assert |bs| >= 2 && all[0] == bs[0] && all[1] == bs[1];
    if bs[1] % 128 == 126 {
      assert all[2..4] == bs[2..4];
    } else if bs[1] % 128 == 127 {
      assert all[2..10] == bs[2..10];
    }
    if Parse(bs).Parsed? {
      ParseSound(bs);
      assert all == HeaderBytes(Parse(bs).h) + all[Parse(bs).h.headerLen..];
      ParseComplete(Parse(bs).h, all[Parse(bs).h.headerLen..]);
    }
  }

  /** A strict prefix of a header asks for more. */
  lemma ParsePrefix(h: Header, bs: seq<byte>)
    requires ValidHeader(h) && bs < HeaderBytes(h)
    ensures Parse(bs) == NeedMore
  {
    var w := HeaderBytes(h);
    ParseComplete(h, []);
    assert w + [] == w == bs + w[|bs|..];
    if Parse(bs) != NeedMore {
      ParseStable(bs, w[|bs|..]);
      ParseSound(bs);
    }
  }

  /** Fourteen bytes always decide. */
  lemma ParseDecides(bs: seq<byte>)
    requires |bs| >= 14
    ensures !Parse(bs).NeedMore?
  {
  }

  // ----- The C parser -----

  /** The parser's refusals: a length that has a shorter form, or one with the top bit set. */
  lemma BadIff(bs: seq<byte>)
    ensures Parse(bs).Bad? <==>
      || (|bs| >= 4 && bs[1] % 128 == 126 && FromBE(bs[2..4]) < 126)
      || (|bs| >= 10 && bs[1] % 128 == 127 && (bs[2] >= 128 || FromBE(bs[2..10]) <= 0xFFFF))
  {
    if |bs| >= 10 {
      TopBit(bs[2..10]);
    }
  }

  lemma {:induction false} FromBEHead(s: seq<byte>)
    requires s != []
    ensures FromBE(s) == s[0] * Pow2(8 * (|s| - 1)) + FromBE(s[1..])
  {
    if |s| == 1 {
      assert s[..0] == [] && s[1..] == [];
    } else {
      var front := s[..|s| - 1];
      FromBEHead(front);
      assert s[1..][..|s| - 2] == front[1..];
      ByteWide(8 * (|s| - 2));
      MulAssoc(s[0], Pow2(8 * (|s| - 2)), 256);
    }
  }

  lemma TopBit(s: seq<byte>)
    requires |s| == 8
    ensures FromBE(s) >= TWO63 <==> s[0] >= 128
  {
    FromBEHead(s);
    FromBEBound(s[1..]);
    assert Pow2(56) == 0x100_0000_0000_0000 by { BEWidths(); ByteWide(56); }
  }

  lemma LongField(h: Header)
    requires h.opcode < 16 && 0xFFFF < h.payloadLen
    ensures |Printed(h)| >= 10 && Printed(h)[1] % 128 == 127 && Printed(h)[2..10] == ToBE(h.payloadLen, 8)
  {
    hide FirstByte, ToBE;
    var field := LenField(h.masked, h.payloadLen);
    assert Printed(h)[1..10] == field == [Bit(h.masked, 128) + 127] + ToBE(h.payloadLen, 8);
    assert Printed(h)[2..10] == field[1..];
  }

  /** A header printed for a length from 2^63 on is refused by every parser, so no such length is sent. */
  lemma LongHeaderRefused(h: Header, rest: seq<byte>)
    requires h.opcode < 16 && TWO63 <= h.payloadLen < TWO64
    ensures Parse(Printed(h) + rest) == Bad
  {
    hide FromBE, ToBE, Parse, Printed;
    var bs := Printed(h) + rest;
    LongField(h);
    BEWidths();
    FromToBE(h.payloadLen, 8);
    assert bs[2..10] == Printed(h)[2..10];
    TopBit(bs[2..10]);
    BadIff(bs);
  }

  method ParseLen16(buf: array<byte>, len: nat) returns (st: ParseStatus, value: nat, extra: nat)
    requires 2 <= len <= buf.Length
    ensures LenAgrees(st, value, extra, ParseLen(buf[..len], 126))
  {
    value, extra := 0, 0;
    if len < 4 {
      return PARSE_NEED_MORE, 0, 0;
    }
    var v := ReadBE(buf, 2, 2);
    assert buf[..len][2..4] == buf[2..4];
    if v < 126 {
      return PARSE_ERROR, 0, 0;
    }
    return PARSE_OK, v, 2;
  }

  method ParseLen64(buf: array<byte>, len: nat) returns (st: ParseStatus, value: nat, extra: nat)
    requires 2 <= len <= buf.Length
    ensures LenAgrees(st, value, extra, ParseLen(buf[..len], 127))
  {
    value, extra := 0, 0;
    if len < 10 {
      return PARSE_NEED_MORE, 0, 0;
    }
    var v := ReadBE(buf, 2, 8);
    assert buf[..len][2..10] == buf[2..10];
    st := CheckLen64(v);
    if st != PARSE_OK {
      return;
    }
    return PARSE_OK, v, 8;
  }

  predicate LenAgrees(st: ParseStatus, value: nat, extra: nat, r: LenResult) {
    match st
    case PARSE_OK => r == LenOk(value, extra)
    case PARSE_NEED_MORE => r == LenNeedMore
    case PARSE_ERROR => r == LenBad
  }

  /** `parse_len`. */
  method DecodeLen(buf: array<byte>, len: nat, len7: byte) returns (st: ParseStatus, value: nat, extra: nat)
    requires 2 <= len <= buf.Length && len7 == buf[1] % 128
    ensures LenAgrees(st, value, extra, ParseLen(buf[..len], len7))
  {
    if len7 < 126 {
      return PARSE_OK, len7, 0;
    }
    if len7 == 126 {
      st, value, extra := ParseLen16(buf, len);
      return;
    }
    st, value, extra := ParseLen64(buf, len);
  }

  /** The key at `at`, or zeros when there is none. */
  method FillMaskKey(buf: array<byte>, at: nat, present: bool) returns (key: Key)
    requires present ==> at + 4 <= buf.Length
    ensures key == if present then buf[at..at + 4] else NO_KEY
  {
    var dst := new byte[4](_ => 0);
    var i := 0;
    while i < 4
      invariant i <= 4
      invariant forall k :: 0 <= k < i ==> dst[k] == if present then buf[at + k] else 0
    {
      dst[i] := if present then buf[at + i] else 0;
      i := i + 1;
    }
    assert dst[..] == if present then buf[at..at + 4] else NO_KEY;
    return dst[..];
  }

  /** `unpack_b0`. */
  method UnpackB0(b0: byte) returns (fin: bool, rsv1: bool, rsv2: bool, rsv3: bool, opcode: byte)
    ensures Unpacked(b0, Header(fin, rsv1, rsv2, rsv3, opcode, false, 0, NO_KEY, 0))
  {
    fin := b0 >= 128;
    rsv1 := (b0 / 64) % 2 == 1;
    rsv2 := (b0 / 32) % 2 == 1;
    rsv3 := (b0 / 16) % 2 == 1;
    opcode := b0 % 16;
  }

  /** `fill_header`. */
  method HeaderFrom(buf: array<byte>, len: nat, masked: bool, extra: nat, plen: nat) returns (h: Header)
    requires 2 + extra + MaskLen(masked) <= len <= buf.Length
    ensures h == FillHeader(buf[..len], masked, extra, plen)
  {
    var fin, rsv1, rsv2, rsv3, opcode := UnpackB0(buf[0]);
    var key := FillMaskKey(buf, 2 + extra, masked);
    assert masked ==> buf[..len][2 + extra..6 + extra] == buf[2 + extra..6 + extra];
    h := Header(fin, rsv1, rsv2, rsv3, opcode, masked, plen, key, 2 + extra + MaskLen(masked));
  }

  /** `parse_meta`: length and mask flag, once the whole header is there. */
  method ParseMeta(buf: array<byte>, len: nat) returns (st: ParseStatus, masked: bool, plen: nat, extra: nat)
    requires 2 <= len <= buf.Length
    ensures st == Parse(buf[..len]).Status()
    ensures st == PARSE_OK ==>
      && masked == (buf[1] >= 128) && 2 + extra + MaskLen(masked) <= len
      && Parse(buf[..len]) == Parsed(FillHeader(buf[..len], masked, extra, plen))
  {
    hide ParseLen, FillHeader;
    masked := false;
    st, plen, extra := DecodeLen(buf, len, buf[1] % 128);
    if st != PARSE_OK {
      return;
    }
    masked := buf[1] >= 128;
    if len < 2 + extra + MaskLen(masked) {
      st := PARSE_NEED_MORE;
    }
  }

  /** `ws_frame_parse_header` on the first `len` bytes; `h` is filled only on success. */
  method ParseHeader(buf: array<byte>, len: nat) returns (st: ParseStatus, h: Header)
    requires len <= buf.Length
    ensures st == Parse(buf[..len]).Status()
    ensures st == PARSE_OK ==> Parse(buf[..len]) == Parsed(h)
  {
    h := Header(false, false, false, false, 0, false, 0, NO_KEY, 0);
    if len < 2 {
      return PARSE_NEED_MORE, h;
    }
    hide ParseLen, FillHeader;
    var masked, plen, extra;
    st, masked, plen, extra := ParseMeta(buf, len);
    if st != PARSE_OK {
      return;
    }
    h := HeaderFrom(buf, len, masked, extra, plen);
  }

  // ----- The C printer -----

  /** The header that a send builds: no RSV bits, and only the low four bits of the opcode. */
  function SendHeader(fin: bool, opcode: byte, masked: bool, key: Key, n: nat): Header {
    Header(fin, false, false, false, opcode % 16, masked, n, if masked then key else NO_KEY,
           2 + LenExtra(n) + MaskLen(masked))
  }

  /** Writes the length field from index 1 on and returns the index after it. */
  method BuildLen(buf: array<byte>, n: nat) returns (next: nat)
    requires buf.Length >= 2 + LenExtra(n)
    modifies buf
    ensures next == 2 + LenExtra(n)
    ensures buf[..] == Splice(old(buf[..]), 1, LenField(false, n))
  {
    if n <= 125 {
      buf[1] := n;
      return 2;
    }
    if n <= 0xFFFF {
      buf[1] := 126;
      WriteBE(buf, 2, 2, n);
      return 4;
    }
    buf[1] := 127;
    WriteBE(buf, 2, 8, n);
    return 10;
  }

  /** Sets the mask flag and writes the key at index `n`. */
  method AppendMask(buf: array<byte>, n: nat, key: Key) returns (next: nat)
    requires 2 <= n && n + 4 <= buf.Length
    modifies buf
    ensures next == n + 4
    ensures buf[..] == Splice(old(buf[..])[1 := 128 + old(buf[1]) % 128], n, key)
  {
    buf[1] := 128 + buf[1] % 128;
    var i := 0;
    while i < 4
      invariant i <= 4 && buf[1] == 128 + old(buf[1]) % 128
      invariant forall k :: n <= k < n + i ==> buf[k] == key[k - n]
      invariant forall k :: 0 <= k < buf.Length && k != 1 && !(n <= k < n + i) ==> buf[k] == old(buf[k])
    {
      buf[n + i] := key[i];
      i := i + 1;
    }
    SpliceIs(old(buf[..])[1 := 128 + old(buf[1]) % 128], n, key, buf[..]);
    return n + 4;
  }

  /** `ws_frame_build_header`: 0 when it does not fit, else the printed header at the start of `buf`. */
  method BuildHeader(buf: array<byte>, cap: nat, fin: bool, opcode: byte, masked: bool, key: Key, n: nat)
    returns (hn: nat)
    requires cap <= buf.Length && n < TWO64
    modifies buf
    ensures var h := SendHeader(fin, opcode, masked, key, n);
      && hn == (if cap < h.headerLen then 0 else h.headerLen)
      && buf[..] == (if hn == 0 then old(buf[..]) else Splice(old(buf[..]), 0, Printed(h)))
      && (n < TWO63 ==> ValidHeader(h) && HeaderBytes(h) == Printed(h))
  {
    hide Splice, Printed, LenField, HeaderBytes;
    ghost var before := buf[..];
    ghost var h := SendHeader(fin, opcode, masked, key, n);
    PrintedIs(h);
    var need := 2 + LenExtra(n) + MaskLen(masked);
    if cap < need {
      return 0;
    }
    buf[0] := (if fin then 0x80 else 0) + opcode % 16;
    assert buf[..] == before[0 := FirstByte(h)];
    hn := BuildLen(buf, n);
    if masked {
      MaskedForm(before, h);
      hn := AppendMask(buf, hn, key);
    } else {
      PlainForm(before, h);
    }
  }

  lemma PrintedIs(h: Header)
    requires h.opcode < 16
    ensures ValidHeader(h) ==> HeaderBytes(h) == Printed(h)
  {
  }

  /** First byte and length field, written one after the other. */
  lemma PlainForm(before: seq<byte>, h: Header)
    requires h.opcode < 16 && !h.masked && |Printed(h)| <= |before|
    ensures Splice(before[0 := FirstByte(h)], 1, LenField(false, h.payloadLen)) == Splice(before, 0, Printed(h))
  {
    hide LenField, FirstByte;
  }

  /** The mask flag and the key added to that. */
  lemma MaskedForm(before: seq<byte>, h: Header)
    requires h.opcode < 16 && h.masked && |Printed(h)| <= |before|
    ensures var plain := Splice(before[0 := FirstByte(h)], 1, LenField(false, h.payloadLen));
      Splice(plain[1 := 128 + plain[1] % 128], 2 + LenExtra(h.payloadLen), h.key) == Splice(before, 0, Printed(h))
  {
    hide LenField, FirstByte;
    MaskedLenField(h.payloadLen);
  }

  lemma MaskedLenField(n: nat)
    ensures LenField(false, n)[0] < 128
    ensures LenField(true, n) == LenField(false, n)[0 := LenField(false, n)[0] + 128]
  {
  }
}
