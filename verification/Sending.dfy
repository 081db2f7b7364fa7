/** What the peer makes of a frame that was built by a send. */
module Sending {
  import opened Bytes
  import opened Mask
  import opened FrameHeader
  import opened ConnSpec
  import opened Session
  import opened Stream
  import Utf8

  function Peer(role: Role): Role {
    if role == CLIENT then SERVER else CLIENT
  }

  /** A sent frame is final, has no RSV bits, is masked by clients only, and carries the data. */
  lemma SentIs(role: Role, rng: Option<Key>, opcode: byte, data: seq<byte>)
    requires (role == CLIENT ==> rng.Some?) && |data| < TWO63
    ensures var f := SentFrame(role, rng, opcode, data);
      && ValidFrame(f) && Clear(f) == data && |f.payload| == |data|
      && f.h.opcode == opcode % 16 && f.h.fin && !f.h.rsv1 && !f.h.rsv2 && !f.h.rsv3
      && f.h.masked == (role == CLIENT)
  {
    if role == CLIENT {
      MaskInvolution(data, rng.value);
    }
  }

  /** The data that a peer between messages accepts under this opcode. */
  ghost predicate GoodData(opcode: byte, data: seq<byte>) {
    || opcode == OP_BINARY
    || (opcode == OP_TEXT && Utf8.WellFormed(data))
    || ((opcode == OP_CLOSE || opcode == OP_PING || opcode == OP_PONG) && |data| <= 125)
  }

  function EventFor(opcode: byte, data: seq<byte>): Delivery {
    if opcode == OP_CLOSE then Close(CloseCodeOf(data))
    else if opcode == OP_PING then Ping(data)
    else if opcode == OP_PONG then Pong(data)
    else Message(opcode, data)
  }

  /**
   * Exactly which sends the peer accepts: the sends themselves restrict neither the opcode of a
   * message nor the size of a ping or pong.
   */
  lemma SentAccepted(c: Core, sender: Role, rng: Option<Key>, opcode: byte, data: seq<byte>)
    requires (sender == CLIENT ==> rng.Some?) && |data| < TWO63
    requires c.role == Peer(sender) && c.status == OPEN && !c.inMessage
    ensures var f := SentFrame(sender, rng, opcode, data);
      var op := opcode % 16;
      if |c.acc| + |data| <= c.cap && GoodData(op, data) then
        Step(c, f).1 == [EventFor(op, data)] && Step(c, f).0.status == (if op == OP_CLOSE then CLOSING else OPEN)
      else Step(c, f) == (c.(status := CLOSED), [Error])
  {
    hide SentFrame, Clear, CloseCodeOf, ValidFrame, Utf8.WellFormed, Utf8.Viable;
    SentIs(sender, rng, opcode, data);
    var f := SentFrame(sender, rng, opcode, data);
    assert [] + Clear(f) == data;
  }

  /**
   * The code that arrives when `code` is sent: the three reserved codes go out as 1000, and what is not
   * in the ranges of section 7.4.1 of RFC 6455 is reported as 1002.
   */
  function ArrivingCode(code: Code): Code {
    if code in {1005, 1006, 1015} then 1000
    else if 1000 <= code <= 1003 || 1007 <= code <= 1011 || 3000 <= code <= 4999 then code
    else 1002
  }

  /** The code reported for any payload. */
  lemma ReportedCode(payload: seq<byte>)
    ensures CloseCodeOf(payload) ==
      if |payload| < 2 then 1005
      else
        var hi: int := payload[0];
        var code := 256 * hi + payload[1];
        if 1000 <= code <= 1003 || 1007 <= code <= 1011 || 3000 <= code <= 4999 then code else 1002
  {
  }

  /** The payload of a Close: the code asked for, high byte first, unless it is reserved. */
  lemma ClosePayloadIs(code: Code)
    ensures ClosePayload(code) == if code in {1005, 1006, 1015} then [0x03, 0xE8] else [code / 256, code % 256]
  {
  }

  lemma CloseRoundTrip(code: Code)
    ensures !ReservedCloseCode(SanitizeCode(code))
    ensures CloseCodeOf(ClosePayload(code)) == ArrivingCode(code)
  {
    hide CloseCodeOf, ClosePayload;
    ClosePayloadIs(code);
    ReportedCode(ClosePayload(code));
    var c: int := code;
    assert c == 256 * (c / 256) + c % 256;
  }

  /** What a send puts out is the wire form of its frame, or nothing. */
  lemma BuiltFrame(role: Role, rng: Option<Key>, opcode: byte, data: seq<byte>, cap: nat)
    requires |data| < TWO63 && Built(role, rng, opcode, data, cap) != []
    ensures CanBuild(role, rng, |data|, cap)
    ensures var f := SentFrame(role, rng, opcode, data); ValidFrame(f) && Built(role, rng, opcode, data, cap) == Wire(f)
  {
    SentIs(role, rng, opcode, data);
  }

  lemma SendCloseFrame(s: State, rng: Option<Key>, code: Code, cap: nat)
    requires SendClose(s, rng, code, cap).1 != []
    ensures s.role == CLIENT ==> rng.Some?
    ensures var f := SentFrame(s.role, rng, OP_CLOSE, ClosePayload(code));
      ValidFrame(f) && SendClose(s, rng, code, cap).1 == Wire(f)
  {
    var data := ClosePayload(code);
    assert SendClose(s, rng, code, cap).1 == Built(s.role, rng, OP_CLOSE, data, cap);
    BuiltFrame(s.role, rng, OP_CLOSE, data, cap);
  }

  /** A peer that is not closed reports the code of any Close with room for it, whatever else is going on. */
  lemma CloseFrameRead(c: Core, sender: Role, rng: Option<Key>, code: Code)
    requires sender == CLIENT ==> rng.Some?
    requires c.role == Peer(sender) && c.status != CLOSED && |c.acc| + 2 <= c.cap
    ensures var f := SentFrame(sender, rng, OP_CLOSE, ClosePayload(code));
      && Step(c, f) == (c.(status := if c.status == OPEN then CLOSING else CLOSED), [Close(ArrivingCode(code))])
  {
    hide Clear, CloseCodeOf, ArrivingCode, SentFrame, ClosePayload;
    SentIs(sender, rng, OP_CLOSE, ClosePayload(code));
    CloseRoundTrip(code);
  }

  /** What such a peer reads, between frames, when a Close is sent. */
  lemma SentCloseRead(s: State, rng: Option<Key>, code: Code, cap: nat, c: Core)
    requires SendClose(s, rng, code, cap).1 != []
    requires c.role == Peer(s.role) && c.status != CLOSED && |c.acc| + 2 <= c.cap
    ensures var r := Read(c, SendClose(s, rng, code, cap).1);
      && r.events == [Close(ArrivingCode(code))]
      && r.core == c.(status := if c.status == OPEN then CLOSING else CLOSED) && r.rest == []
  {
    hide *;
    SendCloseFrame(s, rng, code, cap);
    var f := SentFrame(s.role, rng, OP_CLOSE, ClosePayload(code));
    CloseFrameRead(c, s.role, rng, code);
    CloseFits(c, f);
    ReadSingle(c, f);
  }

  lemma CloseFits(c: Core, f: Frame)
    requires ValidFrame(f) && c.status != CLOSED && Step(c, f).1 != [Error]
    ensures !HeaderRefused(c, Wire(f))
  {
    HeadFrameOf(f, []);
    assert Wire(f) + [] == Wire(f);
  }

  lemma ReadSingle(c: Core, f: Frame)
    requires ValidFrame(f) && c.status != CLOSED && !HeaderRefused(c, Wire(f))
    ensures Read(c, Wire(f)) == Reading(Step(c, f).0, Step(c, f).1, [f], [])
  {
    HeadFrameOf(f, []);
    assert Wire(f) + [] == Wire(f);
    var (c1, es) := Step(c, f);
    assert Read(c1, []) == Reading(c1, [], [], []);
    assert es + [] == es && [f] + [] == [f];
  }

  /** Code 1007 is reported only when the peer sent exactly that code; bad text never produces it. */
  lemma InvalidPayloadCode(payload: seq<byte>)
    ensures CloseCodeOf(payload) == 1007 <==> |payload| >= 2 && payload[0] == 0x03 && payload[1] == 0xEF
  {
    if |payload| >= 2 {
      var hi: int, lo: int := payload[0], payload[1];
      assert hi * 256 + lo == 1007 <==> hi == 3 && lo == 0xEF;
    }
  }

  /** Of a Close payload only the first two bytes matter; in particular no rule about text applies to the reason. */
  lemma ReasonIgnored(c: Core, f: Frame, hi: byte, lo: byte, reason: seq<byte>)
    requires ValidFrame(f) && f.h.opcode == OP_CLOSE && HeaderOk(c.role, c.inMessage, f.h)
    requires c.status != CLOSED && |c.acc| + |f.payload| <= c.cap
    requires Clear(f) == [hi, lo] + reason
    ensures CloseCodeOf(Clear(f)) == CloseCodeOf([hi, lo])
    ensures Step(c, f).1 == [Close(CloseCodeOf([hi, lo]))]
  {
    assert Clear(f)[0] == hi && Clear(f)[1] == lo;
  }

  // ----- Bytes on the wire -----

  /** A frame of a server with a short payload. */
  lemma ShortWire(opcode: byte, data: seq<byte>)
    requires |data| <= 125
    ensures var f := SentFrame(SERVER, None, opcode, data);
      ValidFrame(f) && Wire(f) == [0x80 + opcode % 16, |data|] + data
  {
    var h := SentFrame(SERVER, None, opcode, data).h;
    assert LenField(false, |data|) == [|data|];
    assert HeaderBytes(h) == [0x80 + opcode % 16, |data|];
  }

  lemma ShortLength()
    ensures LenExtra(2) == 0
  {
  }

  /** The bytes of a server's Close. */
  lemma ServerCloseBytes(s: State, code: Code, cap: nat)
    requires s.role == SERVER && !s.closeSent && cap >= 4
    ensures SendClose(s, None, code, cap).1 ==
      [0x88, 0x02] + if code in {1005, 1006, 1015} then [0x03, 0xE8] else [code / 256, code % 256]
  {
    hide ClosePayload, Wire, SentFrame, ValidFrame, LenExtra;
    ClosePayloadIs(code);
    ShortWire(OP_CLOSE, ClosePayload(code));
    ShortLength();
  }

  /** A fresh client fed one frame. */
  lemma OneFrame(msg: seq<byte>, f: Frame)
    requires |msg| < TWO63 && ValidFrame(f)
    ensures Ready(Init(CLIENT, msg))
    ensures FeedBytes(Init(CLIENT, msg), Wire(f)).events == Step(Core(CLIENT, |msg|, OPEN, false, 0, []), f).1
  {
    hide FeedBytes, Read, Wire, Step, ValidFrame, Sound, Staged, Matches;
    var c, fs := Core(CLIENT, |msg|, OPEN, false, 0, []), [f];
    InitSound(CLIENT, msg);
    assert Wires(fs) == Wire(f) + [] == Wire(f);
    FramesRefine(CLIENT, msg, fs);
    assert Steps(c, fs).1 == Step(c, f).1 + [] == Step(c, f).1;
  }

  /** The event that the first byte of a short unmasked frame announces. */
  function Announced(first: byte, data: seq<byte>): Delivery {
    if first == 0x89 then Ping(data)
    else if first == 0x8A then Pong(data)
    else if first == 0x88 then Close(CloseCodeOf(data))
    else if first == 0x81 then Message(0x1, data)
    else Message(0x2, data)
  }

  lemma AnnouncedIs(op: byte, data: seq<byte>)
    requires |data| <= 125
    requires op in {0x2, 0x8, 0x9, 0xA} || (op == 0x1 && Utf8.WellFormed(data))
    ensures GoodData(op, data) && EventFor(op, data) == Announced(0x80 + op, data)
  {
    hide CloseCodeOf, Utf8.WellFormed;
  }

  lemma OpcodeEvent(msg: seq<byte>, op: byte, data: seq<byte>)
    requires |data| <= |msg| < TWO63 && |data| <= 125 && op < 16 && GoodData(op, data)
    ensures Ready(Init(CLIENT, msg))
    ensures FeedBytes(Init(CLIENT, msg), [0x80 + op, |data|] + data).events == [EventFor(op, data)]
  {
    hide EventFor, GoodData, FeedBytes, Wire, Step, ValidFrame, SentFrame, Init, Ready;
    assert op % 16 == op;
    ShortWire(op, data);
    SentAccepted(Core(CLIENT, |msg|, OPEN, false, 0, []), SERVER, None, op, data);
    OneFrame(msg, SentFrame(SERVER, None, op, data));
  }

  /** The machine on the bytes of one short unmasked frame: which event each first byte leads to. */
  lemma FirstByteEvent(msg: seq<byte>, first: byte, data: seq<byte>)
    requires |data| <= |msg| < TWO63 && |data| <= 125
    requires first in {0x82, 0x88, 0x89, 0x8A} || (first == 0x81 && Utf8.WellFormed(data))
    ensures Ready(Init(CLIENT, msg))
    ensures FeedBytes(Init(CLIENT, msg), [first, |data|] + data).events == [Announced(first, data)]
  {
    hide Announced, EventFor, GoodData, FeedBytes, Init, Ready, Utf8.WellFormed;
    var op: byte := first - 0x80;
    AnnouncedIs(op, data);
    OpcodeEvent(msg, op, data);
    assert 0x80 + op == first;
  }
}
