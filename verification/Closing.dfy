/**
 * When exactly a connection in CLOSING reports a protocol error. Data frames are dropped there, so the
 * message in progress is frozen: `in_message` and the bytes that count against the capacity stay as
 * they were, while every frame is still checked against them (src/sdk/conn.c:80-106, 220-226).
 */
module Closing {
  import opened Bytes
  import opened FrameHeader
  import opened Mask
  import opened ConnSpec
  import opened Session
  import opened Stream
  import opened Errors
  import Utf8

  // ----- The rules in CLOSING -----

  /** Data needs a data opcode, and a continuation is right exactly when a message was in progress. */
  predicate FrozenFragmentRule(inMessage: bool, f: Frame) {
    IsData(f) ==>
      f.h.opcode in {0x0, 0x1, 0x2} && (f.h.opcode == 0x0) == inMessage
  }

  /** `room` is what the message collected, or delivered, last leaves of the capacity. */
  predicate Passes(role: Role, room: nat, inMessage: bool, f: Frame) {
    NoRsv(f) && MaskRule(role, f) && ControlRule(f) && FrozenFragmentRule(inMessage, f) && |f.payload| <= room
  }

  predicate PassingRun(role: Role, room: nat, inMessage: bool, fs: seq<Frame>) {
    forall f :: f in fs ==> ValidFrame(f) && f.h.opcode != OP_CLOSE && Passes(role, room, inMessage, f)
  }

  /** The bytes start with a malformed header, one that announces too much, or a frame that does not pass. */
  predicate Offends(role: Role, room: nat, inMessage: bool, rest: seq<byte>) {
    match Parse(rest)
    case NeedMore => false
    case Bad => true
    case Parsed(h) =>
      || h.payloadLen > room
      || (h.headerLen + h.payloadLen <= |rest| &&
          !Passes(role, room, inMessage, Frame(h, rest[h.headerLen..h.headerLen + h.payloadLen])))
  }

  /** Passing frames other than a Close, and then an offence. */
  ghost predicate OffendsLater(role: Role, room: nat, inMessage: bool, bytes: seq<byte>) {
    exists fs: seq<Frame>, rest: seq<byte> ::
      PassingRun(role, room, inMessage, fs) && bytes == Wires(fs) + rest && Offends(role, room, inMessage, rest)
  }

  // ----- The rules are what the frame machine checks -----

  function Room(c: Core): nat {
    if |c.acc| <= c.cap then c.cap - |c.acc| else 0
  }

  lemma PassIsAcceptable(c: Core, f: Frame)
    requires ValidFrame(f) && c.status == CLOSING && |c.acc| <= c.cap
    ensures Acceptable(c, f) <==> Passes(c.role, Room(c), c.inMessage, f)
    ensures Acceptable(c, f) && f.h.opcode != OP_CLOSE ==> Step(c, f).0 == c && Harmless(Step(c, f).1)
    ensures Acceptable(c, f) && f.h.opcode == OP_CLOSE ==> Step(c, f).1 == [Close(CloseCodeOf(Clear(f)))]
  {
    hide Clear, CloseCodeOf, TextOk;
    assert HeaderOk(c.role, c.inMessage, f.h) <==>
      NoRsv(f) && MaskRule(c.role, f) && ControlRule(f) && FrozenFragmentRule(c.inMessage, f);
  }

  lemma OffenceReads(c: Core, bytes: seq<byte>)
    requires c.status == CLOSING && |c.acc| <= c.cap && Offends(c.role, Room(c), c.inMessage, bytes)
    ensures Read(c, bytes).events == [Error]
  {
    if !HeaderRefused(c, bytes) {
      HeadFrameIs(bytes);
      PassIsAcceptable(c, HeadFrame(bytes).value);
      assert [Error] + [] == [Error];
    }
  }

  /** One frame further. */
  lemma PassingReads(c: Core, f: Frame, tail: seq<byte>)
    requires ValidFrame(f) && c.status == CLOSING && |c.acc| <= c.cap && Passes(c.role, Room(c), c.inMessage, f)
    ensures f.h.opcode != OP_CLOSE ==>
      (ErrorBeforeClose(Read(c, Wire(f) + tail).events) <==> ErrorBeforeClose(Read(c, tail).events))
    ensures f.h.opcode == OP_CLOSE ==> !ErrorBeforeClose(Read(c, Wire(f) + tail).events)
  {
    hide Read, Passes, Acceptable, Clear, CloseCodeOf;
    PassIsAcceptable(c, f);
    ReadOne(c, f, tail);
    if f.h.opcode != OP_CLOSE {
      DropHarmless(Step(c, f).1, Read(c, tail).events);
    } else {
      assert Read(c, Wire(f) + tail).events[0].Close?;
    }
  }

  /** Passing frames first, then the offence: the other direction. */
  lemma {:induction false} OffenceSeen(c: Core, fs: seq<Frame>, rest: seq<byte>)
    requires c.status == CLOSING && |c.acc| <= c.cap && PassingRun(c.role, Room(c), c.inMessage, fs)
    requires Offends(c.role, Room(c), c.inMessage, rest)
    ensures forall f :: f in fs ==> ValidFrame(f)
    ensures ErrorBeforeClose(Read(c, Wires(fs) + rest).events)
    decreases |fs|
  {
    hide Read, Passes, Offends, ValidFrame, Wire;
    if fs == [] {
      OffenceReads(c, rest);
      assert [] + rest == rest && [Error][0] == Error;
    } else {
      var tail := Wires(fs[1..]) + rest;
      assert fs == [fs[0]] + fs[1..];
      WiresCons(fs[0], fs[1..], rest);
      PassingReads(c, fs[0], tail);
      OffenceSeen(c, fs[1..], rest);
    }
  }

  /** An error before the next Close has its cause. */
  lemma {:induction false} OffenceFound(c: Core, bytes: seq<byte>) returns (fs: seq<Frame>, rest: seq<byte>)
    requires c.status == CLOSING && |c.acc| <= c.cap && ErrorBeforeClose(Read(c, bytes).events)
    ensures PassingRun(c.role, Room(c), c.inMessage, fs) && Offends(c.role, Room(c), c.inMessage, rest)
    ensures bytes == Wires(fs) + rest
    decreases |bytes|
  {
    hide Passes, Acceptable, Clear, CloseCodeOf, Step, Parse, Read, Offends, ErrorBeforeClose, ValidFrame, Wire;
    if Offends(c.role, Room(c), c.inMessage, bytes) {
      fs, rest := [], bytes;
      assert [] + bytes == bytes;
      return;
    }
    var f := NextPasses(c, bytes);
    var tail := bytes[|Wire(f)|..];
    assert bytes == Wire(f) + tail;
    PassingReads(c, f, tail);
    var more;
    more, rest := OffenceFound(c, tail);
    fs := [f] + more;
    WiresCons(f, more, rest);
  }

  lemma NextPasses(c: Core, bytes: seq<byte>) returns (f: Frame)
    requires c.status == CLOSING && |c.acc| <= c.cap && ErrorBeforeClose(Read(c, bytes).events)
    requires !Offends(c.role, Room(c), c.inMessage, bytes)
    ensures ValidFrame(f) && Passes(c.role, Room(c), c.inMessage, f) && Wire(f) <= bytes && |Wire(f)| > 0
  {
    hide Passes, Step;
    assert !HeaderRefused(c, bytes) && HeadFrame(bytes).Some?;
    HeadFrameIs(bytes);
    f := HeadFrame(bytes).value;
  }

  /**
   * Exact error characterisation in CLOSING, from every sound state: an error is reported
   * before the next Close if and only if the bytes of the frame under way and the input are passing
   * frames followed by an offence.
   */
  lemma ErrorIffOffence(s: State, input: seq<byte>)
    requires Sound(s) && Ready(s) && s.status == CLOSING
    ensures ErrorBeforeClose(FeedBytes(s, input).events) <==>
            OffendsLater(s.role, |s.msg| - s.msgLen, s.inMessage, Staged(s) + input)
  {
    hide Offends, Passes, Read, FeedBytes, Wires, Staged, ErrorBeforeClose, HeaderSound, TextSound, ValidFrame;
    FeedRefines(s, input);
    var c, bytes := CoreOf(s), Staged(s) + input;
    assert Room(c) == |s.msg| - s.msgLen;
    if ErrorBeforeClose(Read(c, bytes).events) {
      var fs, rest := OffenceFound(c, bytes);
    }
    if OffendsLater(c.role, Room(c), c.inMessage, bytes) {
      var fs: seq<Frame>, rest: seq<byte> :| PassingRun(c.role, Room(c), c.inMessage, fs) &&
        bytes == Wires(fs) + rest && Offends(c.role, Room(c), c.inMessage, rest);
      OffenceSeen(c, fs, rest);
    }
  }

  // ----- A peer that obeys the rules is hit -----

  /**
   * A fragmented message that begins in CLOSING: its first fragment is dropped without a trace, and so
   * the continuation is an error, however well formed the message is.
   */
  lemma FragmentsRefused(s: State, first: Frame, second: Frame)
    requires Sound(s) && Ready(s) && s.status == CLOSING && !s.inMessage && Staged(s) == []
    requires ValidFrame(first) && Passes(s.role, |s.msg| - s.msgLen, false, first) && IsData(first)
    requires ValidFrame(second) && second.h.opcode == OP_CONTINUATION
    ensures FeedBytes(s, Wire(first) + Wire(second)).events == [Error]
  {
    hide Sound, Staged, Wire, ValidFrame, FeedBytes, Clear, CloseCodeOf;
    var c := CoreOf(s);
    PassIsAcceptable(c, first);
    assert Step(c, first) == (c, []);
    PassIsAcceptable(c, second);
    assert Step(c, second).1 == [Error] && Step(c, second).0.status == CLOSED;
    FeedRefines(s, Wire(first) + Wire(second));
    assert [] + (Wire(first) + Wire(second)) == Wire(first) + Wire(second);
    ReadOne(c, first, Wire(second));
    ReadOne(c, second, []);
    assert Wire(second) + [] == Wire(second);
    ClosedReads(Step(c, second).0, []);
    assert [Error] + [] == [Error] && [] + [Error] == [Error];
  }

  /** An unmasked frame without payload. */
  function EmptyFrame(fin: bool, opcode: byte): Frame
    requires opcode < 16
  {
    Frame(Header(fin, false, false, false, opcode, false, 0, NO_KEY, 2), [])
  }

  lemma EmptyWire(fin: bool, opcode: byte)
    requires opcode < 16
    ensures var f := EmptyFrame(fin, opcode);
      ValidFrame(f) && Clear(f) == [] && Wire(f) == [(if fin then 0x80 else 0) + opcode, 0]
  {
    var h := EmptyFrame(fin, opcode).h;
    assert LenField(false, 0) == [0];
    assert FirstByte(h) == (if fin then 0x80 else 0) + opcode;
    assert HeaderBytes(h) == [FirstByte(h), 0];
    assert HeaderBytes(h) + [] == HeaderBytes(h);
  }

  /** An empty text message in two fragments: 01 00, then 80 00. */
  lemma PartsWire()
    ensures var first, second := EmptyFrame(false, OP_TEXT), EmptyFrame(true, OP_CONTINUATION);
      && ValidFrame(first) && ValidFrame(second)
      && Wire(first) + Wire(second) == [0x01, 0x00, 0x80, 0x00]
  {
    hide ValidFrame, Wire;
    EmptyWire(false, OP_TEXT);
    EmptyWire(true, OP_CONTINUATION);
  }

  /** The input on the machine: the same four bytes are a message before a client's Close and an error after it. */
  lemma ObedientPeerRefused(msg: seq<byte>, key: Key, code: Code)
    requires |msg| < TWO63
    ensures var s := Init(CLIENT, msg);
      var closing := SendClose(s, Some(key), code, 8).0;
      && Ready(s) && Ready(closing) && s.status == OPEN && closing.status == CLOSING
      && FeedBytes(s, [0x01, 0x00, 0x80, 0x00]).events == [Message(0x1, [])]
      && FeedBytes(closing, [0x01, 0x00, 0x80, 0x00]).events == [Error]
  {
    hide FeedBytes, Sound, Staged, SendClose, ValidFrame, Wire, Ready;
    var closing := MarkCloseSent(Init(CLIENT, msg));
    ClosingFromInit(msg, key, code);
    PartsWire();
    FragmentsRefused(closing, EmptyFrame(false, OP_TEXT), EmptyFrame(true, OP_CONTINUATION));
    OpenMessage(msg);
  }

  lemma ClosingFromInit(msg: seq<byte>, key: Key, code: Code)
    requires |msg| < TWO63
    ensures var closing := MarkCloseSent(Init(CLIENT, msg));
      && SendClose(Init(CLIENT, msg), Some(key), code, 8).0 == closing
      && Sound(closing) && Ready(closing) && closing.status == CLOSING && Staged(closing) == []
  {
    InitSound(CLIENT, msg);
    assert CanBuild(CLIENT, Some(key), 2, 8);
  }

  lemma OpenMessage(msg: seq<byte>)
    requires |msg| < TWO63
    ensures Ready(Init(CLIENT, msg))
    ensures var first, second := EmptyFrame(false, OP_TEXT), EmptyFrame(true, OP_CONTINUATION);
      FeedBytes(Init(CLIENT, msg), Wire(first) + Wire(second)).events == [Message(OP_TEXT, [])]
  {
    hide FeedBytes, Wire, Step, ValidFrame, EmptyFrame;
    var c := Core(CLIENT, |msg|, OPEN, false, 0, []);
    InitSound(CLIENT, msg);
    var first, second := EmptyFrame(false, OP_TEXT), EmptyFrame(true, OP_CONTINUATION);
    EmptyWire(false, OP_TEXT);
    EmptyWire(true, OP_CONTINUATION);
    EmptyParts(|msg|);
    var fs, rest := [first, second], [second];
    assert fs[1..] == rest && rest[1..] == [];
    assert Wires(rest) == Wire(second) + [] == Wire(second);
    assert Wires(fs) == Wire(first) + Wires(rest);
    FramesRefine(CLIENT, msg, fs);
    var c1 := Step(c, first).0;
    assert Steps(c1, rest).1 == [Message(OP_TEXT, [])] + [] == [Message(OP_TEXT, [])];
    assert Steps(c, fs).1 == [] + Steps(c1, rest).1;
  }

  lemma EmptyParts(cap: nat)
    ensures var c := Core(CLIENT, cap, OPEN, false, 0, []);
      var c1 := c.(inMessage := true, opcode := OP_TEXT);
      && Step(c, EmptyFrame(false, OP_TEXT)) == (c1, [])
      && Step(c1, EmptyFrame(true, OP_CONTINUATION)) == (c1.(inMessage := false), [Message(OP_TEXT, [])])
  {
    hide Utf8.WellFormed, Utf8.Viable;
    EmptyText();
    assert Clear(EmptyFrame(false, OP_TEXT)) == [] && Clear(EmptyFrame(true, OP_CONTINUATION)) == [];
    var none: seq<byte> := [];
    assert none + none == none;
  }

  lemma EmptyText()
    ensures Utf8.WellFormed([]) && Utf8.Viable([])
  {
    var none: seq<byte> := [];
    assert Utf8.EncodeAll([]) == none;
    assert none + none == none;
    assert Utf8.WellFormed(none + none);
  }
}
