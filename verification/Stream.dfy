/**
 * The meaning of a byte stream, read frame by frame with no buffers, and the proof that the
 * incremental machine with its shared message buffer computes it (section 5.4 of RFC 6455).
 */
module Stream {
  import opened Bytes
  import opened Mask
  import opened FrameHeader
  import opened ConnSpec
  import opened Session
  import Mem
  import Utf8

  // ----- The frame machine -----

  /** A connection without its buffers: `acc` is the message being collected, or the last one. */
  datatype Core = Core(role: Role, cap: nat, status: Status, inMessage: bool, opcode: byte, acc: seq<byte>)

  function OpcodeAfter(c: Core, h: Header): byte {
    if c.inMessage then c.opcode else h.opcode
  }

  function AccAfter(c: Core, f: Frame): seq<byte> {
    (if c.inMessage then c.acc else []) + Clear(f)
  }

  /** Text must be able to become well formed, and must be well formed at the end of the message. */
  ghost predicate TextOk(opcode: byte, acc: seq<byte>, fin: bool) {
    opcode == OP_TEXT ==> if fin then Utf8.WellFormed(acc) else Utf8.Viable(acc)
  }

  ghost predicate Acceptable(c: Core, f: Frame) {
    && |c.acc| + |f.payload| <= c.cap
    && HeaderOk(c.role, c.inMessage, f.h)
    && (!IsControl(f.h.opcode) && c.status == OPEN ==> TextOk(OpcodeAfter(c, f.h), AccAfter(c, f), f.h.fin))
  }

  /** One frame: the next state and the event, if any. */
  ghost function Step(c: Core, f: Frame): (Core, seq<Delivery>) {
    if !Acceptable(c, f) then (c.(status := CLOSED), [Error])
    else if f.h.opcode == OP_CLOSE then
      (c.(status := if c.status == OPEN then CLOSING else CLOSED), [Close(CloseCodeOf(Clear(f)))])
    else if f.h.opcode == OP_PING then (c, [Ping(Clear(f))])
    else if f.h.opcode == OP_PONG then (c, [Pong(Clear(f))])
    else if c.status != OPEN then (c, [])
    else
      var op, acc := OpcodeAfter(c, f.h), AccAfter(c, f);
      (c.(inMessage := !f.h.fin, opcode := op, acc := acc), if f.h.fin then [Message(op, acc)] else [])
  }

  /** What a frame means, by the number of its opcode (section 5.2 of RFC 6455). */
  lemma StepByOpcode(c: Core, f: Frame)
    requires Acceptable(c, f)
    ensures f.h.opcode in {0x0, 0x1, 0x2, 0x8, 0x9, 0xA}
    ensures f.h.opcode == 0x9 ==> Step(c, f) == (c, [Ping(Clear(f))])
    ensures f.h.opcode == 0xA ==> Step(c, f) == (c, [Pong(Clear(f))])
    ensures f.h.opcode == 0x8 ==>
      Step(c, f) == (c.(status := if c.status == OPEN then CLOSING else CLOSED), [Close(CloseCodeOf(Clear(f)))])
    ensures f.h.opcode in {0x0, 0x1, 0x2} && c.status != OPEN ==> Step(c, f) == (c, [])
    ensures f.h.opcode in {0x1, 0x2} && c.status == OPEN ==>
      && !c.inMessage
      && Step(c, f) == (c.(inMessage := !f.h.fin, opcode := f.h.opcode, acc := Clear(f)),
                        if f.h.fin then [Message(f.h.opcode, Clear(f))] else [])
    ensures f.h.opcode == 0x0 && c.status == OPEN ==>
      && c.inMessage
      && Step(c, f) == (c.(inMessage := !f.h.fin, acc := c.acc + Clear(f)),
                        if f.h.fin then [Message(c.opcode, c.acc + Clear(f))] else [])
  {
    hide Clear, CloseCodeOf, TextOk;
    assert [] + Clear(f) == Clear(f);
  }

  /** What a byte stream does: events, the completed frames, and the bytes after the last of them. */
  datatype Reading = Reading(core: Core, events: seq<Delivery>, frames: seq<Frame>, rest: seq<byte>)

  /** A complete frame at the start of `bytes`. */
  function HeadFrame(bytes: seq<byte>): Option<Frame> {
    match Parse(bytes)
    case NeedMore => None
    case Bad => None
    case Parsed(h) =>
      if |bytes| < h.headerLen + h.payloadLen then None
      else Some(Frame(h, bytes[h.headerLen..h.headerLen + h.payloadLen]))
  }

  /** The header at the start is malformed, or announces more than the capacity. */
  predicate HeaderRefused(c: Core, bytes: seq<byte>) {
    match Parse(bytes)
    case NeedMore => false
    case Bad => true
    case Parsed(h) => |c.acc| + h.payloadLen > c.cap
  }

  ghost function Read(c: Core, bytes: seq<byte>): Reading
    decreases |bytes|
  {
    if c.status == CLOSED then Reading(c, [], [], bytes)
    else if HeaderRefused(c, bytes) then Reading(c.(status := CLOSED), [Error], [], bytes)
    else
      match HeadFrame(bytes)
      case None => Reading(c, [], [], bytes)
      case Some(f) =>
        HeadFrameIs(bytes);
        var (c1, es) := Step(c, f);
        var r := Read(c1, bytes[|Wire(f)|..]);
        Reading(r.core, es + r.events, [f] + r.frames, r.rest)
  }

  lemma HeadFrameIs(bytes: seq<byte>)
    requires HeadFrame(bytes).Some?
    ensures var f := HeadFrame(bytes).value;
      ValidFrame(f) && Wire(f) <= bytes && |Wire(f)| >= 2 && Parse(bytes) == Parsed(f.h)
  {
    ParseSound(bytes);
    var h := Parse(bytes).h;
    assert bytes[..h.headerLen + h.payloadLen] == bytes[..h.headerLen] + bytes[h.headerLen..h.headerLen + h.payloadLen];
  }

  lemma HeadFrameOf(f: Frame, more: seq<byte>)
    requires ValidFrame(f)
    ensures Parse(Wire(f) + more) == Parsed(f.h) && HeadFrame(Wire(f) + more) == Some(f)
    ensures (Wire(f) + more)[|Wire(f)|..] == more
  {
    assert Wire(f) + more == HeaderBytes(f.h) + (f.payload + more);
    ParseComplete(f.h, f.payload + more);
  }

  // ----- How the machine represents it -----

  function CoreOf(s: State): Core
    requires s.msgLen <= |s.msg|
  {
    Core(s.role, |s.msg|, s.status, s.inMessage, s.msgOpcode, s.msg[..s.msgLen])
  }

  /** The bytes of the unfinished frame. */
  function Staged(s: State): seq<byte>
    requires Valid(s)
  {
    Hdr(s) + s.msg[s.msgLen..s.msgLen + s.got]
  }

  /** The header bytes are those of exactly one header, or not yet a header. */
  predicate HeaderSound(s: State)
    requires Valid(s)
  {
    if s.hdrDone then s.rxhdrLen == Parse(Hdr(s)).h.headerLen else Parse(Hdr(s)).NeedMore?
  }

  /** The automaton has read exactly the text collected so far. */
  predicate TextSound(s: State)
    requires Valid(s)
  {
    s.inMessage && s.msgOpcode == OP_TEXT ==> Utf8.Feed(Utf8.START, s.msg[..s.msgLen]) == (s.utf8, true)
  }

  predicate Sound(s: State) {
    && Valid(s)
    && (s.status != CLOSED ==> HeaderSound(s))
    && (s.status == OPEN ==> TextSound(s))
  }

  /** The machine, after some calls, is where a reading says; a closed machine stays as it is. */
  predicate Matches(s: State, c: Core, rest: seq<byte>) {
    && Sound(s)
    && s.status == c.status
    && (s.status != CLOSED ==> CoreOf(s) == c && Staged(s) == rest)
  }

  lemma InitSound(role: Role, msg: seq<byte>)
    requires |msg| < TWO63
    ensures Sound(Init(role, msg)) && Ready(Init(role, msg)) && Staged(Init(role, msg)) == []
    ensures CoreOf(Init(role, msg)) == Core(role, |msg|, OPEN, false, 0, [])
  {
  }

  // ----- A complete frame -----

  /** A frame whose payload lies in the scratch area. */
  predicate Holds(s: State, f: Frame) {
    ValidFrame(f) && Fits(s, f.h) && s.msg[s.msgLen..s.msgLen + |f.payload|] == f.payload
  }

  lemma UnmaskedHolds(s: State, f: Frame)
    requires Sized(s) && Holds(s, f)
    ensures var u := Unmasked(s, f.h);
      && u == s.(msg := u.msg) && |u.msg| == |s.msg|
      && u.msg[..s.msgLen] == s.msg[..s.msgLen]
      && u.msg[s.msgLen..s.msgLen + |f.payload|] == Clear(f)
      && u.msg[s.msgLen + |f.payload|..] == s.msg[s.msgLen + |f.payload|..]
  {
    hide MaskSeq;
  }

  /** The move puts the fragment right behind what was collected, whatever overlaps. */
  lemma MovedAcc(msg: seq<byte>, dst: nat, pl: nat, n: nat)
    requires dst <= pl && pl + n <= |msg|
    ensures Mem.Moved(msg, dst, pl, n)[..dst + n] == msg[..dst] + msg[pl..pl + n]
    ensures Mem.Moved(msg, dst, pl, n)[dst..dst + n] == msg[pl..pl + n]
  {
  }

  /** The automaton's verdict on a fragment is the verdict on the whole text so far. */
  lemma TextVerdict(u: Utf8.Cursor, acc: seq<byte>, more: seq<byte>)
    requires Utf8.Feed(Utf8.START, acc) == (u, true)
    ensures Utf8.Feed(Utf8.START, acc + more) == Utf8.Feed(u, more)
    ensures Utf8.Feed(u, more).1 <==> Utf8.Viable(acc + more)
    ensures Utf8.Feed(u, more).1 && Utf8.Feed(u, more).0.remaining == 0 <==> Utf8.WellFormed(acc + more)
  {
    Utf8.FeedConcat(Utf8.START, acc, more);
    Utf8.FeedIsViable(acc + more);
    Utf8.ValidIsWellFormed(acc + more);
  }

  /** A data frame in OPEN, already unmasked, does what the frame machine does. */
  lemma DataRefines(s: State, f: Frame, clear: seq<byte>)
    requires Sound(s) && s.status == OPEN && s.pending == EV_NONE && !s.hdrDone && s.rxhdrLen == 0
    requires ValidFrame(f) && Fits(s, f.h) && |clear| == |f.payload|
    requires s.msg[s.msgLen..s.msgLen + |clear|] == clear
    requires DataOk(s.inMessage, f.h)
    ensures var c := CoreOf(s);
      var op, acc := OpcodeAfter(c, f.h), (if c.inMessage then c.acc else []) + clear;
      var s1 := AcceptData(s, f.h, s.msgLen);
      && Valid(s1)
      && if TextOk(op, acc, f.h.fin) then
           && s1.status == OPEN
           && CoreOf(s1) == c.(inMessage := !f.h.fin, opcode := op, acc := acc)
           && Drained(s1) == (if f.h.fin then [Message(op, acc)] else [])
           && TextSound(s1) && s1.rxhdrLen == 0 && !s1.hdrDone
         else s1.status == CLOSED && Drained(s1) == [Error]
  {
    hide Utf8.Feed, Utf8.Viable, Utf8.WellFormed, Utf8.Reachable, Parse, Mem.Moved, MaskSeq, ValidHeader;
    AcceptDataValid(s, f.h, s.msgLen);
    var b := if s.inMessage then s else BeginMessage(s, f.h);
    var n := |clear|;
    MovedAcc(s.msg, b.msgLen, s.msgLen, n);
    assert s.msg[..b.msgLen] == if s.inMessage then s.msg[..s.msgLen] else [];
    if b.msgOpcode == OP_TEXT {
      Utf8.FeedNothing(Utf8.START);
      TextVerdict(b.utf8, s.msg[..b.msgLen], clear);
    }
  }

  lemma ControlRefines(s: State, f: Frame, clear: seq<byte>)
    requires Sound(s) && s.status != CLOSED && s.pending == EV_NONE && !s.hdrDone && s.rxhdrLen == 0
    requires ValidFrame(f) && Fits(s, f.h) && |clear| == |f.payload|
    requires s.msg[s.msgLen..s.msgLen + |clear|] == clear
    requires ControlOk(f.h)
    ensures var s1 := Dispatch(s, f.h, s.msgLen);
      && Sound(s1) && s1.rxhdrLen == 0 && !s1.hdrDone
      && s1 == s.(status := s1.status, ev := s1.ev, pending := s1.pending)
      && s1.status == (if f.h.opcode != OP_CLOSE then s.status else if s.status == OPEN then CLOSING else CLOSED)
      && (f.h.opcode in {0x9, 0xA} ==> s1.ev.opcode == f.h.opcode)
      && Drained(s1) == [if f.h.opcode == OP_CLOSE then Close(CloseCodeOf(clear))
                         else if f.h.opcode == OP_PING then Ping(clear) else Pong(clear)]
  {
  }

  /** Between frames, with nothing staged and nothing pending. */
  predicate AtFrameEnd(s: State) {
    Sound(s) && s.status != CLOSED && s.pending == EV_NONE && !s.hdrDone && s.rxhdrLen == 0
  }

  lemma UnmaskedAtEnd(s: State, f: Frame)
    requires AtFrameEnd(s) && Holds(s, f)
    ensures var u := Unmasked(s, f.h);
      && AtFrameEnd(u) && CoreOf(u) == CoreOf(s) && Fits(u, f.h)
      && u.msg[s.msgLen..s.msgLen + |f.payload|] == Clear(f)
  {
    UnmaskedHolds(s, f);
  }

  lemma DataFrameSteps(c: Core, f: Frame)
    requires |c.acc| + |f.payload| <= c.cap && HeaderOk(c.role, c.inMessage, f.h) && !IsControl(f.h.opcode)
    ensures c.status == OPEN ==>
      var op, acc := OpcodeAfter(c, f.h), AccAfter(c, f);
      Step(c, f) ==
        if TextOk(op, acc, f.h.fin) then
          (c.(inMessage := !f.h.fin, opcode := op, acc := acc), if f.h.fin then [Message(op, acc)] else [])
        else (c.(status := CLOSED), [Error])
    ensures c.status != OPEN ==> Step(c, f) == (c, [])
  {
  }

  lemma DataFrameRefines(s: State, f: Frame)
    requires AtFrameEnd(s) && Holds(s, f) && HeaderOk(s.role, s.inMessage, f.h) && !IsControl(f.h.opcode)
    ensures var (c1, es) := Step(CoreOf(s), f);
      var s1 := Consume(s, f.h);
      Matches(s1, c1, []) && Drained(s1) == es
  {
    hide AcceptData, TextOk, Clear, Parse, Step, Unmasked, Utf8.Reachable;
    UnmaskedAtEnd(s, f);
    var u := Unmasked(s, f.h);
    DataFrameSteps(CoreOf(s), f);
    if s.status == OPEN {
      assert Consume(s, f.h) == AcceptData(u, f.h, u.msgLen);
      OpenDataRefines(u, f);
    } else {
      assert Consume(s, f.h) == u;
    }
  }

  lemma OpenDataRefines(u: State, f: Frame)
    requires AtFrameEnd(u) && ValidFrame(f) && Fits(u, f.h) && DataOk(u.inMessage, f.h) && u.status == OPEN
    requires u.msg[u.msgLen..u.msgLen + |f.payload|] == Clear(f)
    ensures var c := CoreOf(u);
      var op, acc := OpcodeAfter(c, f.h), AccAfter(c, f);
      var s1 := AcceptData(u, f.h, u.msgLen);
      if TextOk(op, acc, f.h.fin) then
        && Matches(s1, c.(inMessage := !f.h.fin, opcode := op, acc := acc), [])
        && Drained(s1) == (if f.h.fin then [Message(op, acc)] else [])
      else Matches(s1, c.(status := CLOSED), []) && Drained(s1) == [Error]
  {
    hide AcceptData, TextOk, Clear, Parse, Utf8.Reachable, DataOk;
    DataRefines(u, f, Clear(f));
  }

  lemma ControlFrameRefines(s: State, f: Frame)
    requires AtFrameEnd(s) && Holds(s, f) && HeaderOk(s.role, s.inMessage, f.h) && IsControl(f.h.opcode)
    ensures var (c1, es) := Step(CoreOf(s), f);
      var s1 := Consume(s, f.h);
      Matches(s1, c1, []) && Drained(s1) == es
  {
    UnmaskedAtEnd(s, f);
    var u := Unmasked(s, f.h);
    assert Consume(s, f.h) == Dispatch(u, f.h, u.msgLen);
    ControlRefines(u, f, Clear(f));
    assert Acceptable(CoreOf(s), f);
  }

  /** A complete frame: the machine and the frame machine agree. */
  lemma FrameRefines(s: State, f: Frame)
    requires AtFrameEnd(s) && Holds(s, f)
    ensures var (c1, es) := Step(CoreOf(s), f);
      var s1 := Consume(s, f.h);
      Matches(s1, c1, []) && Drained(s1) == es
  {
    if !HeaderOk(s.role, s.inMessage, f.h) {
      ConsumeValid(s, f.h);
      assert !Acceptable(CoreOf(s), f);
    } else if IsControl(f.h.opcode) {
      ControlFrameRefines(s, f);
    } else {
      DataFrameRefines(s, f);
    }
  }

  // ----- One byte -----

  /** What the unfinished frame is: no complete frame, and no refusal. */
  lemma StagedIncomplete(s: State)
    requires Sound(s) && s.status != CLOSED
    ensures HeadFrame(Staged(s)) == None && !HeaderRefused(CoreOf(s), Staged(s))
  {
    var x := Staged(s);
    if s.hdrDone {
      ParseStable(Hdr(s), s.msg[s.msgLen..s.msgLen + s.got]);
    } else {
      assert x == Hdr(s);
    }
  }

  /** A header that is decided by its last byte ends at that byte. */
  lemma HeaderEndsHere(before: seq<byte>, b: byte)
    requires Parse(before).NeedMore? && Parse(before + [b]).Parsed?
    ensures Parse(before + [b]).h.headerLen == |before| + 1
  {
    var h := Parse(before + [b]).h;
    ParseSound(before + [b]);
    if h.headerLen <= |before| {
      assert before == HeaderBytes(h) + before[h.headerLen..];
      ParseComplete(h, before[h.headerLen..]);
    }
  }

  /** The byte leaves the frame unfinished. */
  predicate Grown(c: Core, s1: State, x: seq<byte>) {
    Sound(s1) && s1.pending == EV_NONE && s1.status == c.status != CLOSED && CoreOf(s1) == c && Staged(s1) == x
  }

  lemma HeaderByteRefines(s: State, b: byte)
    requires Sound(s) && s.status != CLOSED && s.pending == EV_NONE && !s.hdrDone && CanTake(s)
    ensures ByteOutcome(s, Staged(s) + [b], TakeByte(s, b))
  {
    var p := PushHdr(s, b);
    var x := Staged(s) + [b];
    assert Hdr(p) == Hdr(s) + [b] == x;
    match Parse(x)
    case NeedMore =>
    case Bad =>
    case Parsed(h) =>
      HeaderEndsHere(Hdr(s), b);
      if Fits(p, h) {
        HeaderDone(p, x, h);
      }
  }

  /** A frame without payload is handled as soon as its header is complete. */
  lemma EmptyFrameStep(p: State, h: Header)
    requires Sized(p) && Parse(Hdr(p)) == Parsed(h) && Fits(p, h) && h.payloadLen == 0
    ensures HeaderStep(p) == (Consume(p.(rxhdrLen := 0, hdrDone := false, got := 0, need := 0), h), true)
  {
    hide Consume, Parse;
    assert Hdr(p.(hdrDone := true, got := 0, need := 0)) == Hdr(p);
  }

  /** The byte that completes a header which is accepted. */
  lemma HeaderDone(p: State, x: seq<byte>, h: Header)
    requires Valid(p) && !p.hdrDone && p.status != CLOSED && p.pending == EV_NONE && Hdr(p) == x
    requires p.status == OPEN ==> TextSound(p)
    requires Parse(x) == Parsed(h) && h.headerLen == |x| && Fits(p, h)
    ensures ByteOutcome(p, x, HeaderStep(p))
  {
    var s1 := p.(hdrDone := true, got := 0, need := h.payloadLen);
    assert Hdr(s1) == x;
    if h.payloadLen == 0 {
      var t := s1.(rxhdrLen := 0, hdrDone := false, got := 0);
      var f := Frame(h, []);
      ParseSound(x);
      assert HeadFrame(x) == Some(f);
      assert CoreOf(t) == CoreOf(p);
      FrameRefines(t, f);
      EmptyFrameStep(p, h);
      assert Wire(f) == x;
    } else {
      assert s1.msg[s1.msgLen..s1.msgLen + s1.got] == [] && x + [] == x;
      assert Staged(s1) == x;
    }
  }

  lemma EmptyHeader()
    ensures Parse([]).NeedMore?
  {
  }

  lemma PayloadByteRefines(s: State, b: byte)
    requires Sound(s) && s.status != CLOSED && s.pending == EV_NONE && s.hdrDone
    ensures ByteOutcome(s, Staged(s) + [b], TakeByte(s, b))
  {
    hide Parse, Consume, Utf8.Reachable, Step;
    EmptyHeader();
    var x := Staged(s) + [b];
    var h := Parse(Hdr(s)).h;
    var s1 := Stored(s, b);
    var body := s1.msg[s.msgLen..s.msgLen + s1.got];
    assert Hdr(s1) == Hdr(s);
    assert body == s.msg[s.msgLen..s.msgLen + s.got] + [b];
    assert x == Hdr(s) + body;
    ParseStable(Hdr(s), body);
    assert s1.msg[..s.msgLen] == s.msg[..s.msgLen];
    if s1.got == s1.need {
      var t := s1.(rxhdrLen := 0, hdrDone := false, got := 0);
      assert TakeByte(s, b) == (Consume(t, h), true);
      PayloadDone(s, t, x, h, body);
    } else {
      PayloadStepValid(s, b);
      assert TakeByte(s, b) == (s1, false);
      assert HeadFrame(x) == None;
    }
  }

  /** The byte that completes a payload. */
  lemma PayloadDone(s: State, t: State, x: seq<byte>, h: Header, body: seq<byte>)
    requires Sound(s) && s.hdrDone && Parse(Hdr(s)) == Parsed(h)
    requires AtFrameEnd(t) && CoreOf(t) == CoreOf(s) && Fits(t, h)
    requires |body| == h.payloadLen && t.msg[t.msgLen..t.msgLen + h.payloadLen] == body
    requires s.status != CLOSED && x == Hdr(s) + body && Parse(x) == Parsed(h)
    ensures ByteOutcome(s, x, (Consume(t, h), true))
  {
    hide Consume, Step, HeaderBytes, Clear, TextSound, Utf8.Reachable, EventOk;
    var f := Frame(h, body);
    ParseSound(Hdr(s));
    assert Hdr(s) == HeaderBytes(h);
    assert x[h.headerLen..h.headerLen + h.payloadLen] == body;
    assert HeadFrame(x) == Some(f) && Wire(f) == x;
    FrameRefines(t, f);
  }

  /** What one byte does, read off the bytes of the current frame including it. */
  ghost predicate ByteOutcome(s: State, x: seq<byte>, r: (State, bool))
    requires s.msgLen <= |s.msg|
  {
    var c := CoreOf(s);
    if HeaderRefused(c, x) then
      r.1 && Matches(r.0, c.(status := CLOSED), []) && Drained(r.0) == [Error]
    else
      match HeadFrame(x)
      case None => !r.1 && Grown(c, r.0, x)
      case Some(f) =>
        && r.1 && ValidFrame(f) && Wire(f) == x
        && Matches(r.0, Step(c, f).0, []) && Drained(r.0) == Step(c, f).1
  }

  lemma ByteRefines(s: State, b: byte)
    requires Sound(s) && s.status != CLOSED && s.pending == EV_NONE && CanTake(s)
    ensures ByteOutcome(s, Staged(s) + [b], TakeByte(s, b))
  {
    if s.hdrDone {
      PayloadByteRefines(s, b);
    } else {
      HeaderByteRefines(s, b);
    }
  }

  /** A sound connection that is not closed always takes the next byte. */
  lemma SoundTakes(s: State)
    requires Sound(s) && s.status != CLOSED
    ensures CanTake(s)
  {
    if !s.hdrDone && s.rxhdrLen == HDR_MAX {
      ParseDecides(Hdr(s));
    }
  }

  // ----- Whole streams -----

  /** Decisions about the first bytes of a stream do not change when more bytes follow. */
  lemma ReadAhead(c: Core, x: seq<byte>, more: seq<byte>)
    ensures HeaderRefused(c, x) ==> HeaderRefused(c, x + more)
    ensures !HeaderRefused(c, x) && HeadFrame(x).Some? ==>
      !HeaderRefused(c, x + more) && HeadFrame(x + more) == HeadFrame(x)
  {
    if !Parse(x).NeedMore? {
      ParseStable(x, more);
      if HeadFrame(x).Some? {
        var h := Parse(x).h;
        assert (x + more)[h.headerLen..h.headerLen + h.payloadLen] == x[h.headerLen..h.headerLen + h.payloadLen];
      }
    }
  }

  /** The rest of a reading after the state `s1` has taken one more byte. */
  ghost predicate Continues(r: Reading, s1: State, rest: seq<byte>) {
    && Sound(s1)
    && if s1.status == CLOSED then
         r.events == Drained(s1) && r.core.status == CLOSED && (Drained(s1) != [Error] ==> r.rest == rest)
       else
         var r1 := Read(CoreOf(s1), Staged(s1) + rest);
         r.events == Drained(s1) + r1.events && r.core == r1.core && r.rest == r1.rest
  }

  lemma GrownContinues(c: Core, s1: State, x: seq<byte>, rest: seq<byte>)
    requires Grown(c, s1, x)
    ensures Continues(Read(c, x + rest), s1, rest)
  {
    var r1 := Read(CoreOf(s1), Staged(s1) + rest);
    assert Drained(s1) + r1.events == r1.events;
  }

  lemma FrameContinues(c: Core, s1: State, f: Frame, rest: seq<byte>)
    requires ValidFrame(f) && c.status != CLOSED && !HeaderRefused(c, Wire(f) + rest)
    requires Matches(s1, Step(c, f).0, []) && Drained(s1) == Step(c, f).1
    ensures Continues(Read(c, Wire(f) + rest), s1, rest)
  {
    ReadOne(c, f, rest);
    var (c1, es) := Step(c, f);
    if s1.status == CLOSED {
      assert Read(c1, rest).events == [];
      assert es + [] == es;
    } else {
      assert Staged(s1) + rest == rest;
    }
  }

  lemma OutcomeContinues(s: State, x: seq<byte>, r: (State, bool), rest: seq<byte>)
    requires Sound(s) && s.status != CLOSED && ByteOutcome(s, x, r)
    ensures Continues(Read(CoreOf(s), x + rest), r.0, rest)
  {
    var c := CoreOf(s);
    ReadAhead(c, x, rest);
    if HeaderRefused(c, x) {
    } else if HeadFrame(x).None? {
      GrownContinues(c, r.0, x, rest);
    } else {
      FrameContinues(c, r.0, HeadFrame(x).value, rest);
    }
  }

  /** The state after the first byte, seen from the reading of all of them. */
  lemma FirstByteReads(s: State, b: byte, rest: seq<byte>)
    requires Sound(s) && s.pending == EV_NONE && s.status != CLOSED && CanTake(s)
    ensures Continues(Read(CoreOf(s), (Staged(s) + [b]) + rest), TakeByte(s, b).0, rest)
  {
    ByteRefines(s, b);
    OutcomeContinues(s, Staged(s) + [b], TakeByte(s, b), rest);
  }

  /**
   * Refinement for every byte string: feeding it to the machine yields the events of the reading of
   * the staged bytes followed by the input, and leaves the machine where the reading ends.
   */
  lemma {:induction false} FeedRefines(s: State, input: seq<byte>)
    requires Sound(s) && Ready(s)
    ensures Refined(s, input, FeedBytes(s, input))
    decreases |input|
  {
    hide TakeByte, Parse, Step, Hdr, TextSound, HeaderSound, HeadFrame, HeaderRefused, Wire, EventOk, Utf8.Reachable;
    if s.status == CLOSED {
    } else if input == [] {
      StagedIncomplete(s);
      assert Staged(s) + input == Staged(s);
    } else {
      var rest := input[1..];
      SoundTakes(s);
      FirstByteReads(s, input[0], rest);
      assert (Staged(s) + [input[0]]) + rest == Staged(s) + input;
      PollKeeps(TakeByte(s, input[0]).0);
      FeedUnfold(s, input);
      FeedRefines(Poll(TakeByte(s, input[0]).0), rest);
      FeedJoins(s, input, TakeByte(s, input[0]).0);
    }
  }

  /** What the refinement says about an input. */
  ghost predicate Refined(s: State, input: seq<byte>, o: Outcome)
    requires Valid(s)
  {
    var r := Read(CoreOf(s), if s.status == CLOSED then input else Staged(s) + input);
    && o.events == r.events && Matches(o.s, r.core, r.rest)
    && (o.s.status != CLOSED ==> o.used == |input|)
    && (Error !in o.events && o.s.status == CLOSED ==> o.used <= |input| && r.rest == input[o.used..])
  }

  /** The first byte's event followed by the events of the rest. */
  lemma FeedJoins(s: State, input: seq<byte>, s1: State)
    requires Sound(s) && Ready(s) && s.status != CLOSED && input != []
    requires Sound(s1) && Ready(Poll(s1)) && CoreOf(Poll(s1)) == CoreOf(s1) && Staged(Poll(s1)) == Staged(s1)
    requires Continues(Read(CoreOf(s), Staged(s) + input), s1, input[1..])
    requires FeedBytes(s, input) == Then(Outcome(s1, Drained(s1), 1), FeedBytes(Poll(s1), input[1..]))
    requires Refined(Poll(s1), input[1..], FeedBytes(Poll(s1), input[1..]))
    ensures Refined(s, input, FeedBytes(s, input))
  {
    hide TakeByte, FeedBytes, HeaderSound, TextSound, Staged, Step, HeaderRefused, HeadFrame, Drained;
    if s1.status == CLOSED {
      ClosedReads(CoreOf(Poll(s1)), input[1..]);
      assert Drained(s1) + [] == Drained(s1);
    }
  }

  lemma ClosedReads(c: Core, bytes: seq<byte>)
    requires c.status == CLOSED
    ensures Read(c, bytes) == Reading(c, [], [], bytes)
  {
  }

  lemma PollKeeps(s: State)
    requires Sound(s)
    ensures Sound(Poll(s)) && Ready(Poll(s)) && CoreOf(Poll(s)) == CoreOf(s) && Staged(Poll(s)) == Staged(s)
  {
  }

  function Wires(fs: seq<Frame>): seq<byte>
    requires forall f :: f in fs ==> ValidFrame(f)
  {
    if fs == [] then [] else Wire(fs[0]) + Wires(fs[1..])
  }

  /** A reading that completes a frame. */
  lemma ReadHead(c: Core, bytes: seq<byte>) returns (f: Frame, tail: seq<byte>)
    requires c.status != CLOSED && !HeaderRefused(c, bytes) && HeadFrame(bytes).Some?
    ensures ValidFrame(f) && bytes == Wire(f) + tail && |tail| < |bytes|
    ensures var r, r1 := Read(c, bytes), Read(Step(c, f).0, tail);
      r.events == Step(c, f).1 + r1.events && r.frames == [f] + r1.frames && r.rest == r1.rest && r.core == r1.core
  {
    hide Parse, Step;
    HeadFrameIs(bytes);
    f := HeadFrame(bytes).value;
    tail := bytes[|Wire(f)|..];
  }

  lemma ReadNothing(c: Core, bytes: seq<byte>)
    requires c.status == CLOSED || HeaderRefused(c, bytes) || HeadFrame(bytes).None?
    ensures Read(c, bytes).frames == [] && Read(c, bytes).rest == bytes
  {
  }

  lemma WiresCons(f: Frame, fs: seq<Frame>, rest: seq<byte>)
    requires ValidFrame(f) && forall g :: g in fs ==> ValidFrame(g)
    ensures forall g :: g in [f] + fs ==> ValidFrame(g)
    ensures Wires([f] + fs) + rest == Wire(f) + (Wires(fs) + rest)
  {
    hide ValidFrame, Wire;
    assert ([f] + fs)[1..] == fs;
  }

  lemma {:induction false} WiresSnoc(fs: seq<Frame>, f: Frame)
    requires ValidFrame(f) && forall g :: g in fs ==> ValidFrame(g)
    ensures Wires(fs + [f]) == Wires(fs) + Wire(f)
    decreases |fs|
  {
    if fs == [] {
      assert fs + [f] == [f];
      assert [f][1..] == [];
    } else {
      assert (fs + [f])[1..] == fs[1..] + [f];
      WiresSnoc(fs[1..], f);
    }
  }

  /** The bytes read are exactly the completed frames followed by the rest. */
  lemma {:induction false} ReadConserves(c: Core, bytes: seq<byte>)
    ensures var r := Read(c, bytes);
      && (forall f :: f in r.frames ==> ValidFrame(f))
      && bytes == Wires(r.frames) + r.rest
    decreases |bytes|
  {
    hide HeaderRefused, HeadFrame, Read, Step, ValidFrame, Wire;
    if c.status != CLOSED && !HeaderRefused(c, bytes) && HeadFrame(bytes).Some? {
      var f, tail := ReadHead(c, bytes);
      var r1 := Read(Step(c, f).0, tail);
      ReadConserves(Step(c, f).0, tail);
      WiresCons(f, r1.frames, r1.rest);
    } else {
      ReadNothing(c, bytes);
      assert [] + bytes == bytes;
    }
  }

  /** The frame machine on a list of frames. */
  ghost function Steps(c: Core, fs: seq<Frame>): (Core, seq<Delivery>)
    decreases |fs|
  {
    if fs == [] || c.status == CLOSED then (c, [])
    else
      var (c1, es) := Step(c, fs[0]);
      var (c2, more) := Steps(c1, fs[1..]);
      (c2, es + more)
  }

  /** What reading a stream that starts with a whole frame does. */
  lemma ReadOne(c: Core, f: Frame, tail: seq<byte>)
    requires ValidFrame(f) && c.status != CLOSED
    ensures var (c1, es) := Step(c, f);
      var r, r1 := Read(c, Wire(f) + tail), Read(c1, tail);
      && r.events == es + r1.events && r.core.status == r1.core.status
      && (c1.status != CLOSED ==> r == Reading(r1.core, es + r1.events, [f] + r1.frames, r1.rest))
      && (es != [Error] ==> r.rest == r1.rest)
  {
    HeadFrameOf(f, tail);
    if HeaderRefused(c, Wire(f) + tail) {
      assert !Acceptable(c, f);
      assert [Error] + [] == [Error];
    }
  }

  /** The reading `all` starts with the frames `fs`, which lead to `c` with the events `es`. */
  ghost predicate StartsWith(all: Reading, c: Core, es: seq<Delivery>, fs: seq<Frame>, more: seq<byte>) {
    if c.status == CLOSED then all.events == es && all.core.status == CLOSED
    else
      var r := Read(c, more);
      all == Reading(r.core, es + r.events, fs + r.frames, r.rest)
  }

  lemma StartsWithBoth(all: Reading, c1: Core, es1: seq<Delivery>, fs1: seq<Frame>, more1: seq<byte>,
                       c2: Core, es2: seq<Delivery>, fs2: seq<Frame>, more2: seq<byte>)
    requires c1.status != CLOSED && StartsWith(all, c1, es1, fs1, more1)
    requires StartsWith(Read(c1, more1), c2, es2, fs2, more2)
    ensures StartsWith(all, c2, es1 + es2, fs1 + fs2, more2)
  {
    hide Read;
    var r := Read(c2, more2);
    assert es1 + (es2 + r.events) == (es1 + es2) + r.events;
    assert fs1 + (fs2 + r.frames) == (fs1 + fs2) + r.frames;
  }

  /** Reading the wire form of frames followed by anything is stepping through the frames first. */
  lemma {:induction false} ReadFrames(c: Core, fs: seq<Frame>, more: seq<byte>)
    requires forall f :: f in fs ==> ValidFrame(f)
    requires c.status != CLOSED
    ensures StartsWith(Read(c, Wires(fs) + more), Steps(c, fs).0, Steps(c, fs).1, fs, more)
    decreases |fs|
  {
    hide Step, HeadFrame, HeaderRefused, Wire, ValidFrame;
    if fs == [] {
      assert Wires(fs) + more == more;
      var r := Read(c, more);
      assert [] + r.events == r.events && [] + r.frames == r.frames;
    } else {
      var f, tail := fs[0], Wires(fs[1..]) + more;
      var (c1, es) := Step(c, f);
      assert Wires(fs) + more == Wire(f) + tail;
      ReadOne(c, f, tail);
      if c1.status == CLOSED {
        assert Steps(c, fs) == (c1, es + []);
        assert es + [] == es;
      } else {
        ReadFrames(c1, fs[1..], more);
        var (c2, es2) := Steps(c1, fs[1..]);
        StartsWithBoth(Read(c, Wire(f) + tail), c1, es, [f], tail, c2, es2, fs[1..], more);
        assert [f] + fs[1..] == fs;
      }
    }
  }

  /** Refinement for frame lists: the machine emits the events of the frame machine. */
  lemma FramesRefine(role: Role, msg: seq<byte>, fs: seq<Frame>)
    requires |msg| < TWO63 && forall f :: f in fs ==> ValidFrame(f)
    ensures var c := Core(role, |msg|, OPEN, false, 0, []);
      var o := FeedBytes(Init(role, msg), Wires(fs));
      && o.events == Steps(c, fs).1
      && Matches(o.s, Steps(c, fs).0, [])
  {
    var c := Core(role, |msg|, OPEN, false, 0, []);
    InitSound(role, msg);
    FeedRefines(Init(role, msg), Wires(fs));
    assert Staged(Init(role, msg)) + Wires(fs) == Wires(fs);
    ReadFrames(c, fs, []);
    assert Wires(fs) + [] == Wires(fs);
    var (c1, es) := Steps(c, fs);
    if c1.status != CLOSED {
      assert Read(c1, []) == Reading(c1, [], [], []);
      assert es + [] == es;
    }
  }

  // ----- Consequences -----

  /**
   * Conservation: without an error, the bytes staged before and the bytes consumed are exactly the
   * completed frames followed by the bytes staged now.
   */
  lemma Conservation(s: State, input: seq<byte>)
    requires Sound(s) && Ready(s) && s.status != CLOSED
    requires Error !in FeedBytes(s, input).events
    ensures var o, r := FeedBytes(s, input), Read(CoreOf(s), Staged(s) + input);
      && (forall f :: f in r.frames ==> ValidFrame(f)) && o.used <= |input| && Sound(o.s)
      && Staged(s) + input[..o.used] == Wires(r.frames) + (if o.s.status == CLOSED then [] else Staged(o.s))
      && (o.s.status != CLOSED ==> o.used == |input|)
  {
    hide TakeByte, FeedBytes, HeaderSound, TextSound, Staged, Step, HeaderRefused, HeadFrame, ValidFrame,
      Wires, Read, Parse;
    FeedRefines(s, input);
    var o, r := FeedBytes(s, input), Read(CoreOf(s), Staged(s) + input);
    ReadConserves(CoreOf(s), Staged(s) + input);
    if o.s.status == CLOSED {
      var done := input[..o.used];
      assert Staged(s) + input == (Staged(s) + done) + input[o.used..] by { assert input == done + input[o.used..]; }
      SameFront(Staged(s) + done, Wires(r.frames), r.rest);
      assert Wires(r.frames) + [] == Wires(r.frames);
    } else {
      assert input[..|input|] == input;
    }
  }

  lemma SameFront(a: seq<byte>, b: seq<byte>, tail: seq<byte>)
    requires a + tail == b + tail
    ensures a == b
  {
    assert |a| == |b|;
    assert a == (a + tail)[..|a|] && b == (b + tail)[..|b|];
  }

  /** Progress: a call on a drained connection that is not closed consumes some of any non-empty input. */
  lemma Progress(s: State, buf: seq<byte>)
    requires Sound(s) && Ready(s) && s.status != CLOSED && buf != []
    ensures 0 < Recv(s, buf).1 <= |buf|
  {
    SoundTakes(s);
    RecvIsFeed(s, buf);
  }

  /** One call never reads past the frame under way: before its last byte the frame is incomplete. */
  lemma {:induction false} NeverPastTheFrame(s: State, buf: seq<byte>, i: nat)
    requires Sound(s) && Ready(s) && s.status != CLOSED && i < RecvFrame(s, buf).1
    ensures HeadFrame(Staged(s) + buf[..i]) == None && !HeaderRefused(CoreOf(s), Staged(s) + buf[..i])
    decreases |buf|
  {
    hide TakeByte, Parse, Step, TextSound, HeadFrame, HeaderRefused, Hdr, Wire;
    StagedIncomplete(s);
    assert Staged(s) + [] == Staged(s);
    if i > 0 {
      ByteRefines(s, buf[0]);
      assert buf[..i] == [buf[0]] + buf[1..][..i - 1];
      assert Staged(s) + buf[..i] == (Staged(s) + [buf[0]]) + buf[1..][..i - 1];
      NeverPastTheFrame(TakeByte(s, buf[0]).0, buf[1..], i - 1);
    }
  }

  /** Every text message in a reading is well formed as a whole. */
  lemma {:induction false} TextIsWellFormed(c: Core, bytes: seq<byte>, i: nat)
    requires i < |Read(c, bytes).events| && Read(c, bytes).events[i].Message?
    requires Read(c, bytes).events[i].opcode == OP_TEXT
    ensures Utf8.WellFormed(Read(c, bytes).events[i].data)
    decreases |bytes|
  {
    hide HeadFrame, HeaderRefused, ValidFrame, Wire, Clear, CloseCodeOf, Utf8.WellFormed, Utf8.Viable;
    if c.status != CLOSED && !HeaderRefused(c, bytes) && HeadFrame(bytes).Some? {
      var f, tail := ReadHead(c, bytes);
      var (c1, es) := Step(c, f);
      if i >= |es| {
        TextIsWellFormed(c1, tail, i - |es|);
      }
    }
  }

  /** A TEXT MESSAGE event carries well-formed text, however it was fragmented and chunked. */
  lemma TextMessages(s: State, chunks: seq<seq<byte>>, i: nat)
    requires Sound(s) && Ready(s) && s.status != CLOSED
    requires i < |FeedChunks(s, chunks).events| && FeedChunks(s, chunks).events[i].Message?
    requires FeedChunks(s, chunks).events[i].opcode == OP_TEXT
    ensures Utf8.WellFormed(FeedChunks(s, chunks).events[i].data)
  {
    hide TakeByte, FeedBytes, FeedChunks, Read, Parse, Utf8.WellFormed;
    ChunkingIndependence(s, chunks);
    FeedRefines(s, Flatten(chunks));
    TextIsWellFormed(CoreOf(s), Staged(s) + Flatten(chunks), i);
  }
}
