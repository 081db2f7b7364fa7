/**
 * The one message buffer over whole runs: which bytes it holds, and why the second capacity check
 * never fires (src/sdk/conn.c:116-169, 256-323).
 */
module Buffer {
  import opened Bytes
  import opened FrameHeader
  import opened Mask
  import opened ConnSpec
  import opened Stream
  import opened Errors
  import opened History
  import Mem
  import Utf8

  // ----- Bytes into frames, by their headers alone -----

  function FramesOf(bytes: seq<byte>): seq<Frame>
    decreases |bytes|
  {
    match HeadFrame(bytes)
    case None => []
    case Some(f) =>
      HeadFrameIs(bytes);
      [f] + FramesOf(bytes[|Wire(f)|..])
  }

  /** The bytes after the last whole frame. */
  function RestOf(bytes: seq<byte>): seq<byte>
    decreases |bytes|
  {
    match HeadFrame(bytes)
    case None => bytes
    case Some(f) =>
      HeadFrameIs(bytes);
      RestOf(bytes[|Wire(f)|..])
  }

  /** Framing loses nothing. */
  lemma {:induction false} FramedIs(bytes: seq<byte>)
    ensures forall f :: f in FramesOf(bytes) ==> ValidFrame(f)
    ensures bytes == Wires(FramesOf(bytes)) + RestOf(bytes) && HeadFrame(RestOf(bytes)) == None
    decreases |bytes|
  {
    hide ValidFrame, Wire, HeadFrame;
    match HeadFrame(bytes)
    case None => assert [] + bytes == bytes;
    case Some(f) =>
      HeadFrameIs(bytes);
      var tail := bytes[|Wire(f)|..];
      FramedIs(tail);
      WiresCons(f, FramesOf(tail), RestOf(tail));
      assert bytes == Wire(f) + tail;
  }

  /** Frames put on the wire are the frames found there. */
  lemma {:induction false} FramesOfWires(fs: seq<Frame>, rest: seq<byte>)
    requires (forall f :: f in fs ==> ValidFrame(f)) && HeadFrame(rest) == None
    ensures FramesOf(Wires(fs) + rest) == fs && RestOf(Wires(fs) + rest) == rest
    decreases |fs|
  {
    hide ValidFrame, Wire, HeadFrame;
    if fs == [] {
      assert [] + rest == rest;
    } else {
      var tail := Wires(fs[1..]) + rest;
      assert fs == [fs[0]] + fs[1..];
      WiresCons(fs[0], fs[1..], rest);
      HeadFrameOf(fs[0], tail);
      FramesOfWires(fs[1..], rest);
    }
  }

  /** The bytes are exactly one frame. */
  predicate Whole(x: seq<byte>) {
    HeadFrame(x).Some? && |x| == HeadFrame(x).value.h.headerLen + HeadFrame(x).value.h.payloadLen
  }

  /** One more piece of bytes: a part of a frame, or a whole one. */
  lemma FramesMore(bytes: seq<byte>, more: seq<byte>)
    ensures var x := RestOf(bytes) + more;
      && (HeadFrame(x) == None ==> FramesOf(bytes + more) == FramesOf(bytes) && RestOf(bytes + more) == x)
      && (Whole(x) ==>
            FramesOf(bytes + more) == FramesOf(bytes) + [HeadFrame(x).value] && RestOf(bytes + more) == [])
  {
    hide ValidFrame, Wire, HeadFrame;
    var fs, x := FramesOf(bytes), RestOf(bytes) + more;
    FramedIs(bytes);
    assert bytes + more == Wires(fs) + x;
    if HeadFrame(x) == None {
      FramesOfWires(fs, x);
    } else if Whole(x) {
      var f := HeadFrame(x).value;
      HeadFrameIs(x);
      assert Wire(f) == x;
      assert forall g :: g in fs + [f] ==> ValidFrame(g);
      NoFrame();
      WiresSnoc(fs, f);
      assert Wires(fs + [f]) + [] == bytes + more;
      FramesOfWires(fs + [f], []);
    }
  }

  lemma NoFrame()
    ensures HeadFrame([]) == None
  {
  }

  // ----- The calls of consume_frame and append_payload -----

  /** The state and the header with which `consume_frame` is called because of this byte. */
  function Completed(s: State, b: byte): Option<(State, Header)>
    requires Valid(s) && CanTake(s)
  {
    if s.hdrDone then
      var s1 := Stored(s, b);
      if s1.got < s1.need then None else Some((s1.(rxhdrLen := 0, hdrDone := false, got := 0), Parse(Hdr(s)).h))
    else
      var p := PushHdr(s, b);
      match Parse(Hdr(p))
      case NeedMore => None
      case Bad => None
      case Parsed(h) =>
        if !Fits(p, h) || h.payloadLen > 0 then None
        else Some((p.(rxhdrLen := 0, hdrDone := false, got := 0, need := 0), h))
  }

  /** The first capacity check, at the header, still holds when the frame is complete. */
  lemma CompletedIs(s: State, b: byte)
    requires Valid(s) && CanTake(s)
    ensures match Completed(s, b)
      case Some((t, h)) =>
        && Sized(t) && Fits(t, h) && t.msgLen == s.msgLen && t.status == s.status && t.role == s.role
        && t.inMessage == s.inMessage && |t.msg| == |s.msg| && t.msg[..s.msgLen] == s.msg[..s.msgLen]
        && TakeByte(s, b) == (Consume(t, h), true)
      case None =>
        var (t, ended) := TakeByte(s, b);
        if ended then !s.hdrDone && t == SetError(PushHdr(s, b))
        else t.msgLen == s.msgLen && |t.msg| == |s.msg| && t.msg[..s.msgLen] == s.msg[..s.msgLen]
  {
    hide Parse, Consume;
    if s.hdrDone {
      assert Hdr(Stored(s, b)) == Hdr(s);
    } else {
      var p := PushHdr(s, b);
      if Parse(Hdr(p)).Parsed? {
        assert Hdr(p.(hdrDone := true, got := 0, need := Parse(Hdr(p)).h.payloadLen)) == Hdr(p);
      }
    }
  }

  /** The state in which `consume_frame` calls `append_payload`, if it does. */
  function Appending(t: State, h: Header): Option<State>
    requires Sized(t) && Fits(t, h)
  {
    if !HeaderOk(t.role, t.inMessage, h) || IsControl(h.opcode) || t.status != OPEN then None
    else
      var u := Unmasked(t, h);
      Some(if u.inMessage then u else BeginMessage(u, h))
  }

  lemma AppendingIs(t: State, h: Header)
    requires Sized(t) && Fits(t, h)
    ensures match Appending(t, h)
      case Some(a) =>
        && |a.msg| == |t.msg| && a.msgLen == (if t.inMessage then t.msgLen else 0)
        && var (s1, ok) := AppendPayload(a, h, t.msgLen);
           Consume(t, h) == if !ok then SetError(s1) else if h.fin then FinishMessage(s1) else s1
      case None =>
        var s1 := Consume(t, h);
        s1.msgLen == t.msgLen && |s1.msg| == |t.msg| && s1.msg[..t.msgLen] == t.msg[..t.msgLen]
  {
    hide AppendPayload, FinishMessage, MaskSeq, CloseCodeOf;
  }

  /** The state inside a receive call, after i of the bytes it consumes. */
  lemma {:induction false} InsideCall(s: State, buf: seq<byte>, i: nat)
    requires Valid(s) && i < RecvFrame(s, buf).1
    ensures var m := RecvFrame(s, buf[..i]).0;
      Valid(m) && CanTake(m) && RecvFrame(s, buf[..i + 1]).0 == TakeByte(m, buf[i]).0
    decreases i
  {
    hide TakeByte;
    if i == 0 {
      assert buf[..1][1..] == [] && buf[..0] == [];
      if !TakeByte(s, buf[0]).1 {
        TakeByteValid(s, buf[0]);
      }
    } else {
      TakeByteValid(s, buf[0]);
      assert buf[..i][1..] == buf[1..][..i - 1] && buf[..i + 1][1..] == buf[1..][..i];
      InsideCall(TakeByte(s, buf[0]).0, buf[1..], i - 1);
    }
  }

  /**
   * The second capacity check never fires: in any run whatever, at any byte of any receive call,
   * whenever `append_payload` is called there is room for the payload, and it is appended.
   */
  lemma SecondCheckIdle(role: Role, msg: seq<byte>, ops: seq<Call>, n: nat, buf: seq<byte>, i: nat)
    requires |msg| < TWO63 && n <= |ops| && i < Recv(At(Init(role, msg), ops, n), buf).1
    ensures var m := Recv(At(Init(role, msg), ops, n), buf[..i]).0;
      && Valid(m) && CanTake(m)
      && Recv(At(Init(role, msg), ops, n), buf[..i + 1]).0 == TakeByte(m, buf[i]).0
      && match Completed(m, buf[i])
         case None => true
         case Some((t, h)) =>
           && Sized(t) && Fits(t, h)
           && match Appending(t, h)
              case None => true
              case Some(a) =>
                && a.msgLen + h.payloadLen <= |a.msg|
                && AppendPayload(a, h, t.msgLen).0.msgLen == a.msgLen + h.payloadLen
  {
    hide RecvFrame, At, TakeByte, Completed, Unmasked, Parse, HeaderOk, Init;
    var s := At(Init(role, msg), ops, n);
    InsideCall(s, buf, i);
    var m := RecvFrame(s, buf[..i]).0;
    CompletedIs(m, buf[i]);
    match Completed(m, buf[i])
    case None =>
    case Some((t, h)) => AppendingIs(t, h);
  }

  // ----- What a byte does to the collected bytes -----

  /** A complete frame appends its clear payload, or leaves the collected bytes alone. */
  lemma ConsumeContent(t: State, f: Frame)
    requires Sized(t) && Holds(t, f)
    ensures var s1 := Consume(t, f.h);
      && s1.msgLen <= |s1.msg|
      && s1.msg[..s1.msgLen] ==
           if HeaderOk(t.role, t.inMessage, f.h) && !IsControl(f.h.opcode) && t.status == OPEN
           then (if t.inMessage then t.msg[..t.msgLen] else []) + Clear(f) else t.msg[..t.msgLen]
  {
    hide Consume, HeaderOk, Appending, AppendPayload, FinishMessage, Clear, MaskSeq, ValidHeader;
    AppendingIs(t, f.h);
    AppendingBuffer(t, f);
    match Appending(t, f.h)
    case None =>
    case Some(a) =>
      AppendContent(a, f.h, t.msgLen);
      FinishKeeps(AppendPayload(a, f.h, t.msgLen).0);
  }

  /** When the payload is appended, and to what. */
  lemma AppendingBuffer(t: State, f: Frame)
    requires Sized(t) && Holds(t, f)
    ensures Appending(t, f.h).Some? <==>
      HeaderOk(t.role, t.inMessage, f.h) && !IsControl(f.h.opcode) && t.status == OPEN
    ensures Appending(t, f.h).Some? ==>
      var a := Appending(t, f.h).value;
      && |a.msg| == |t.msg| && a.msgLen <= t.msgLen
      && a.msg[..a.msgLen] == (if t.inMessage then t.msg[..t.msgLen] else [])
      && a.msg[t.msgLen..t.msgLen + f.h.payloadLen] == Clear(f)
  {
    hide HeaderOk, Clear, MaskSeq, ValidHeader, Unmasked;
    UnmaskedHolds(t, f);
  }

  lemma AppendContent(a: State, h: Header, pl: nat)
    requires a.msgLen <= pl && pl + h.payloadLen <= |a.msg|
    ensures var s1 := AppendPayload(a, h, pl).0;
      && s1.msgLen <= |s1.msg|
      && s1.msg[..s1.msgLen] == a.msg[..a.msgLen] + a.msg[pl..pl + h.payloadLen]
  {
    hide Utf8.Feed, Mem.Moved;
    MovedAcc(a.msg, a.msgLen, pl, h.payloadLen);
  }

  lemma FinishKeeps(s: State)
    ensures FinishMessage(s).msg == s.msg && FinishMessage(s).msgLen == s.msgLen
  {
  }

  /** The bytes collected after a byte, read off the bytes of the frame under way. */
  ghost predicate Content(s: State, x: seq<byte>, t: State)
    requires s.msgLen <= |s.msg|
  {
    && t.msgLen <= |t.msg|
    && t.msg[..t.msgLen] ==
         match HeadFrame(x)
         case None => s.msg[..s.msgLen]
         case Some(f) =>
           if s.status == OPEN && HeaderOk(s.role, s.inMessage, f.h) && IsData(f) && !HeaderRefused(CoreOf(s), x)
           then AccAfter(CoreOf(s), f) else s.msg[..s.msgLen]
  }

  lemma ByteContent(s: State, b: byte)
    requires Sound(s) && s.status != CLOSED && s.pending == EV_NONE && CanTake(s)
    ensures Content(s, Staged(s) + [b], TakeByte(s, b).0)
  {
    hide TakeByte, Completed, Consume, HeaderOk, Clear, Parse, HeaderSound, TextSound, Utf8.Reachable, Step,
      ValidFrame, Wire;
    var x := Staged(s) + [b];
    CompletedIs(s, b);
    ByteRefines(s, b);
    match Completed(s, b)
    case None =>
      if TakeByte(s, b).1 {
        RefusedByte(s, b);
      }
    case Some((t, h)) =>
      CompletedHolds(s, b);
      ConsumeContent(t, HeadFrame(x).value);
  }

  lemma RefusedByte(s: State, b: byte)
    requires Sound(s) && s.status != CLOSED && !s.hdrDone && CanTake(s) && Completed(s, b).None? && TakeByte(s, b).1
    ensures HeaderRefused(CoreOf(s), Staged(s) + [b])
  {
    hide Parse, FinishFrame, HeaderSound, TextSound;
    assert Hdr(PushHdr(s, b)) == Hdr(s) + [b];
    assert Staged(s) + [b] == Hdr(s) + [b];
  }

  /** The completed frame is the one at the head of the bytes, and its payload lies in the scratch area. */
  lemma CompletedHolds(s: State, b: byte)
    requires Sound(s) && s.status != CLOSED && CanTake(s) && Completed(s, b).Some?
    ensures var (t, h) := Completed(s, b).value;
      var x := Staged(s) + [b];
      && HeadFrame(x).Some? && HeadFrame(x).value.h == h && !HeaderRefused(CoreOf(s), x)
      && Sized(t) && Holds(t, HeadFrame(x).value)
  {
    hide Parse, TextSound, Utf8.Reachable, EventOk, HeadFrame, Holds, HeaderRefused;
    var x := Staged(s) + [b];
    if s.hdrDone {
      var h := Parse(Hdr(s)).h;
      var payload := s.msg[s.msgLen..s.msgLen + s.got] + [b];
      assert x == Hdr(s) + payload;
      ParseStable(Hdr(s), payload);
      assert Stored(s, b).msg[s.msgLen..s.msgLen + s.got + 1] == payload;
      HeadHolds(CoreOf(s), x, Completed(s, b).value.0, h, payload);
    } else {
      var p := PushHdr(s, b);
      assert Hdr(p) == Hdr(s) + [b] == x;
      ParseSound(x);
      HeaderEndsHere(Hdr(s), b);
      assert x[|x|..] == [];
      HeadHolds(CoreOf(s), x, Completed(s, b).value.0, Parse(x).h, []);
    }
  }

  lemma HeadHolds(c: Core, x: seq<byte>, t: State, h: Header, payload: seq<byte>)
    requires Parse(x) == Parsed(h) && |c.acc| + h.payloadLen <= c.cap
    requires h.headerLen + |payload| == |x| && |payload| == h.payloadLen && x[h.headerLen..] == payload
    requires Sized(t) && Fits(t, h) && t.msg[t.msgLen..t.msgLen + h.payloadLen] == payload
    ensures HeadFrame(x).Some? && HeadFrame(x).value.h == h && !HeaderRefused(c, x) && Holds(t, HeadFrame(x).value)
  {
    hide Parse, HeaderBytes;
    ParseSound(x);
    assert x[h.headerLen..h.headerLen + h.payloadLen] == payload;
  }

  // ----- The frames that reached the buffer -----

  predicate HeaderRules(role: Role, past: seq<Frame>, f: Frame) {
    NoRsv(f) && MaskRule(role, f) && ControlRule(f) && FragmentRule(past, f)
  }

  /** A last frame whose header breaks the rules is refused before its payload is looked at. */
  function Admitted(role: Role, fs: seq<Frame>): seq<Frame> {
    if fs != [] && !HeaderRules(role, fs[..|fs| - 1], fs[|fs| - 1]) then fs[..|fs| - 1] else fs
  }

  lemma RulesAreChecks(role: Role, past: seq<Frame>, f: Frame)
    ensures HeaderRules(role, past, f) <==> HeaderOk(role, InProgress(past), f.h)
    requires ValidFrame(f)
  {
  }

  /**
   * The state after the bytes `all`, those in `open` taken while OPEN: the buffer starts with the
   * unmasked fragments of the last message among the frames of `open`.
   */
  ghost predicate Tracks(role: Role, cap: nat, s: State, all: seq<byte>, open: seq<byte>) {
    var fs := FramesOf(open);
    && Sound(s) && s.role == role && |s.msg| == cap
    && s.msg[..s.msgLen] == Collected(Admitted(role, fs))
    && (s.status == OPEN ==> open == all)
    && (s.status != CLOSED ==>
          && Admitted(role, fs) == fs
          && s.inMessage == InProgress(fs) && s.msgOpcode == MessageOpcode(fs)
          && Staged(s) == RestOf(all))
  }

  /** A whole frame in OPEN. */
  lemma FrameTracked(role: Role, s: State, t: State, fs: seq<Frame>, f: Frame)
    requires Valid(s) && s.status == OPEN && s.role == role && ValidFrame(f)
    requires s.inMessage == InProgress(fs) && s.msgOpcode == MessageOpcode(fs) && s.msg[..s.msgLen] == Collected(fs)
    requires Valid(t)
    requires t.status != CLOSED ==> CoreOf(t) == Step(CoreOf(s), f).0 && Step(CoreOf(s), f).0.status != CLOSED
    requires t.msg[..t.msgLen] ==
      if HeaderOk(role, s.inMessage, f.h) && IsData(f) then AccAfter(CoreOf(s), f) else s.msg[..s.msgLen]
    ensures t.msg[..t.msgLen] == Collected(Admitted(role, fs + [f]))
    ensures t.status != CLOSED ==>
      && Admitted(role, fs + [f]) == fs + [f]
      && t.inMessage == InProgress(fs + [f]) && t.msgOpcode == MessageOpcode(fs + [f])
  {
    hide Collected, InProgress, MessageOpcode, Clear, HeaderOk, HeaderRules, CloseCodeOf, TextOk,
      Utf8.Reachable, Parse, EventOk;
    RulesAreChecks(role, fs, f);
    HistoryNext(fs, f);
    assert (fs + [f])[..|fs|] == fs;
    assert [] + Clear(f) == Clear(f);
    if HeaderRules(role, fs, f) {
      RulesOpcode(role, fs, f);
    }
  }

  lemma RulesOpcode(role: Role, past: seq<Frame>, f: Frame)
    requires HeaderRules(role, past, f)
    ensures IsData(f) ==> (f.h.opcode == OP_CONTINUATION) == InProgress(past)
    ensures !IsData(f) ==> f.h.opcode in {OP_CLOSE, OP_PING, OP_PONG}
  {
  }

  /** One byte from the peer. */
  lemma TracksByte(role: Role, cap: nat, s: State, all: seq<byte>, open: seq<byte>, b: byte)
    requires Tracks(role, cap, s, all, open) && s.status != CLOSED && s.pending == EV_NONE && CanTake(s)
    ensures Tracks(role, cap, TakeByte(s, b).0, all + [b], if s.status == OPEN then open + [b] else open)
  {
    hide TakeByte, Parse, Wire, ValidFrame, Clear, HeaderOk, HeaderSound, TextSound, Collected, InProgress,
      MessageOpcode, HeaderRules, Utf8.Reachable, EventOk, CloseCodeOf, TextOk;
    var x, t, fs := Staged(s) + [b], TakeByte(s, b).0, FramesOf(open);
    ByteRefines(s, b);
    ByteForward(s, b);
    ByteContent(s, b);
    FramesMore(all, [b]);
    if HeaderRefused(CoreOf(s), x) {
      RefusedIsPart(s, b);
    } else if HeadFrame(x).Some? {
      var f := HeadFrame(x).value;
      HeadFrameIs(x);
      if s.status == OPEN {
        FrameTracked(role, s, t, fs, f);
      }
    }
  }

  /** A refused header is not a whole frame. */
  lemma RefusedIsPart(s: State, b: byte)
    requires Sound(s) && s.status != CLOSED && s.pending == EV_NONE && CanTake(s)
    requires HeaderRefused(CoreOf(s), Staged(s) + [b])
    ensures HeadFrame(Staged(s) + [b]) == None
  {
    hide TakeByte, Parse, TextSound, Utf8.Reachable;
    var x := Staged(s) + [b];
    if s.hdrDone {
      ParseStable(Hdr(s), s.msg[s.msgLen..s.msgLen + s.got] + [b]);
      assert x == Hdr(s) + (s.msg[s.msgLen..s.msgLen + s.got] + [b]);
    } else {
      assert x == Hdr(s) + [b];
      if Parse(x).Parsed? {
        HeaderEndsHere(Hdr(s), b);
      }
    }
  }

  lemma TakeMore(before: seq<byte>, buf: seq<byte>, n: nat)
    requires n < |buf|
    ensures before + buf[..n + 1] == (before + [buf[0]]) + buf[1..][..n]
  {
    assert buf[..n + 1] == [buf[0]] + buf[1..][..n];
  }

  /** One receive call. */
  lemma {:induction false} TracksCall(role: Role, cap: nat, s: State, all: seq<byte>, open: seq<byte>, buf: seq<byte>)
    requires Tracks(role, cap, s, all, open) && s.status != CLOSED && s.pending == EV_NONE
    ensures var (t, n) := RecvFrame(s, buf);
      Tracks(role, cap, t, all + buf[..n], if s.status == OPEN then open + buf[..n] else open)
    decreases |buf|
  {
    hide TakeByte, Parse, FramesOf, RestOf, Admitted, Collected, HeaderSound, TextSound;
    SoundTakes(s);
    if buf == [] {
      assert all + [] == all && open + [] == open;
    } else {
      var b := buf[0];
      TracksByte(role, cap, s, all, open, b);
      ByteForward(s, b);
      var (t, ended) := TakeByte(s, b);
      if ended {
        assert buf[..1] == [b];
      } else {
        TracksCall(role, cap, t, all + [b], if s.status == OPEN then open + [b] else open, buf[1..]);
        var n := RecvFrame(t, buf[1..]).1;
        TakeMore(all, buf, n);
        TakeMore(open, buf, n);
      }
    }
  }

  // ----- Whole runs -----

  /** The bytes that a call consumes. */
  function TakenBy(s: State, op: Call): seq<byte>
    requires Valid(s)
  {
    if op.Receive? then op.buf[..Recv(s, op.buf).1] else []
  }

  /** All bytes consumed by the first n calls. */
  function Taken(s: State, ops: seq<Call>, n: nat): seq<byte>
    requires Valid(s) && n <= |ops|
  {
    if n == 0 then [] else Taken(s, ops, n - 1) + TakenBy(At(s, ops, n - 1), ops[n - 1])
  }

  /** Those consumed by calls that were made in OPEN. */
  function TakenOpen(s: State, ops: seq<Call>, n: nat): seq<byte>
    requires Valid(s) && n <= |ops|
  {
    if n == 0 then []
    else
      var before := At(s, ops, n - 1);
      TakenOpen(s, ops, n - 1) + (if before.status == OPEN then TakenBy(before, ops[n - 1]) else [])
  }

  lemma TracksStep(role: Role, cap: nat, s: State, all: seq<byte>, open: seq<byte>, op: Call)
    requires Tracks(role, cap, s, all, open) && !Reopens(s, op)
    ensures var taken := TakenBy(s, op);
      Tracks(role, cap, After(s, op), all + taken, open + if s.status == OPEN then taken else [])
  {
    hide RecvFrame, Parse, FramesOf, RestOf, Admitted, Collected, HeaderSound, TextSound, Built, SendMessage,
      Utf8.Reachable;
    assert all + [] == all && open + [] == open;
    match op
    case Receive(buf) => if !Blocked(s) { TracksCall(role, cap, s, all, open, buf); }
    case PollEvent => SoundStep(s, op); assert Staged(Poll(s)) == Staged(s);
    case SendMsg(_, _, _, _) =>
    case SendCtl(_, _, _, _) =>
    case SendClosing(rng, code, cap) =>
      SoundStep(s, op);
      SendCloseCases(s, rng, code, cap);
      assert Staged(MarkCloseSent(s)) == Staged(s);
  }

  lemma {:induction false} TracksRun(role: Role, msg: seq<byte>, ops: seq<Call>, n: nat)
    requires |msg| < TWO63 && n <= |ops|
    requires forall i :: 0 <= i < n ==> !Reopens(At(Init(role, msg), ops, i), ops[i])
    ensures var s := Init(role, msg);
      Tracks(role, |msg|, At(s, ops, n), Taken(s, ops, n), TakenOpen(s, ops, n))
    decreases n
  {
    hide At, After, Reopens, Tracks, TakenBy, Init;
    var s := Init(role, msg);
    InitTracks(role, msg);
    AtIs(s, ops, n);
    if n > 0 {
      TracksRun(role, msg, ops, n - 1);
      TracksStep(role, |msg|, At(s, ops, n - 1), Taken(s, ops, n - 1), TakenOpen(s, ops, n - 1), ops[n - 1]);
    }
  }

  lemma InitTracks(role: Role, msg: seq<byte>)
    requires |msg| < TWO63
    ensures Tracks(role, |msg|, Init(role, msg), [], [])
  {
    InitSound(role, msg);
    NoFrame();
    FreshHistory();
  }

  /**
   * The shared buffer over all runs that do not reopen, whatever is sent, received and polled: it
   * starts with exactly the unmasked fragments of the last message among the frames handled in OPEN,
   * delivered or still in progress; what is staged behind them is the part of a frame at the end of
   * the bytes consumed; and nothing lies beyond the capacity. After a Close of one's own in the
   * middle of a message, data frames are dropped and the collected bytes stay as they were.
   */
  lemma BufferHoldsFragments(role: Role, msg: seq<byte>, ops: seq<Call>, n: nat)
    requires |msg| < TWO63 && n <= |ops|
    requires forall i :: 0 <= i < n ==> !Reopens(At(Init(role, msg), ops, i), ops[i])
    ensures var s0 := Init(role, msg);
      var s := At(s0, ops, n);
      var all, handled := Taken(s0, ops, n), FramesOf(TakenOpen(s0, ops, n));
      && s.msg[..s.msgLen] == Collected(Admitted(role, handled))
      && s.msgLen + s.got <= |s.msg| == |msg|
      && (s.status != CLOSED ==>
            && Admitted(role, handled) == handled
            && s.inMessage == InProgress(handled) && s.msgOpcode == MessageOpcode(handled)
            && (forall f :: f in FramesOf(all) ==> ValidFrame(f)) && all == Wires(FramesOf(all)) + Staged(s))
      && (s.status == OPEN ==> handled == FramesOf(all))
  {
    hide At, Taken, TakenOpen, FramesOf, RestOf, Admitted, Collected, HeaderSound, TextSound, Reopens, Init,
      Wires, Staged;
    TracksRun(role, msg, ops, n);
    FramedIs(Taken(Init(role, msg), ops, n));
  }
}
