/** A Close sent from CLOSED takes the connection back to CLOSING: what it can still do (src/sdk/conn.c:394-415). */
module Reopening {
  import opened Bytes
  import opened FrameHeader
  import opened Mask
  import opened ConnSpec
  import opened Session
  import opened Stream
  import opened History
  import opened Errors
  import opened Closing
  import Mem
  import Utf8

  /** When exactly a drained connection consumes something of a non-empty input. */
  lemma ProgressIff(s: State, buf: seq<byte>)
    requires Ready(s) && buf != []
    ensures Recv(s, buf).1 > 0 <==> s.status != CLOSED && CanTake(s)
  {
    hide RecvFrame, Parse;
    if s.status != CLOSED && CanTake(s) {
      RecvIsFeed(s, buf);
    } else if s.status != CLOSED {
      RecvStuck(s, buf);
    }
  }

  lemma RecvStuck(s: State, buf: seq<byte>)
    requires Valid(s) && !CanTake(s)
    ensures RecvFrame(s, buf) == (s, 0) && Recv(s, buf) == (s, 0)
  {
  }

  // ----- How a connection that has sent no Close can be closed -----

  /** `rxhdr` still holds, up to the byte that decided, a header that was refused. */
  predicate HoldsRefused(s: State) {
    && Sized(s) && !s.hdrDone && s.rxhdrLen > 0
    && Parse(Hdr(s)[..s.rxhdrLen - 1]).NeedMore?
    && match Parse(Hdr(s))
       case NeedMore => false
       case Bad => true
       case Parsed(h) => !Fits(s, h) && h.headerLen == s.rxhdrLen
  }

  /** Closed by an error in a header, or otherwise with nothing staged. */
  predicate Halted(s: State) {
    s.status == CLOSED ==> s.closeSent || HoldsRefused(s) || (!s.hdrDone && s.rxhdrLen == 0)
  }

  lemma AppendKeeps(s: State, h: Header, pl: nat)
    requires pl + h.payloadLen <= |s.msg|
    ensures AppendPayload(s, h, pl).0.rxhdrLen == s.rxhdrLen && AppendPayload(s, h, pl).0.hdrDone == s.hdrDone
  {
    hide Mem.Moved, Utf8.Feed;
  }

  lemma ConsumeKeeps(s: State, h: Header)
    requires Fits(s, h)
    ensures Consume(s, h).rxhdrLen == s.rxhdrLen && Consume(s, h).hdrDone == s.hdrDone
  {
    hide AppendPayload, MaskSeq, HeaderOk, CloseCodeOf;
    if HeaderOk(s.role, s.inMessage, h) && !IsControl(h.opcode) {
      var u := Unmasked(s, h);
      AppendKeeps(if u.inMessage then u else BeginMessage(u, h), h, s.msgLen);
    }
  }

  lemma FinishHalts(s: State)
    requires Sized(s) && Staging(s)
    ensures FinishFrame(s).rxhdrLen == 0 && !FinishFrame(s).hdrDone
  {
    hide Consume, Parse;
    ConsumeKeeps(s.(rxhdrLen := 0, hdrDone := false, got := 0), Parse(Hdr(s)).h);
  }

  lemma HaltsByte(s: State, b: byte)
    requires Sound(s) && s.status != CLOSED && s.pending == EV_NONE && CanTake(s)
    ensures Halted(TakeByte(s, b).0)
  {
    hide FinishFrame, Parse, TextSound;
    if s.hdrDone {
      var s1 := Stored(s, b);
      assert Hdr(s1) == Hdr(s);
      if s1.got == s1.need {
        FinishHalts(s1);
      }
    } else {
      var p := PushHdr(s, b);
      assert Hdr(p)[..p.rxhdrLen - 1] == Hdr(s) && Hdr(p) == Hdr(s) + [b];
      if Parse(Hdr(p)).Parsed? {
        HeaderEndsHere(Hdr(s), b);
        var h := Parse(Hdr(p)).h;
        var s1 := p.(hdrDone := true, got := 0, need := h.payloadLen);
        assert Hdr(s1) == Hdr(p);
        if Fits(p, h) && h.payloadLen == 0 {
          FinishHalts(s1);
        }
      }
    }
  }

  lemma {:induction false} RecvFrameHalts(s: State, buf: seq<byte>)
    requires Sound(s) && s.pending == EV_NONE && s.status != CLOSED
    ensures Halted(RecvFrame(s, buf).0)
    decreases |buf|
  {
    hide TakeByte, Halted, Parse;
    SoundTakes(s);
    OpenHalted(s);
    if buf != [] {
      HaltsByte(s, buf[0]);
      ByteRefines(s, buf[0]);
      ByteForward(s, buf[0]);
      if !TakeByte(s, buf[0]).1 {
        RecvFrameHalts(TakeByte(s, buf[0]).0, buf[1..]);
      }
    }
  }

  lemma OpenHalted(s: State)
    requires s.status != CLOSED
    ensures Halted(s)
  {
  }

  lemma HaltedStep(s: State, op: Call)
    requires Sound(s) && Halted(s)
    ensures Halted(After(s, op))
  {
    hide RecvFrame, Parse, Built, SendMessage;
    match op
    case Receive(buf) => if !Blocked(s) { RecvFrameHalts(s, buf); }
    case PollEvent => assert Hdr(Poll(s)) == Hdr(s);
    case SendMsg(_, _, _, _) =>
    case SendCtl(_, _, _, _) =>
    case SendClosing(rng, code, cap) => SendCloseCases(s, rng, code, cap);
  }

  /** In every run that has not reopened. */
  lemma {:induction false} HaltedRuns(role: Role, msg: seq<byte>, ops: seq<Call>, n: nat)
    requires |msg| < TWO63 && n <= |ops|
    requires forall i :: 0 <= i < n ==> !Reopens(At(Init(role, msg), ops, i), ops[i])
    ensures Halted(At(Init(role, msg), ops, n))
    decreases n
  {
    hide *;
    InitSound(role, msg);
    SoundIsValid(Init(role, msg));
    AtIs(Init(role, msg), ops, n);
    if n == 0 {
      OpenInit(role, msg);
    } else {
      HaltedRuns(role, msg, ops, n - 1);
      SoundRuns(role, msg, ops, n - 1);
      HaltedStep(At(Init(role, msg), ops, n - 1), ops[n - 1]);
    }
  }

  lemma OpenInit(role: Role, msg: seq<byte>)
    ensures Halted(Init(role, msg))
  {
  }

  // ----- After reopening -----

  /** A bad length is found out by the last byte of its field. */
  lemma BadIsShort(w: seq<byte>)
    requires w != [] && Parse(w[..|w| - 1]).NeedMore? && Parse(w).Bad?
    ensures |w| == 4 || |w| == 10
  {
    hide Parse, FromBE;
    var before := w[..|w| - 1];
    assert |before| >= 4 ==> before[2..4] == w[2..4];
    assert |before| >= 10 ==> before[2..10] == w[2..10];
    BadIff(w);
    BadIff(before);
  }

  /** A refused header is 14 bytes long exactly when it is a whole one, which announces more than there is room for. */
  lemma RefusedAtMax(s: State)
    requires HoldsRefused(s)
    ensures s.rxhdrLen == HDR_MAX <==> Parse(Hdr(s)).Parsed? && Parse(Hdr(s)).h.headerLen == HDR_MAX
    ensures s.rxhdrLen == HDR_MAX ==> !Fits(s, Parse(Hdr(s)).h)
  {
    hide Parse;
    if Parse(Hdr(s)).Bad? {
      BadIsShort(Hdr(s));
    }
  }

  /** A header that was refused is refused again with the next byte. */
  lemma RefusedAgain(s: State, b: byte)
    requires HoldsRefused(s) && Valid(s) && s.rxhdrLen < HDR_MAX
    ensures TakeByte(s, b) == (SetError(PushHdr(s, b)), true)
  {
    hide FinishFrame, Parse;
    var p := PushHdr(s, b);
    assert Hdr(p) == Hdr(s) + [b];
    ParseStable(Hdr(s), [b]);
  }

  /** What a reopened connection does, by what `rxhdr` holds. */
  lemma ReopenedReceives(t: State, buf: seq<byte>)
    requires Ready(t) && t.status == CLOSING && buf != []
    requires HoldsRefused(t) || (!t.hdrDone && t.rxhdrLen == 0)
    ensures Recv(t, buf).1 == 0 <==> t.rxhdrLen == HDR_MAX
    ensures t.rxhdrLen == HDR_MAX <==> HoldsRefused(t) && Parse(Hdr(t)).Parsed? && Parse(Hdr(t)).h.headerLen == HDR_MAX
    ensures 0 < t.rxhdrLen < HDR_MAX ==> Recv(t, buf) == (SetError(PushHdr(t, buf[0])), 1)
    ensures t.rxhdrLen == 0 ==> Sound(t) && Staged(t) == []
  {
    hide FinishFrame, Parse, HeaderStep, Utf8.Reachable;
    ProgressIff(t, buf);
    EmptyHeader();
    if HoldsRefused(t) {
      RefusedAtMax(t);
      if t.rxhdrLen < HDR_MAX {
        RefusedAgain(t, buf[0]);
      }
    }
  }

  /** Until a run reopens it has not sent a Close, and a call before did not reopen. */
  lemma NotYetReopened(s: State, ops: seq<Call>, i: nat)
    requires Valid(s) && i < |ops| && Reopens(At(s, ops, i), ops[i])
    ensures forall j :: 0 <= j < i ==> !Reopens(At(s, ops, j), ops[j])
  {
    hide *;
    forall j | 0 <= j < i ensures !Reopens(At(s, ops, j), ops[j]) {
      if Reopens(At(s, ops, j), ops[j]) {
        ReopensOnce(s, ops, j, i);
      }
    }
  }

  /** What sending the Close leaves, and polling the event that may still be pending. */
  lemma ReopenedState(s: State, op: Call)
    requires Valid(s) && Halted(s) && Reopens(s, op)
    ensures Valid(After(s, op))
    ensures var t := Poll(After(s, op));
      && Ready(t) && t.status == CLOSING && t.closeSent && t.rxhdrLen == s.rxhdrLen && Hdr(t) == Hdr(s)
      && (HoldsRefused(t) || (!t.hdrDone && t.rxhdrLen == 0))
  {
    hide Built, Parse, Utf8.Reachable;
    AfterValid(s, op);
    SendCloseCases(s, op.rng, op.code, op.cap);
    assert Hdr(Poll(MarkCloseSent(s))) == Hdr(s);
  }

  /**
   * Every run that reopens, once the pending event has been polled: the connection never consumes
   * anything exactly when the header that was refused is a whole one of 14 bytes. A shorter refused
   * header is refused again with the next byte, and that error is final, since a Close has been sent.
   * With no header held, receiving goes on in CLOSING as if the connection had never been closed.
   */
  lemma AfterReopening(role: Role, msg: seq<byte>, ops: seq<Call>, i: nat, buf: seq<byte>)
    requires |msg| < TWO63 && i < |ops| && buf != []
    requires Reopens(At(Init(role, msg), ops, i), ops[i])
    ensures var t := Poll(At(Init(role, msg), ops, i + 1));
      && Ready(t) && t.status == CLOSING && t.closeSent
      && (Recv(t, buf).1 == 0 <==> t.rxhdrLen == 14)
      && (t.rxhdrLen == 14 <==> HoldsRefused(t) && Parse(Hdr(t)).Parsed? && Parse(Hdr(t)).h.headerLen == 14)
      && (0 < t.rxhdrLen < 14 ==> HoldsRefused(t) && Recv(t, buf) == (SetError(PushHdr(t, buf[0])), 1))
      && (t.rxhdrLen == 0 ==> Sound(t) && Staged(t) == [])
  {
    hide At, After, Reopens, Halted, HoldsRefused, Recv, Parse, Sound, Valid, Staged;
    var s0 := Init(role, msg);
    InitSound(role, msg);
    SoundIsValid(s0);
    NotYetReopened(s0, ops, i);
    HaltedRuns(role, msg, ops, i);
    AtIs(s0, ops, i + 1);
    ReopenedState(At(s0, ops, i), ops[i]);
    ReopenedReceives(Poll(At(s0, ops, i + 1)), buf);
  }

  /** A full header buffer stays full: from then on the run consumes nothing, whatever is called. */
  lemma {:induction false} StuckForever(s: State, ops: seq<Call>, n: nat)
    requires Valid(s) && s.closeSent && !CanTake(s) && n <= |ops|
    ensures var t := At(s, ops, n);
      !CanTake(t) && t.closeSent && t.status == s.status && t.msg == s.msg && forall buf :: Recv(t, buf) == (t, 0)
    decreases n
  {
    hide Valid, RecvFrame, Built, Parse, ClosePayload;
    AtIs(s, ops, n);
    if n > 0 {
      StuckForever(s, ops, n - 1);
      SendsNothing(At(s, ops, n - 1), ops[n - 1]);
    }
    forall buf: seq<byte> {
      RecvStuck(At(s, ops, n), buf);
    }
  }

  lemma SendsNothing(t: State, op: Call)
    requires Valid(t) && t.closeSent && !CanTake(t)
    ensures After(t, op) == (if op.PollEvent? then Poll(t) else t)
  {
    hide Built, Parse;
    if op.Receive? {
      RecvStuck(t, op.buf);
    }
  }

  // ----- Errors in CLOSING, in every run -----

  /** Sound, or reopened with a refused header still held. */
  predicate Known(s: State) {
    (Sound(s) && Halted(s)) || (Valid(s) && s.closeSent && HoldsRefused(s))
  }

  lemma KnownStep(s: State, op: Call)
    requires Valid(s) && Known(s)
    ensures Valid(After(s, op)) && Known(After(s, op))
  {
    hide Sound, Halted, HoldsRefused, Valid, RecvFrame, Reopens;
    AfterValid(s, op);
    if Sound(s) && Halted(s) {
      if Reopens(s, op) {
        ReopenedKnown(s, op);
      } else {
        SoundStep(s, op);
        HaltedStep(s, op);
      }
    } else {
      RefusedStep(s, op);
    }
  }

  lemma ReopenedKnown(s: State, op: Call)
    requires Sound(s) && Halted(s) && Reopens(s, op)
    ensures Known(After(s, op))
  {
    hide Built, Parse, Utf8.Reachable;
    AfterValid(s, op);
    SendCloseCases(s, op.rng, op.code, op.cap);
    assert Hdr(MarkCloseSent(s)) == Hdr(s);
    EmptyHeader();
    if s.rxhdrLen == 0 {
      assert Hdr(s) == [];
    }
  }

  lemma RefusedStep(s: State, op: Call)
    requires Valid(s) && s.closeSent && HoldsRefused(s)
    ensures Known(After(s, op))
  {
    hide Built, Parse, RecvFrame, TakeByte, Utf8.Reachable;
    AfterValid(s, op);
    match op
    case Receive(buf) =>
      if !Blocked(s) && buf != [] {
        if s.rxhdrLen < HDR_MAX {
          RefusedCall(s, buf);
        } else {
          RecvStuck(s, buf);
        }
      } else if !Blocked(s) {
        RecvEmpty(s);
      }
    case PollEvent => assert Hdr(Poll(s)) == Hdr(s);
    case SendMsg(_, _, _, _) =>
    case SendCtl(_, _, _, _) =>
    case SendClosing(_, _, _) =>
  }

  lemma RecvEmpty(s: State)
    requires Valid(s)
    ensures RecvFrame(s, []) == (s, 0)
  {
  }

  lemma RefusedCall(s: State, buf: seq<byte>)
    requires Valid(s) && HoldsRefused(s) && s.rxhdrLen < HDR_MAX && buf != []
    ensures RecvFrame(s, buf) == (SetError(PushHdr(s, buf[0])), 1)
  {
    hide HoldsRefused, Parse, TakeByte;
    RefusedAgain(s, buf[0]);
  }

  /** Every state of every run, reopenings included. */
  lemma {:induction false} KnownRuns(role: Role, msg: seq<byte>, ops: seq<Call>, n: nat)
    requires |msg| < TWO63 && n <= |ops|
    ensures Known(At(Init(role, msg), ops, n))
    decreases n
  {
    hide *;
    InitSound(role, msg);
    SoundIsValid(Init(role, msg));
    AtIs(Init(role, msg), ops, n);
    if n == 0 {
      InitKnown(role, msg);
    } else {
      KnownRuns(role, msg, ops, n - 1);
      KnownStep(At(Init(role, msg), ops, n - 1), ops[n - 1]);
    }
  }

  lemma InitKnown(role: Role, msg: seq<byte>)
    requires |msg| < TWO63
    ensures Known(Init(role, msg))
  {
    InitSound(role, msg);
  }

  /** With a refused header held, the next byte is an error if it is taken at all. */
  lemma RefusedFeed(t: State, input: seq<byte>)
    requires Ready(t) && t.status == CLOSING && HoldsRefused(t)
    ensures ErrorBeforeClose(FeedBytes(t, input).events) <==> input != [] && t.rxhdrLen < HDR_MAX
  {
    hide Parse, TakeByte, HoldsRefused;
    RefusedIsHeader(t);
    if input != [] && t.rxhdrLen < HDR_MAX {
      RefusedAgain(t, input[0]);
      FeedUnfold(t, input);
      var s1 := SetError(PushHdr(t, input[0]));
      assert FeedBytes(Poll(s1), input[1..]).events == [];
      assert FeedBytes(t, input).events == [Error] + [];
      assert FeedBytes(t, input).events[0] == Error;
    }
  }

  lemma RefusedIsHeader(t: State)
    requires HoldsRefused(t)
    ensures !t.hdrDone && 0 < t.rxhdrLen <= HDR_MAX
  {
  }

  lemma PollKnown(s: State)
    requires Valid(s) && Known(s)
    ensures Ready(Poll(s)) && Known(Poll(s))
  {
    hide Sound, Halted, HoldsRefused, Valid, Parse;
    PollReady(s);
    KnownStep(s, PollEvent);
  }

  /**
   * Exact error characterisation in CLOSING, in every state of every run, once the pending event has
   * been polled: with a refused header held, any byte that is taken is an error; otherwise an error comes
   * before the next Close if and only if the bytes are passing frames followed by an offence.
   */
  lemma ClosingErrors(role: Role, msg: seq<byte>, ops: seq<Call>, n: nat, input: seq<byte>)
    requires |msg| < TWO63 && n <= |ops| && At(Init(role, msg), ops, n).status == CLOSING
    ensures var t := Poll(At(Init(role, msg), ops, n));
      && Ready(t) && t.msgLen <= |t.msg|
      && (ErrorBeforeClose(FeedBytes(t, input).events) <==>
            if HoldsRefused(t) then input != [] && t.rxhdrLen < 14
            else OffendsLater(t.role, |t.msg| - t.msgLen, t.inMessage, Staged(t) + input))
  {
    hide At, Init, Halted, HoldsRefused, Sound, ErrorBeforeClose, FeedBytes, OffendsLater, Staged, Parse;
    KnownRuns(role, msg, ops, n);
    PollKnown(At(Init(role, msg), ops, n));
    var t := Poll(At(Init(role, msg), ops, n));
    if HoldsRefused(t) {
      RefusedFeed(t, input);
    } else {
      ErrorIffOffence(t, input);
    }
  }

  /** Part of a header that announces more than the capacity has arrived. */
  predicate OversizeUnderWay(s: State, h: Header) {
    && Valid(s) && !s.hdrDone && s.pending == EV_NONE && ValidHeader(h) && !Fits(s, h)
    && s.rxhdrLen < h.headerLen && Hdr(s) == HeaderBytes(h)[..s.rxhdrLen]
  }

  /** The error has been raised and all of the header is still in `rxhdr`. */
  predicate OversizeRefused(s: State, t: State, h: Header) {
    && t.status == CLOSED && t.pending == EV_ERROR && !t.hdrDone && t.rxhdrLen == h.headerLen
    && t.closeSent == s.closeSent && t.role == s.role
  }

  lemma OversizeByte(s: State, h: Header)
    requires OversizeUnderWay(s, h)
    ensures var (t, ended) := TakeByte(s, HeaderBytes(h)[s.rxhdrLen]);
      if s.rxhdrLen + 1 < h.headerLen then
        && !ended && OversizeUnderWay(t, h) && t.rxhdrLen == s.rxhdrLen + 1
        && t.closeSent == s.closeSent && t.role == s.role
      else ended && OversizeRefused(s, t, h)
  {
    hide PayloadStep, FinishFrame, HeaderBytes;
    var w := HeaderBytes(h);
    var p := PushHdr(s, w[s.rxhdrLen]);
    assert Hdr(p) == w[..s.rxhdrLen + 1];
    if p.rxhdrLen < h.headerLen {
      ParsePrefix(h, Hdr(p));
    } else {
      ParseComplete(h, []);
      assert w + [] == w == Hdr(p);
    }
  }

  lemma {:induction false} OversizeHeader(s: State, h: Header)
    requires OversizeUnderWay(s, h)
    ensures OversizeRefused(s, RecvFrame(s, HeaderBytes(h)[s.rxhdrLen..]).0, h)
    decreases h.headerLen - s.rxhdrLen
  {
    hide TakeByte, HeaderBytes, Parse;
    var rest := HeaderBytes(h)[s.rxhdrLen..];
    var t := TakeByte(s, rest[0]).0;
    OversizeByte(s, h);
    assert rest[1..] == HeaderBytes(h)[s.rxhdrLen + 1..];
    if s.rxhdrLen + 1 < h.headerLen {
      OversizeHeader(t, h);
    }
  }

  /**
   * It happens: after an oversize 14-byte header and the server's reply,
   * the connection is CLOSING again and never consumes another byte.
   */
  lemma ReopenedStuck(msg: seq<byte>, h: Header, code: Code)
    requires |msg| < TWO63 && ValidHeader(h) && h.headerLen == 14 && h.payloadLen > |msg|
    ensures var s0 := Init(SERVER, msg);
      var ops := [Receive(HeaderBytes(h)), PollEvent, SendClosing(None, code, 4)];
      && Reopens(At(s0, ops, 2), ops[2])
      && At(s0, ops, 3).status == CLOSING
      && forall buf :: Recv(At(s0, ops, 3), buf) == (At(s0, ops, 3), 0)
  {
    var s0 := Init(SERVER, msg);
    var ops: seq<Call> := [Receive(HeaderBytes(h)), PollEvent, SendClosing(None, code, 4)];
    assert HeaderBytes(h)[0..] == HeaderBytes(h);
    OversizeHeader(s0, h);
    var s1 := Recv(s0, HeaderBytes(h)).0;
    assert At(s0, ops, 0) == s0;
    assert At(s0, ops, 1) == s1;
    assert At(s0, ops, 2) == Poll(s1);
    SendCloseCases(Poll(s1), None, code, 4);
    assert At(s0, ops, 3) == After(Poll(s1), ops[2]);
  }
}
