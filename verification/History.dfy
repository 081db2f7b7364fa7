/** Arbitrary runs of one connection: any calls in any order, any bytes from the peer. */
module History {
  import opened Bytes
  import opened Mask
  import opened FrameHeader
  import opened ConnSpec
  import opened Session
  import opened Stream
  import Mem
  import Utf8

  datatype Op =
    | Receive(buf: seq<byte>)
    | PollEvent
    | SendMsg(rng: Option<Key>, opcode: byte, data: seq<byte>, cap: nat)
    | SendCtl(rng: Option<Key>, opcode: byte, data: seq<byte>, cap: nat)
    | SendClosing(rng: Option<Key>, code: Code, cap: nat)

  /** Lengths are below 2^63, and pings and pongs are the only direct control sends. */
  predicate Callable(op: Op) {
    && (op.SendMsg? ==> |op.data| < TWO63)
    && (op.SendCtl? ==> |op.data| < TWO63 && (op.opcode == OP_PING || op.opcode == OP_PONG))
  }

  type Call = op: Op | Callable(op) witness PollEvent

  function After(s: State, op: Call): (t: State)
    requires Valid(s)
  {
    match op
    case Receive(buf) => Recv(s, buf).0
    case PollEvent => Poll(s)
    case SendMsg(_, _, _, _) => s
    case SendCtl(_, _, _, _) => s
    case SendClosing(rng, code, cap) => SendClose(s, rng, code, cap).0
  }

  /** The bytes that the call puts out. */
  function Output(s: State, op: Call): seq<byte> {
    match op
    case Receive(_) => []
    case PollEvent => []
    case SendMsg(rng, opcode, data, cap) => SendMessage(s, rng, opcode, data, cap)
    case SendCtl(rng, opcode, data, cap) => Built(s.role, rng, opcode, data, cap)
    case SendClosing(rng, code, cap) => SendClose(s, rng, code, cap).1
  }

  lemma AfterValid(s: State, op: Call)
    requires Valid(s)
    ensures Valid(After(s, op))
  {
    match op
    case Receive(buf) => RecvFrameValid(s, buf);
    case PollEvent =>
    case SendMsg(_, _, _, _) =>
    case SendCtl(_, _, _, _) =>
    case SendClosing(rng, code, cap) => OperationsValid(s, [], rng, code, cap);
  }

  /** The state after the first n calls. */
  function At(s: State, ops: seq<Call>, n: nat): (t: State)
    requires Valid(s) && n <= |ops|
    ensures Valid(t)
  {
    if n == 0 then s
    else
      AfterValid(At(s, ops, n - 1), ops[n - 1]);
      After(At(s, ops, n - 1), ops[n - 1])
  }

  lemma AtIs(s: State, ops: seq<Call>, n: nat)
    requires Valid(s) && n <= |ops|
    ensures At(s, ops, n) == if n == 0 then s else After(At(s, ops, n - 1), ops[n - 1])
  {
  }

  function Rank(st: Status): nat {
    match st case OPEN => 0 case CLOSING => 1 case CLOSED => 2
  }

  // ----- Single calls -----

  /** What a complete frame leaves alone, and which way the status can go. */
  predicate Forward(s: State, t: State) {
    && t.role == s.role && |t.msg| == |s.msg| && t.closeSent == s.closeSent
    && Rank(t.status) >= Rank(s.status)
    && (t.pending == EV_MESSAGE ==> s.status == OPEN && t.status == OPEN)
    && (t.status != s.status ==> t.pending == EV_CLOSE || t.pending == EV_ERROR)
  }

  lemma DataForward(u: State, h: Header)
    requires Sized(u) && Fits(u, h) && u.pending == EV_NONE && u.status == OPEN
    ensures Forward(u, AcceptData(u, h, u.msgLen))
  {
    hide Utf8.Feed, Mem.Moved;
    var b := if u.inMessage then u else BeginMessage(u, h);
    var a := AppendPayload(b, h, u.msgLen).0;
    assert a == b.(msg := a.msg, msgLen := a.msgLen, utf8 := a.utf8) && |a.msg| == |b.msg|;
  }

  lemma ConsumeForward(s: State, h: Header)
    requires Sized(s) && Fits(s, h) && s.pending == EV_NONE
    ensures Forward(s, Consume(s, h))
  {
    if HeaderOk(s.role, s.inMessage, h) {
      var u := Unmasked(s, h);
      assert u == s.(msg := u.msg) && |u.msg| == |s.msg|;
      if !IsControl(h.opcode) && u.status == OPEN {
        DataForward(u, h);
      }
    }
  }

  lemma FinishForward(s: State)
    requires Sized(s) && Staging(s) && s.pending == EV_NONE
    ensures Forward(s, FinishFrame(s))
  {
    ConsumeForward(s.(rxhdrLen := 0, hdrDone := false, got := 0), Parse(Hdr(s)).h);
  }

  lemma HeaderByteForward(p: State)
    requires Sized(p) && p.pending == EV_NONE
    ensures Forward(p, HeaderStep(p).0)
    ensures !HeaderStep(p).1 ==> HeaderStep(p).0.status == p.status && HeaderStep(p).0.pending == EV_NONE
  {
    if Parse(Hdr(p)).Parsed? && Fits(p, Parse(Hdr(p)).h) {
      var h := Parse(Hdr(p)).h;
      var s1 := p.(hdrDone := true, got := 0, need := h.payloadLen);
      assert Hdr(s1) == Hdr(p);
      if h.payloadLen == 0 {
        FinishForward(s1);
      }
    }
  }

  lemma PayloadByteForward(s: State, b: byte)
    requires Valid(s) && s.hdrDone && s.pending == EV_NONE
    ensures Forward(s, PayloadStep(s, b).0)
    ensures !PayloadStep(s, b).1 ==> PayloadStep(s, b).0.status == s.status && PayloadStep(s, b).0.pending == EV_NONE
  {
    var s1 := Stored(s, b);
    assert Hdr(s1) == Hdr(s);
    if s1.got == s1.need {
      FinishForward(s1);
    }
  }

  /** One byte changes nothing but the fields of receiving, never lowers the status, and a frame that
      completes outside OPEN is never a message. */
  lemma ByteForward(s: State, b: byte)
    requires Valid(s) && CanTake(s) && s.pending == EV_NONE
    ensures var (t, ended) := TakeByte(s, b);
      Forward(s, t) && (!ended ==> t.status == s.status && t.pending == EV_NONE)
  {
    if s.hdrDone {
      PayloadByteForward(s, b);
    } else {
      HeaderByteForward(PushHdr(s, b));
    }
  }

  lemma {:induction false} RecvFrameSteps(s: State, buf: seq<byte>)
    requires Valid(s) && s.pending == EV_NONE
    ensures Forward(s, RecvFrame(s, buf).0)
    decreases |buf|
  {
    if buf != [] && CanTake(s) {
      ByteForward(s, buf[0]);
      TakeByteValid(s, buf[0]);
      if !TakeByte(s, buf[0]).1 {
        RecvFrameSteps(TakeByte(s, buf[0]).0, buf[1..]);
      }
    }
  }

  /** The one kind of call that reopens: a first Close, sent from CLOSED. */
  predicate Reopens(s: State, op: Call) {
    op.SendClosing? && s.status == CLOSED && !s.closeSent && CanBuild(s.role, op.rng, 2, op.cap)
  }

  /** The status goes down exactly when a first Close is sent from CLOSED, and then to CLOSING. */
  lemma StatusFalls(s: State, op: Call)
    requires Valid(s)
    ensures Rank(After(s, op).status) < Rank(s.status) <==> Reopens(s, op)
    ensures Reopens(s, op) ==> After(s, op).status == CLOSING && After(s, op).closeSent
  {
    match op
    case Receive(buf) => if !Blocked(s) { RecvFrameSteps(s, buf); }
    case PollEvent =>
    case SendMsg(_, _, _, _) =>
    case SendCtl(_, _, _, _) =>
    case SendClosing(rng, code, cap) => SendCloseCases(s, rng, code, cap);
  }

  lemma SendCloseCases(s: State, rng: Option<Key>, code: Code, cap: nat)
    ensures var (t, out) := SendClose(s, rng, code, cap);
      && (out != [] <==> !s.closeSent && CanBuild(s.role, rng, 2, cap))
      && (out == [] ==> t == s)
      && (out != [] ==> t == MarkCloseSent(s))
  {
  }

  /** A message is only ever produced by a frame that completes in OPEN. */
  lemma MessageOnlyOpen(s: State, buf: seq<byte>)
    requires Valid(s) && s.pending == EV_NONE && s.status != OPEN
    ensures Recv(s, buf).0.pending != EV_MESSAGE
  {
    RecvFrameSteps(s, buf);
  }

  // ----- Whole runs -----

  lemma {:induction false} CloseSentStays(s: State, ops: seq<Call>, m: nat, n: nat)
    requires Valid(s) && m <= n <= |ops| && At(s, ops, m).closeSent
    ensures At(s, ops, n).closeSent
    decreases n
  {
    hide *;
    if m < n {
      CloseSentStays(s, ops, m, n - 1);
      AtIs(s, ops, n);
      StepKeepsClose(At(s, ops, n - 1), ops[n - 1]);
    }
  }

  lemma StepKeepsClose(s: State, op: Call)
    requires Valid(s)
    ensures s.closeSent ==> After(s, op).closeSent
  {
    hide RecvFrame, Built, Parse;
    if op.Receive? && !Blocked(s) {
      RecvFrameSteps(s, op.buf);
    }
  }

  /** Between two points of a run the status falls only across a reopening call. */
  lemma {:induction false} RunStatus(s: State, ops: seq<Call>, m: nat, n: nat)
    requires Valid(s) && m <= n <= |ops|
    requires forall i :: m <= i < n ==> !Reopens(At(s, ops, i), ops[i])
    ensures Rank(At(s, ops, n).status) >= Rank(At(s, ops, m).status)
    decreases n
  {
    hide *;
    if m < n {
      RunStatus(s, ops, m, n - 1);
      AtIs(s, ops, n);
      StatusFalls(At(s, ops, n - 1), ops[n - 1]);
    }
  }

  /**
   * In any run at most one call to `ws_send_close` returns nonzero, and after it every
   * `ws_send_message` returns 0.
   */
  lemma CloseOnce(s: State, ops: seq<Call>, i: nat, j: nat)
    requires Valid(s) && i < j < |ops|
    requires ops[i].SendClosing? && Output(At(s, ops, i), ops[i]) != []
    requires ops[j].SendClosing? || ops[j].SendMsg?
    ensures Output(At(s, ops, j), ops[j]) == []
    ensures At(s, ops, j + 1) == At(s, ops, j)
  {
    hide Recv, Built, Parse, Valid;
    SendCloseCases(At(s, ops, i), ops[i].rng, ops[i].code, ops[i].cap);
    AtIs(s, ops, i + 1);
    CloseSentStays(s, ops, i + 1, j);
    AtIs(s, ops, j + 1);
  }

  /** So a run reopens at most once. */
  lemma ReopensOnce(s: State, ops: seq<Call>, i: nat, j: nat)
    requires Valid(s) && i < j < |ops|
    requires Reopens(At(s, ops, i), ops[i])
    ensures !Reopens(At(s, ops, j), ops[j])
  {
    StatusFalls(At(s, ops, i), ops[i]);
    CloseSentStays(s, ops, i + 1, j);
  }

  /** A pending event is frozen, bytes included, until it is polled. */
  lemma {:induction false} PendingFrozen(s: State, ops: seq<Call>, n: nat)
    requires Valid(s) && s.pending != EV_NONE && n <= |ops|
    requires forall i :: 0 <= i < n ==> !ops[i].PollEvent?
    ensures var t := At(s, ops, n);
      && t.pending == s.pending && t.ev == s.ev && t.msg == s.msg && Pending(t) == Pending(s)
    decreases n
  {
    hide RecvFrame, Built, Parse, SendMessage, Valid;
    if n > 0 {
      PendingFrozen(s, ops, n - 1);
      AtIs(s, ops, n);
    }
  }

  /** After the poll the event is gone: a second poll finds nothing. */
  lemma PolledOnce(s: State)
    requires Valid(s)
    ensures Poll(s).pending == EV_NONE && Drained(Poll(s)) == [] && Poll(Poll(s)) == Poll(s)
    ensures s.pending != EV_NONE ==> Drained(s) == [Pending(s)]
  {
  }

  // ----- The shared buffer -----

  lemma {:induction false} RecvFrameSound(s: State, buf: seq<byte>)
    requires Sound(s) && s.pending == EV_NONE && s.status != CLOSED
    ensures Sound(RecvFrame(s, buf).0)
    decreases |buf|
  {
    SoundTakes(s);
    if buf != [] {
      ByteRefines(s, buf[0]);
      ByteForward(s, buf[0]);
      if !TakeByte(s, buf[0]).1 {
        RecvFrameSound(TakeByte(s, buf[0]).0, buf[1..]);
      }
    }
  }

  /** Every call but a reopening one keeps the buffers consistent with the frames received. */
  lemma SoundStep(s: State, op: Call)
    requires Sound(s) && !Reopens(s, op)
    ensures Sound(After(s, op))
  {
    match op
    case Receive(buf) => if !Blocked(s) { RecvFrameSound(s, buf); }
    case PollEvent =>
    case SendMsg(_, _, _, _) =>
    case SendCtl(_, _, _, _) =>
    case SendClosing(rng, code, cap) => SendCloseCases(s, rng, code, cap);
  }

  lemma SoundIsValid(s: State)
    requires Sound(s)
    ensures Valid(s)
  {
  }

  lemma {:induction false} SoundStays(s: State, ops: seq<Call>, n: nat)
    requires Sound(s) && n <= |ops|
    requires forall i :: 0 <= i < n ==> !Reopens(At(s, ops, i), ops[i])
    ensures Sound(At(s, ops, n))
    decreases n
  {
    hide *;
    SoundIsValid(s);
    AtIs(s, ops, n);
    if n > 0 {
      SoundStays(s, ops, n - 1);
      SoundStep(At(s, ops, n - 1), ops[n - 1]);
    }
  }

  /**
   * Over all runs without a reopening call: the header bytes are those of one header, text in
   * progress has been checked up to its last byte, and the staged payload fits the buffer.
   */
  lemma SoundRuns(role: Role, msg: seq<byte>, ops: seq<Call>, n: nat)
    requires |msg| < TWO63 && n <= |ops|
    requires forall i :: 0 <= i < n ==> !Reopens(At(Init(role, msg), ops, i), ops[i])
    ensures Sound(At(Init(role, msg), ops, n))
  {
    InitSound(role, msg);
    SoundStays(Init(role, msg), ops, n);
  }
}
