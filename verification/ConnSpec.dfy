/** What one connection does, as functions on the complete value of a `conn_impl` (src/sdk/conn.c). */
module ConnSpec {
  import opened Bytes
  import opened Mask
  import opened FrameHeader
  import Mem
  import Utf8

  datatype Role = SERVER | CLIENT
  datatype Status = OPEN | CLOSING | CLOSED
  datatype EventType = EV_NONE | EV_MESSAGE | EV_PING | EV_PONG | EV_CLOSE | EV_ERROR

  /** A 16-bit close code. */
  type Code = c: nat | c < 0x1_0000

  /** A `ws_event`; its data is the range off..off + len of the message buffer. */
  datatype Event = Event(kind: EventType, opcode: byte, off: nat, len: nat, code: Code)

  /** Every field of a `conn_impl`, with the contents of its two buffers. */
  datatype State = State(
    role: Role, status: Status,
    msg: seq<byte>, msgLen: nat, msgOpcode: byte, inMessage: bool, closeSent: bool,
    utf8: Utf8.Cursor,
    rxhdr: seq<byte>, rxhdrLen: nat, hdrDone: bool, got: nat, need: nat,
    ev: Event, pending: EventType)

  const NO_EVENT := Event(EV_NONE, 0, 0, 0, 0)
  const HDR_MAX: nat := 14

  const CLOSE_NORMAL: Code := 1000
  const CLOSE_PROTOCOL: Code := 1002
  const CLOSE_NO_STATUS: Code := 1005
  const CLOSE_ABNORMAL: Code := 1006
  const CLOSE_TLS: Code := 1015

  /** `ws_conn_init` over a message buffer. */
  function Init(role: Role, msg: seq<byte>): (s: State)
    ensures |msg| < TWO63 ==> Valid(s)
  {
    State(role, OPEN, msg, 0, 0, false, false, Utf8.START, seq(HDR_MAX, _ => 0), 0, false, 0, 0, NO_EVENT, EV_NONE)
  }

  // ----- Invariants of the value -----

  function Hdr(s: State): seq<byte>
    requires s.rxhdrLen <= |s.rxhdr|
  {
    s.rxhdr[..s.rxhdrLen]
  }

  /** The sizes that every access relies on. */
  predicate Sized(s: State) {
    && |s.rxhdr| == HDR_MAX && s.rxhdrLen <= HDR_MAX
    && |s.msg| < TWO63 && s.msgLen <= |s.msg|
  }

  /** Both buffers leave room for a frame with this header. */
  predicate Fits(s: State, h: Header) {
    s.msgLen + h.payloadLen <= |s.msg|
  }

  /** Payload bytes are being staged for the header in `rxhdr`. */
  predicate Staging(s: State)
    requires Sized(s)
  {
    Parse(Hdr(s)).Parsed? && Fits(s, Parse(Hdr(s)).h) && s.need == Parse(Hdr(s)).h.payloadLen
  }

  predicate EventOk(s: State) {
    && (s.pending == EV_NONE || s.pending == s.ev.kind)
    && (s.pending in {EV_MESSAGE, EV_PING, EV_PONG} ==> s.ev.off + s.ev.len <= |s.msg|)
    && (s.pending == EV_ERROR ==> s.status != OPEN)
  }

  /** Holds between any two calls. */
  predicate Valid(s: State) {
    && Sized(s)
    && (s.hdrDone ==> Staging(s) && s.got < s.need)
    && (!s.hdrDone ==> s.got == 0)
    && (s.inMessage ==> s.msgOpcode == OP_TEXT || s.msgOpcode == OP_BINARY)
    && Utf8.Reachable(s.utf8)
    && EventOk(s)
  }

  // ----- Frame rules -----

  predicate IsControl(op: byte) {
    (op / 8) % 2 == 1
  }

  predicate ControlOk(h: Header) {
    h.fin && h.payloadLen <= 125 && (h.opcode == OP_CLOSE || h.opcode == OP_PING || h.opcode == OP_PONG)
  }

  predicate DataOk(inMessage: bool, h: Header) {
    && (h.opcode == OP_CONTINUATION || h.opcode == OP_TEXT || h.opcode == OP_BINARY)
    && (h.opcode == OP_CONTINUATION) == inMessage
  }

  predicate HeaderOk(role: Role, inMessage: bool, h: Header) {
    && !(h.rsv1 || h.rsv2 || h.rsv3)
    && (role != SERVER || h.masked)
    && (if IsControl(h.opcode) then ControlOk(h) else DataOk(inMessage, h))
  }

  predicate ValidCloseCode(c: nat) {
    1000 <= c <= 1003 || 1007 <= c <= 1011 || 3000 <= c <= 4999
  }

  predicate ReservedCloseCode(c: nat) {
    c == CLOSE_NO_STATUS || c == CLOSE_ABNORMAL || c == CLOSE_TLS
  }

  /** The code that a Close payload reports. */
  function CloseCodeOf(payload: seq<byte>): Code {
    if |payload| < 2 then CLOSE_NO_STATUS
    else
      var hi: int := payload[0];
      var code := hi * 256 + payload[1];
      if ValidCloseCode(code) then code else CLOSE_PROTOCOL
  }

  // ----- Receiving a whole frame -----

  function SetError(s: State): State {
    s.(pending := EV_ERROR, ev := s.ev.(kind := EV_ERROR), status := CLOSED)
  }

  function BeginMessage(s: State, h: Header): State {
    s.(msgLen := 0, msgOpcode := h.opcode, inMessage := true,
       utf8 := if h.opcode == OP_TEXT then Utf8.START else s.utf8)
  }

  /** The payload at `pl` is moved behind the bytes collected so far and checked there. */
  function AppendPayload(s: State, h: Header, pl: nat): (State, bool)
    requires pl + h.payloadLen <= |s.msg|
  {
    var n := h.payloadLen;
    if s.msgLen + n > |s.msg| then (s, false)
    else
      var s1 := s.(msg := Mem.Moved(s.msg, s.msgLen, pl, n), msgLen := s.msgLen + n);
      if s.msgOpcode != OP_TEXT then (s1, true)
      else
        var (u, ok) := Utf8.Feed(s.utf8, s1.msg[s.msgLen..s.msgLen + n]);
        (s1.(utf8 := u), ok)
  }

  function StageData(s: State, h: Header, pl: nat): (State, bool)
    requires pl + h.payloadLen <= |s.msg|
  {
    AppendPayload(if s.inMessage then s else BeginMessage(s, h), h, pl)
  }

  function FinishMessage(s: State): State {
    if s.msgOpcode == OP_TEXT && s.utf8.remaining != 0 then SetError(s)
    else s.(inMessage := false, pending := EV_MESSAGE,
            ev := Event(EV_MESSAGE, s.msgOpcode, 0, s.msgLen, s.ev.code))
  }

  function AcceptData(s: State, h: Header, pl: nat): State
    requires pl + h.payloadLen <= |s.msg|
  {
    var (s1, ok) := StageData(s, h, pl);
    if !ok then SetError(s1) else if h.fin then FinishMessage(s1) else s1
  }

  function AcceptClose(s: State, h: Header, pl: nat): State
    requires pl + h.payloadLen <= |s.msg|
  {
    s.(pending := EV_CLOSE,
       ev := s.ev.(kind := EV_CLOSE, code := CloseCodeOf(s.msg[pl..pl + h.payloadLen])),
       status := if s.status == OPEN then CLOSING else CLOSED)
  }

  function AcceptPingPong(s: State, h: Header, pl: nat): State {
    var kind := if h.opcode == OP_PING then EV_PING else EV_PONG;
    s.(pending := kind, ev := Event(kind, h.opcode, pl, h.payloadLen, s.ev.code))
  }

  function Dispatch(s: State, h: Header, pl: nat): State
    requires pl + h.payloadLen <= |s.msg|
  {
    if IsControl(h.opcode) then
      if h.opcode == OP_CLOSE then AcceptClose(s, h, pl) else AcceptPingPong(s, h, pl)
    else if s.status == OPEN then AcceptData(s, h, pl)
    else s
  }

  /** The staged payload after unmasking in place. */
  function Unmasked(s: State, h: Header): State
    requires Fits(s, h)
  {
    if h.masked then
      s.(msg := Splice(s.msg, s.msgLen, MaskSeq(s.msg[s.msgLen..s.msgLen + h.payloadLen], h.key)))
    else s
  }

  function Consume(s: State, h: Header): State
    requires Fits(s, h)
  {
    if !HeaderOk(s.role, s.inMessage, h) then SetError(s) else Dispatch(Unmasked(s, h), h, s.msgLen)
  }

  /** A frame whose payload is complete: the staging fields are reset and the frame is handled. */
  function FinishFrame(s: State): State
    requires Sized(s) && Staging(s)
  {
    Consume(s.(rxhdrLen := 0, hdrDone := false, got := 0), Parse(Hdr(s)).h)
  }

  // ----- Receiving bytes -----

  /** A header byte goes to `rxhdr`. */
  function PushHdr(s: State, b: byte): State
    requires Sized(s) && s.rxhdrLen < HDR_MAX
  {
    s.(rxhdr := s.rxhdr[s.rxhdrLen := b], rxhdrLen := s.rxhdrLen + 1)
  }

  /** What follows the arrival of a header byte, and whether `ws_conn_recv` returns because of it. */
  function HeaderStep(s: State): (State, bool)
    requires Sized(s)
  {
    match Parse(Hdr(s))
    case NeedMore => (s, false)
    case Bad => (SetError(s), true)
    case Parsed(h) =>
      if !Fits(s, h) then (SetError(s), true)
      else
        var s1 := s.(hdrDone := true, got := 0, need := h.payloadLen);
        if h.payloadLen == 0 then (FinishFrame(s1), true) else (s1, false)
  }

  /** The state once a payload byte has been stored. */
  function Stored(s: State, b: byte): State
    requires Sized(s) && Staging(s) && s.got < s.need
  {
    s.(msg := s.msg[s.msgLen + s.got := b], got := s.got + 1)
  }

  /** A payload byte is staged behind the collected message. */
  function PayloadStep(s: State, b: byte): (State, bool)
    requires Sized(s) && Staging(s) && s.got < s.need
  {
    var s1 := Stored(s, b);
    if s1.got == s1.need then (FinishFrame(s1), true) else (s1, false)
  }

  predicate CanTake(s: State) {
    s.hdrDone || s.rxhdrLen < HDR_MAX
  }

  /** One byte from the peer. */
  function TakeByte(s: State, b: byte): (State, bool)
    requires Valid(s) && CanTake(s)
  {
    if s.hdrDone then PayloadStep(s, b) else HeaderStep(PushHdr(s, b))
  }

  predicate Blocked(s: State) {
    s.pending != EV_NONE || s.status == CLOSED
  }

  /** Bytes up to the end of one frame: the state and the number of bytes consumed. */
  function RecvFrame(s: State, buf: seq<byte>): (r: (State, nat))
    requires Valid(s)
    ensures r.1 <= |buf|
    decreases |buf|
  {
    if buf == [] || !CanTake(s) then (s, 0)
    else
      var (s1, ended) := TakeByte(s, buf[0]);
      if ended then (s1, 1)
      else
        TakeByteValid(s, buf[0]);
        var (s2, n) := RecvFrame(s1, buf[1..]);
        (s2, n + 1)
  }

  /** `ws_conn_recv`. */
  function Recv(s: State, buf: seq<byte>): (r: (State, nat))
    requires Valid(s)
    ensures r.1 <= |buf|
  {
    if Blocked(s) then (s, 0) else RecvFrame(s, buf)
  }

  /** The state after `ws_conn_poll`; the event returned is `s.ev` when one is pending. */
  function Poll(s: State): State {
    s.(pending := EV_NONE)
  }

  // ----- Sending -----

  datatype Frame = Frame(h: Header, payload: seq<byte>)

  /** A frame that can be on the wire; its payload is as on the wire, masked or not. */
  predicate ValidFrame(f: Frame) {
    ValidHeader(f.h) && |f.payload| == f.h.payloadLen
  }

  function Wire(f: Frame): (s: seq<byte>)
    requires ValidFrame(f)
    ensures |s| == f.h.headerLen + f.h.payloadLen
  {
    HeaderBytes(f.h) + f.payload
  }

  /** The payload with the mask removed. */
  function Clear(f: Frame): (s: seq<byte>)
    ensures |s| == |f.payload|
  {
    if f.h.masked then MaskSeq(f.payload, f.h.key) else f.payload
  }

  /** The frame that a send builds; `rng` is what getrandom gave, used by clients only. */
  function SentFrame(role: Role, rng: Option<Key>, opcode: byte, data: seq<byte>): Frame
    requires role == CLIENT ==> rng.Some?
  {
    if role == CLIENT then
      Frame(SendHeader(true, opcode, true, rng.value, |data|), MaskSeq(data, rng.value))
    else
      Frame(SendHeader(true, opcode, false, NO_KEY, |data|), data)
  }

  /** A key is at hand when needed, and the frame fits in `cap` bytes. */
  predicate CanBuild(role: Role, rng: Option<Key>, len: nat, cap: nat) {
    (role == CLIENT ==> rng.Some?) && 2 + LenExtra(len) + MaskLen(role == CLIENT) + len <= cap
  }

  /** The bytes that a send puts out; nothing when it returns 0. */
  function Built(role: Role, rng: Option<Key>, opcode: byte, data: seq<byte>, cap: nat): seq<byte>
    requires |data| < TWO63
  {
    if CanBuild(role, rng, |data|, cap) then Wire(SentFrame(role, rng, opcode, data)) else []
  }

  /** The bytes written to the output: a header whose payload does not fit is written all the same. */
  function Written(role: Role, rng: Option<Key>, opcode: byte, data: seq<byte>, cap: nat): (s: seq<byte>)
    requires |data| < TWO63
    ensures |s| <= cap && (Built(role, rng, opcode, data, cap) != [] ==> s == Built(role, rng, opcode, data, cap))
  {
    var hn := 2 + LenExtra(|data|) + MaskLen(role == CLIENT);
    if (role == CLIENT && rng.None?) || cap < hn then []
    else
      var f := SentFrame(role, rng, opcode, data);
      if hn + |data| <= cap then Wire(f) else HeaderBytes(f.h)
  }

  function SanitizeCode(code: Code): Code {
    if ReservedCloseCode(code) then CLOSE_NORMAL else code
  }

  function ClosePayload(code: Code): (s: seq<byte>)
    ensures |s| == 2
  {
    var c := SanitizeCode(code);
    [c / 256, c % 256]
  }

  function MarkCloseSent(s: State): State {
    s.(closeSent := true, status := if s.status == CLOSING then CLOSED else CLOSING)
  }

  /** `ws_send_message`: the output; the state does not change. */
  function SendMessage(s: State, rng: Option<Key>, opcode: byte, data: seq<byte>, cap: nat): seq<byte>
    requires |data| < TWO63
  {
    if s.closeSent then [] else Built(s.role, rng, opcode, data, cap)
  }

  /** `ws_send_close`: the state and the output. */
  function SendClose(s: State, rng: Option<Key>, code: Code, cap: nat): (State, seq<byte>) {
    if s.closeSent then (s, [])
    else
      var out := Built(s.role, rng, OP_CLOSE, ClosePayload(code), cap);
      (if out != [] then MarkCloseSent(s) else s, out)
  }

  // ----- Validity is kept -----

  lemma AppendValid(s: State, h: Header, pl: nat)
    requires Sized(s) && pl + h.payloadLen <= |s.msg| && Utf8.Reachable(s.utf8)
    ensures var s1 := AppendPayload(s, h, pl).0;
      && s1 == s.(msg := s1.msg, msgLen := s1.msgLen, utf8 := s1.utf8)
      && |s1.msg| == |s.msg| && s1.msgLen <= |s.msg| && Utf8.Reachable(s1.utf8)
  {
    var n := h.payloadLen;
    if s.msgLen + n <= |s.msg| && s.msgOpcode == OP_TEXT {
      Utf8.FeedReachable(s.utf8, Mem.Moved(s.msg, s.msgLen, pl, n)[s.msgLen..s.msgLen + n]);
    }
  }

  lemma AcceptDataValid(s: State, h: Header, pl: nat)
    requires Valid(s) && !s.hdrDone && pl + h.payloadLen <= |s.msg|
    requires DataOk(s.inMessage, h) && s.status == OPEN
    ensures Valid(AcceptData(s, h, pl))
  {
    hide AppendPayload, Utf8.Feed, Utf8.Reachable, Parse;
    AppendValid(if s.inMessage then s else BeginMessage(s, h), h, pl);
  }

  lemma DispatchValid(s: State, h: Header, pl: nat)
    requires Valid(s) && !s.hdrDone && pl + h.payloadLen <= |s.msg|
    requires HeaderOk(s.role, s.inMessage, h)
    ensures Valid(Dispatch(s, h, pl))
  {
    if !IsControl(h.opcode) && s.status == OPEN {
      AcceptDataValid(s, h, pl);
    }
  }

  lemma ConsumeValid(s: State, h: Header)
    requires Valid(s) && Fits(s, h) && !s.hdrDone
    ensures Valid(Consume(s, h))
  {
    if HeaderOk(s.role, s.inMessage, h) {
      var u := Unmasked(s, h);
      assert u == s.(msg := u.msg) && |u.msg| == |s.msg|;
      DispatchValid(u, h, s.msgLen);
    }
  }

  lemma FinishValid(s: State)
    requires Sized(s) && Staging(s) && Valid(s.(rxhdrLen := 0, hdrDone := false, got := 0))
    ensures Valid(FinishFrame(s))
  {
    ConsumeValid(s.(rxhdrLen := 0, hdrDone := false, got := 0), Parse(Hdr(s)).h);
  }

  lemma StoredValid(s: State, b: byte)
    requires Valid(s) && s.hdrDone
    ensures var s1 := Stored(s, b);
      && Sized(s1) && Staging(s1) && Hdr(s1) == Hdr(s)
      && (s1.got < s1.need ==> Valid(s1))
      && Valid(s1.(rxhdrLen := 0, hdrDone := false, got := 0))
  {
    hide Parse;
    assert Hdr(Stored(s, b)) == Hdr(s);
  }

  lemma PayloadStepValid(s: State, b: byte)
    requires Valid(s) && s.hdrDone
    ensures Valid(PayloadStep(s, b).0)
  {
    hide FinishFrame, Parse;
    StoredValid(s, b);
    var s1 := Stored(s, b);
    if s1.got == s1.need {
      FinishValid(s1);
    }
  }

  lemma HeaderStepValid(s: State)
    requires Valid(s) && !s.hdrDone
    ensures Valid(HeaderStep(s).0)
  {
    hide FinishFrame, Parse, Utf8.Reachable;
    match Parse(Hdr(s))
    case NeedMore =>
    case Bad =>
    case Parsed(h) =>
      if Fits(s, h) {
        var s1 := s.(hdrDone := true, got := 0, need := h.payloadLen);
        assert Hdr(s1) == Hdr(s);
        if h.payloadLen == 0 {
          FinishValid(s1);
        }
      }
  }

  lemma TakeByteValid(s: State, b: byte)
    requires Valid(s) && CanTake(s)
    ensures Valid(TakeByte(s, b).0)
  {
    if s.hdrDone {
      PayloadStepValid(s, b);
    } else {
      HeaderStepValid(PushHdr(s, b));
    }
  }

  lemma {:induction false} RecvFrameValid(s: State, buf: seq<byte>)
    requires Valid(s)
    ensures Valid(RecvFrame(s, buf).0)
    decreases |buf|
  {
    if buf != [] && CanTake(s) {
      TakeByteValid(s, buf[0]);
      if !TakeByte(s, buf[0]).1 {
        RecvFrameValid(TakeByte(s, buf[0]).0, buf[1..]);
      }
    }
  }

  /** Every operation keeps the invariant, in every state it can be called in. */
  lemma OperationsValid(s: State, buf: seq<byte>, rng: Option<Key>, code: Code, cap: nat)
    requires Valid(s)
    ensures Valid(Recv(s, buf).0) && Valid(Poll(s)) && Valid(SendClose(s, rng, code, cap).0)
  {
    hide RecvFrame, Built, Parse;
    RecvFrameValid(s, buf);
  }
}
