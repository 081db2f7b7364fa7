/** The connection object of src/sdk/conn.c, updated in place, against the functions of ConnSpec. */
module Conn {
  import opened Bytes
  import opened Mask
  import opened FrameHeader
  import opened ConnSpec
  import Mem
  import Utf8

  class Connection {
    const role: Role
    const msg: array<byte>
    /** The address of msg[0]; masking looks at it and its effect does not depend on it. */
    const msgAddr: nat
    const rxhdr: array<byte>
    const utf8: Utf8.State

    var status: Status
    var msgLen: nat
    var msgOpcode: byte
    var inMessage: bool
    var closeSent: bool
    var rxhdrLen: nat
    var hdrDone: bool
    var got: nat
    var need: nat
    var ev: Event
    var pending: EventType

    /** The value of the connection, with the contents of the buffers it owns or borrows. */
    ghost function Value(): State
      reads this, msg, rxhdr, utf8
    {
      State(role, status, msg[..], msgLen, msgOpcode, inMessage, closeSent, utf8.Value(),
            rxhdr[..], rxhdrLen, hdrDone, got, need, ev, pending)
    }

    /** The two buffers are different memory, and their sizes are what the C types guarantee. */
    ghost predicate Owned()
      reads this
    {
      msg != rxhdr && rxhdr.Length == HDR_MAX && msg.Length < TWO63
    }

    /** The invariant between calls. */
    ghost predicate Ok()
      reads this, msg, rxhdr, utf8
    {
      Owned() && Valid(Value())
    }

    /** `ws_conn_init`. */
    constructor (role: Role, msg: array<byte>, msgAddr: nat)
      requires msg.Length < TWO63
      ensures this.msg == msg && fresh(rxhdr) && fresh(utf8)
      ensures Ok() && Value() == Init(role, msg[..])
    {
      this.role := role;
      this.msg := msg;
      this.msgAddr := msgAddr;
      rxhdr := new byte[HDR_MAX](_ => 0);
      utf8 := new Utf8.State();
      status, msgLen, msgOpcode, inMessage, closeSent := OPEN, 0, 0, false, false;
      rxhdrLen, hdrDone, got, need, ev, pending := 0, false, 0, 0, NO_EVENT, EV_NONE;
      new;
      assert rxhdr[..] == seq(HDR_MAX, _ => 0);
    }

    // ----- Receiving a whole frame -----

    method SetError()
      requires Owned()
      modifies this
      ensures Value() == ConnSpec.SetError(old(Value()))
    {
      pending := EV_ERROR;
      ev := ev.(kind := EV_ERROR);
      status := CLOSED;
    }

    method BeginMessage(h: Header)
      requires Owned()
      modifies this, utf8
      ensures Value() == ConnSpec.BeginMessage(old(Value()), h)
    {
      msgLen := 0;
      msgOpcode := h.opcode;
      inMessage := true;
      if h.opcode == OP_TEXT {
        utf8.Reset();
      }
    }

    method AppendPayload(h: Header, pl: nat) returns (ok: bool)
      requires Owned() && pl + h.payloadLen <= msg.Length
      modifies this, msg, utf8
      ensures (Value(), ok) == ConnSpec.AppendPayload(old(Value()), h, pl)
    {
      hide Utf8.Feed, Mem.Moved;
      if msgLen + h.payloadLen > msg.Length {
        return false;
      }
      var dst := msgLen;
      Mem.MemMove(msg, dst, pl, h.payloadLen);
      msgLen := msgLen + h.payloadLen;
      if msgOpcode != OP_TEXT {
        return true;
      }
      assert msg[..][dst..dst + h.payloadLen] == msg[dst..dst + h.payloadLen];
      ok := utf8.FeedBytes(msg, dst, h.payloadLen);
    }

    method StageData(h: Header, pl: nat) returns (ok: bool)
      requires Owned() && pl + h.payloadLen <= msg.Length
      modifies this, msg, utf8
      ensures (Value(), ok) == ConnSpec.StageData(old(Value()), h, pl)
    {
      if !inMessage {
        BeginMessage(h);
      }
      ok := AppendPayload(h, pl);
    }

    method FinishMessage()
      requires Owned()
      modifies this
      ensures Value() == ConnSpec.FinishMessage(old(Value()))
    {
      var complete := utf8.Complete();
      if msgOpcode == OP_TEXT && !complete {
        SetError();
        return;
      }
      inMessage := false;
      ev := Event(EV_MESSAGE, msgOpcode, 0, msgLen, ev.code);
      pending := EV_MESSAGE;
    }

    method AcceptData(h: Header, pl: nat)
      requires Owned() && pl + h.payloadLen <= msg.Length
      modifies this, msg, utf8
      ensures Value() == ConnSpec.AcceptData(old(Value()), h, pl)
    {
      var ok := StageData(h, pl);
      if !ok {
        SetError();
        return;
      }
      if h.fin {
        FinishMessage();
      }
    }

    method CloseCodeFrom(h: Header, pl: nat) returns (code: Code)
      requires pl + h.payloadLen <= msg.Length
      ensures code == CloseCodeOf(msg[..][pl..pl + h.payloadLen])
    {
      if h.payloadLen < 2 {
        return CLOSE_NO_STATUS;
      }
      var hi: int := msg[pl];
      var c := hi * 256 + msg[pl + 1];
      return if ValidCloseCode(c) then c else CLOSE_PROTOCOL;
    }

    method AcceptClose(h: Header, pl: nat)
      requires Owned() && pl + h.payloadLen <= msg.Length
      modifies this
      ensures Value() == ConnSpec.AcceptClose(old(Value()), h, pl)
    {
      var code := CloseCodeFrom(h, pl);
      ev := ev.(kind := EV_CLOSE, code := code);
      pending := EV_CLOSE;
      status := if status == OPEN then CLOSING else CLOSED;
    }

    method AcceptPingPong(h: Header, pl: nat)
      requires Owned()
      modifies this
      ensures Value() == ConnSpec.AcceptPingPong(old(Value()), h, pl)
    {
      ev := Event(if h.opcode == OP_PING then EV_PING else EV_PONG, h.opcode, pl, h.payloadLen, ev.code);
      pending := ev.kind;
    }

    method DispatchFrame(h: Header, pl: nat)
      requires Owned() && pl + h.payloadLen <= msg.Length
      modifies this, msg, utf8
      ensures Value() == Dispatch(old(Value()), h, pl)
    {
      if IsControl(h.opcode) {
        if h.opcode == OP_CLOSE {
          AcceptClose(h, pl);
        } else {
          AcceptPingPong(h, pl);
        }
      } else if status == OPEN {
        AcceptData(h, pl);
      }
    }

    method ConsumeFrame(h: Header)
      requires Owned() && msgLen + h.payloadLen <= msg.Length
      modifies this, msg, utf8
      ensures Value() == Consume(old(Value()), h)
    {
      hide HeaderOk, Dispatch, MaskSeq, ConnSpec.SetError;
      var pl := msgLen;
      if !HeaderOk(role, inMessage, h) {
        SetError();
        return;
      }
      if h.masked {
        assert msg[..][pl..pl + h.payloadLen] == msg[pl..pl + h.payloadLen];
        MaskInPlace(msg, pl, h.payloadLen, msgAddr + pl, h.key);
      }
      assert Value() == Unmasked(old(Value()), h);
      DispatchFrame(h, pl);
    }

    // ----- Receiving bytes -----

    /** Header bytes one at a time until the header is decided or the input ends. */
    method AccumulateHeader(buf: seq<byte>) returns (st: ParseStatus, off: nat, h: Header)
      requires Ok() && !hdrDone
      modifies this, rxhdr
      ensures Owned() && off <= |buf|
      ensures HeaderRun(old(Value()), buf, Value(), off, st)
      ensures st == PARSE_NEED_MORE ==> off == |buf| || rxhdrLen == HDR_MAX
      ensures st != PARSE_NEED_MORE ==> st == Parse(Hdr(Value())).Status()
      ensures st == PARSE_OK ==> Parse(Hdr(Value())) == Parsed(h)
    {
      st := PARSE_NEED_MORE;
      off := 0;
      h := Header(false, false, false, false, 0, false, 0, NO_KEY, 0);
      ghost var s0 := Value();
      assert buf[0..] == buf;
      while st == PARSE_NEED_MORE && off < |buf| && rxhdrLen < HDR_MAX
        invariant Owned() && off <= |buf|
        invariant HeaderRun(s0, buf, Value(), off, st)
        invariant st != PARSE_NEED_MORE ==> st == Parse(Hdr(Value())).Status()
        invariant st == PARSE_OK ==> Parse(Hdr(Value())) == Parsed(h)
        decreases |buf| - off
      {
        ghost var s := Value();
        HeaderRunStep(s0, buf, s, off);
        st, h := PushByte(buf[off]);
        off := off + 1;
      }
    }

    /** One header byte, and the verdict on the header so far. */
    method PushByte(b: byte) returns (st: ParseStatus, h: Header)
      requires Owned() && Sized(Value()) && rxhdrLen < HDR_MAX
      modifies this, rxhdr
      ensures Value() == PushHdr(old(Value()), b)
      ensures st == Parse(Hdr(Value())).Status()
      ensures st == PARSE_OK ==> Parse(Hdr(Value())) == Parsed(h)
    {
      rxhdr[rxhdrLen] := b;
      rxhdrLen := rxhdrLen + 1;
      assert Hdr(Value()) == rxhdr[..rxhdrLen];
      st, h := ParseHeader(rxhdr, rxhdrLen);
    }

    /** The capacity check, and the switch to the payload phase. */
    method BeginPayload(h: Header) returns (st: ParseStatus)
      requires Owned() && Sized(Value())
      modifies this
      ensures var s := old(Value());
        if Fits(s, h) then st == PARSE_OK && Value() == s.(hdrDone := true, got := 0, need := h.payloadLen)
        else st == PARSE_ERROR && Value() == s
    {
      var plen := h.payloadLen;
      if msgLen + plen > msg.Length {
        return PARSE_ERROR;
      }
      hdrDone := true;
      got := 0;
      need := plen;
      return PARSE_OK;
    }

    method RecvHeader(buf: seq<byte>) returns (st: ParseStatus, off: nat, h: Header)
      requires Ok() && !hdrDone
      modifies this, rxhdr
      ensures Owned() && Sized(Value()) && off <= |buf|
      ensures match st
        case PARSE_NEED_MORE => Valid(Value()) && RecvFrame(old(Value()), buf) == (Value(), off)
        case PARSE_ERROR => RecvFrame(old(Value()), buf) == (ConnSpec.SetError(Value()), off)
        case PARSE_OK =>
          && hdrDone && got == 0 && Staging(Value()) && Parse(Hdr(Value())) == Parsed(h)
          && (need > 0 ==> Valid(Value()))
          && RecvFrame(old(Value()), buf) == AfterStaging(Value(), buf, off)
    {
      hide RecvFrame, HeaderStep, FinishFrame, Parse, Valid, AfterHeader, AfterStaging, ConnSpec.SetError;
      ghost var s0 := Value();
      st, off, h := AccumulateHeader(buf);
      ghost var s := Value();
      HeaderDecided(s0, buf, s, off, st);
      if st == PARSE_OK {
        st := BeginPayload(h);
      }
    }

    method EnsureHeader(buf: seq<byte>) returns (st: ParseStatus, off: nat, h: Header)
      requires Ok()
      modifies this, rxhdr
      ensures Owned() && Sized(Value()) && off <= |buf|
      ensures st != PARSE_OK ==> RecvFrame(old(Value()), buf) == (Value(), off)
      ensures st == PARSE_OK ==>
        && hdrDone && got <= need && Staging(Value()) && Parse(Hdr(Value())) == Parsed(h)
        && (got < need ==> Valid(Value())) && (got == need ==> need == 0)
        && RecvFrame(old(Value()), buf) == AfterStaging(Value(), buf, off)
    {
      if hdrDone {
        assert Hdr(Value()) == rxhdr[..rxhdrLen];
        st, h := ParseHeader(rxhdr, rxhdrLen);
        assert buf[0..] == buf;
        return PARSE_OK, 0, h;
      }
      st, off, h := RecvHeader(buf);
      if st == PARSE_ERROR {
        SetError();
      }
    }

    /** Payload bytes into the scratch area behind the collected message. */
    method StagePayload(buf: seq<byte>, start: nat, ghost s0: State) returns (complete: bool, off: nat)
      requires Owned() && Sized(Value()) && start <= |buf| && Valid(s0)
      requires hdrDone && got <= need && Staging(Value())
      requires (got < need ==> Valid(Value())) && (got == need ==> need == 0)
      requires RecvFrame(s0, buf) == AfterStaging(Value(), buf, start)
      modifies this, msg
      ensures start <= off <= |buf| && Owned() && Sized(Value()) && Staging(Value())
      ensures Hdr(Value()) == old(Hdr(Value()))
      ensures !complete ==> RecvFrame(s0, buf) == (Value(), off)
      ensures complete ==> RecvFrame(s0, buf) == (FinishFrame(Value()), off)
    {
      hide FinishFrame, Parse, RecvFrame;
      off := start;
      while got < need && off < |buf|
        invariant start <= off <= |buf| && Owned() && Sized(Value()) && hdrDone && got <= need && Staging(Value())
        invariant Hdr(Value()) == old(Hdr(Value()))
        invariant got < need ==> Valid(Value())
        invariant RecvFrame(s0, buf) == AfterStaging(Value(), buf, off)
        decreases |buf| - off
      {
        ghost var s := Value();
        msg[msgLen + got] := buf[off];
        got := got + 1;
        assert Value() == Stored(s, buf[off]);
        assert Hdr(Value()) == Hdr(s);
        RecvOnePayloadByte(s, buf, off);
        off := off + 1;
      }
      RecvNothing(Value(), buf, off);
      return got >= need, off;
    }

    /** The staging fields are reset and the complete frame is handled. */
    method HandleFrame(h: Header)
      requires Owned() && Sized(Value()) && Staging(Value()) && Parse(Hdr(Value())) == Parsed(h)
      modifies this, msg, utf8
      ensures Value() == FinishFrame(old(Value()))
    {
      rxhdrLen := 0;
      hdrDone := false;
      got := 0;
      ConsumeFrame(h);
    }

    /** At most one frame: header, payload, then the frame itself. */
    method RecvFrameBytes(buf: seq<byte>) returns (used: nat)
      requires Ok()
      modifies this, msg, rxhdr, utf8
      ensures Owned() && (Value(), used) == RecvFrame(old(Value()), buf)
    {
      ghost var s0 := Value();
      var st, off, h := EnsureHeader(buf);
      if st != PARSE_OK {
        return off;
      }
      var complete;
      complete, off := StagePayload(buf, off, s0);
      if complete {
        HandleFrame(h);
      }
      return off;
    }

    /** `ws_conn_recv`: the number of bytes consumed. */
    method Recv(buf: seq<byte>) returns (used: nat)
      requires Ok()
      modifies this, msg, rxhdr, utf8
      ensures Ok() && (Value(), used) == ConnSpec.Recv(old(Value()), buf)
    {
      if pending != EV_NONE || status == CLOSED {
        return 0;
      }
      RecvFrameValid(Value(), buf);
      used := RecvFrameBytes(buf);
    }

    /** `ws_conn_poll`. */
    method Poll() returns (kind: EventType, out: Event)
      requires Ok()
      modifies this
      ensures Ok() && Value() == ConnSpec.Poll(old(Value()))
      ensures kind == old(pending) && (kind != EV_NONE ==> out == old(ev))
    {
      out := NO_EVENT;
      if pending == EV_NONE {
        return EV_NONE, out;
      }
      out := ev;
      kind := pending;
      pending := EV_NONE;
    }

    // ----- Sending -----

    /** The payload behind a header of `hn` bytes, masked in place; 0 when it does not fit. */
    method FinishSend(out: array<byte>, outAddr: nat, cap: nat, hn: nat, data: array<byte>, at: nat, len: nat,
                       masked: bool, key: Key) returns (n: nat)
      requires at + len <= data.Length && cap <= out.Length && data != out
      modifies out
      ensures n == if hn == 0 || hn + len > cap then 0 else hn + len
      ensures n == 0 ==> out[..] == old(out[..])
      ensures n > 0 ==>
        var clear := data[at..at + len];
        out[..] == Splice(old(out[..]), hn, if masked then MaskSeq(clear, key) else clear)
    {
      hide MaskSeq;
      if hn == 0 || hn + len > cap {
        return 0;
      }
      ghost var before := out[..];
      Mem.MemCopy(out, hn, data, at, len);
      if masked {
        assert out[hn..hn + len] == data[at..at + len];
        MaskInPlace(out, hn, len, outAddr + hn, key);
      }
      return hn + len;
    }

    /** `build_frame`: 0 when there is no key or no room, else the wire form at the start of `out`. */
    method BuildFrame(opcode: byte, data: array<byte>, at: nat, len: nat, out: array<byte>, outAddr: nat, cap: nat,
                      rng: Option<Key>) returns (n: nat)
      requires at + len <= data.Length && len < TWO63 && cap <= out.Length && data != out
      modifies out
      ensures n <= cap && out[..n] == Built(role, rng, opcode, data[at..at + len], cap)
      ensures out[..] == Splice(old(out[..]), 0, Written(role, rng, opcode, data[at..at + len], cap))
    {
      hide MaskSeq, HeaderBytes, Printed, ValidHeader, SendHeader, Built, CanBuild, Written, Splice;
      ghost var clear := data[at..at + len];
      BuiltIs(role, rng, opcode, clear, cap);
      WrittenIs(role, rng, opcode, clear, cap);
      NothingWritten(out[..]);
      var masked := role == CLIENT;
      if masked && rng.None? {
        return 0;
      }
      var key := if masked then rng.value else NO_KEY;
      var hn := BuildHeader(out, cap, true, opcode, masked, key, len);
      n := FinishSend(out, outAddr, cap, hn, data, at, len, masked, key);
      if n > 0 {
        Assembled(old(out[..]), SentFrame(role, rng, opcode, clear));
        SpliceFront(old(out[..]), Wire(SentFrame(role, rng, opcode, clear)));
        assert out[..n] == out[..][..n];
      }
    }

    /** `ws_send_message`: refused once a Close has been sent. */
    method SendMessage(opcode: byte, data: array<byte>, at: nat, len: nat, out: array<byte>, outAddr: nat, cap: nat,
                       rng: Option<Key>) returns (n: nat)
      requires Ok() && at + len <= data.Length && len < TWO63 && cap <= out.Length && data != out
      requires out != msg && out != rxhdr
      modifies out
      ensures n <= cap && out[..n] == ConnSpec.SendMessage(old(Value()), rng, opcode, old(data[at..at + len]), cap)
      ensures var written := if closeSent then [] else Written(role, rng, opcode, old(data[at..at + len]), cap);
        out[..] == Splice(old(out[..]), 0, written)
      ensures Value() == old(Value())
    {
      NothingWritten(out[..]);
      if closeSent {
        return 0;
      }
      n := BuildFrame(opcode, data, at, len, out, outAddr, cap, rng);
    }

    /** `ws_send_ping`. */
    method SendPing(data: array<byte>, at: nat, len: nat, out: array<byte>, outAddr: nat, cap: nat, rng: Option<Key>)
      returns (n: nat)
      requires Ok() && at + len <= data.Length && len < TWO63 && cap <= out.Length && data != out
      requires out != msg && out != rxhdr
      modifies out
      ensures n <= cap && out[..n] == Built(role, rng, OP_PING, old(data[at..at + len]), cap)
      ensures n > 0 ==> out[0] == 0x89
      ensures out[..] == Splice(old(out[..]), 0, Written(role, rng, OP_PING, old(data[at..at + len]), cap))
      ensures Value() == old(Value())
    {
      hide Built, Written, Valid, Splice;
      if Built(role, rng, OP_PING, data[at..at + len], cap) != [] {
        FirstByteOut(role, rng, OP_PING, data[at..at + len], cap);
      }
      n := BuildFrame(OP_PING, data, at, len, out, outAddr, cap, rng);
      assert n > 0 ==> out[0] == out[..n][0];
    }

    /** `ws_send_pong`. */
    method SendPong(data: array<byte>, at: nat, len: nat, out: array<byte>, outAddr: nat, cap: nat, rng: Option<Key>)
      returns (n: nat)
      requires Ok() && at + len <= data.Length && len < TWO63 && cap <= out.Length && data != out
      requires out != msg && out != rxhdr
      modifies out
      ensures n <= cap && out[..n] == Built(role, rng, OP_PONG, old(data[at..at + len]), cap)
      ensures n > 0 ==> out[0] == 0x8A
      ensures out[..] == Splice(old(out[..]), 0, Written(role, rng, OP_PONG, old(data[at..at + len]), cap))
      ensures Value() == old(Value())
    {
      hide Built, Written, Valid, Splice;
      if Built(role, rng, OP_PONG, data[at..at + len], cap) != [] {
        FirstByteOut(role, rng, OP_PONG, data[at..at + len], cap);
      }
      n := BuildFrame(OP_PONG, data, at, len, out, outAddr, cap, rng);
      assert n > 0 ==> out[0] == out[..n][0];
    }

    method MarkCloseSent()
      modifies this
      ensures Value() == ConnSpec.MarkCloseSent(old(Value()))
    {
      closeSent := true;
      status := if status == CLOSING then CLOSED else CLOSING;
    }

    /** The two payload bytes of a Close, reserved codes replaced. */
    method CloseBytes(code: Code) returns (payload: array<byte>)
      ensures fresh(payload) && payload.Length == 2 && payload[..] == ClosePayload(code)
    {
      var c := SanitizeCode(code);
      payload := new byte[2];
      payload[0], payload[1] := c / 256, c % 256;
    }

    /** `ws_send_close`: at most once. */
    method SendClose(code: Code, out: array<byte>, outAddr: nat, cap: nat, rng: Option<Key>) returns (n: nat)
      requires Ok() && cap <= out.Length && out != msg && out != rxhdr
      modifies this, out
      ensures Ok()
      ensures n <= cap && (Value(), out[..n]) == ConnSpec.SendClose(old(Value()), rng, code, cap)
      ensures var written := if old(closeSent) then [] else Written(role, rng, OP_CLOSE, ClosePayload(code), cap);
        out[..] == Splice(old(out[..]), 0, written)
    {
      hide Built, Written, Valid, ClosePayload, ConnSpec.MarkCloseSent;
      OperationsValid(Value(), [], rng, code, cap);
      NothingWritten(out[..]);
      if closeSent {
        return 0;
      }
      var payload := CloseBytes(code);
      assert payload[0..2] == payload[..];
      n := BuildFrame(OP_CLOSE, payload, 0, 2, out, outAddr, cap, rng);
      if n != 0 {
        MarkCloseSent();
      }
    }
  }

  /** The first byte that a send puts out: FIN and the opcode. */
  lemma FirstByteOut(role: Role, rng: Option<Key>, opcode: byte, data: seq<byte>, cap: nat)
    requires |data| < TWO63 && Built(role, rng, opcode, data, cap) != []
    ensures Built(role, rng, opcode, data, cap)[0] == 0x80 + opcode % 16
  {
    hide LenField, MaskSeq;
  }

  lemma BuiltIs(role: Role, rng: Option<Key>, opcode: byte, data: seq<byte>, cap: nat)
    requires |data| < TWO63
    ensures role == CLIENT && rng.None? ==> Built(role, rng, opcode, data, cap) == []
    ensures role == CLIENT ==> rng.None? || BuiltAs(role, rng, opcode, data, cap)
    ensures role == SERVER ==> BuiltAs(role, rng, opcode, data, cap)
  {
  }

  /** What `Written` is in each case. */
  lemma WrittenIs(role: Role, rng: Option<Key>, opcode: byte, data: seq<byte>, cap: nat)
    requires |data| < TWO63
    ensures role == CLIENT && rng.None? ==> Written(role, rng, opcode, data, cap) == []
    ensures role == CLIENT ==> rng.None? || WrittenAs(role, rng, opcode, data, cap)
    ensures role == SERVER ==> WrittenAs(role, rng, opcode, data, cap)
  {
  }

  predicate WrittenAs(role: Role, rng: Option<Key>, opcode: byte, data: seq<byte>, cap: nat)
    requires |data| < TWO63 && (role == CLIENT ==> rng.Some?)
  {
    var f := SentFrame(role, rng, opcode, data);
    && ValidFrame(f)
    && Written(role, rng, opcode, data, cap) ==
         if f.h.headerLen + |data| <= cap then Wire(f) else if f.h.headerLen <= cap then HeaderBytes(f.h) else []
  }

  lemma NothingWritten(out: seq<byte>)
    ensures Splice(out, 0, []) == out
  {
  }

  lemma SpliceFront(out: seq<byte>, t: seq<byte>)
    requires |t| <= |out|
    ensures Splice(out, 0, t)[..|t|] == t
  {
  }

  /** With a key at hand, a send yields the wire form if it fits and nothing otherwise. */
  predicate BuiltAs(role: Role, rng: Option<Key>, opcode: byte, data: seq<byte>, cap: nat)
    requires |data| < TWO63 && (role == CLIENT ==> rng.Some?)
  {
    var f := SentFrame(role, rng, opcode, data);
    && ValidFrame(f) && f.h.headerLen >= 2
    && f.h == SendHeader(true, opcode, role == CLIENT, if role == CLIENT then rng.value else NO_KEY, |data|)
    && Built(role, rng, opcode, data, cap) == if f.h.headerLen + |data| <= cap then Wire(f) else []
  }

  /** Header first, payload behind it: the wire form of the frame. */
  lemma Assembled(before: seq<byte>, f: ConnSpec.Frame)
    requires ValidFrame(f) && |Wire(f)| <= |before|
    ensures Splice(Splice(before, 0, HeaderBytes(f.h)), f.h.headerLen, f.payload) == Splice(before, 0, Wire(f))
  {
    hide HeaderBytes, ValidHeader;
  }

  // ----- The loops as unfoldings of RecvFrame -----

  /** A result for a suffix of the input, counted from `off`. */
  function Shift(r: (State, nat), off: nat): (State, nat) {
    (r.0, off + r.1)
  }

  /** The end of the call when the header in `s` has just been decided. */
  function AfterHeader(s: State, buf: seq<byte>, off: nat): (State, nat)
    requires Valid(s) && !s.hdrDone && off <= |buf|
  {
    var (s1, ended) := HeaderStep(s);
    if ended then (s1, off)
    else
      HeaderStepValid(s);
      Shift(RecvFrame(s1, buf[off..]), off)
  }

  /** The end of the call in the payload phase. */
  ghost function AfterStaging(s: State, buf: seq<byte>, off: nat): (State, nat)
    requires Sized(s) && Staging(s) && off <= |buf| && (s.got < s.need ==> Valid(s))
  {
    if s.got >= s.need then (FinishFrame(s), off) else Shift(RecvFrame(s, buf[off..]), off)
  }

  lemma RecvUnfold(s: State, rest: seq<byte>)
    requires Valid(s) && !s.hdrDone && s.rxhdrLen < HDR_MAX && rest != []
    ensures Valid(PushHdr(s, rest[0]))
    ensures RecvFrame(s, rest) == Shift(AfterHeader(PushHdr(s, rest[0]), rest[1..], 0), 1)
  {
    hide HeaderStep, PayloadStep, Parse;
    assert rest[1..][0..] == rest[1..];
  }

  /** Where the header loop stands: the whole call equals what remains to be done from `s`. */
  ghost predicate HeaderRun(s0: State, buf: seq<byte>, s: State, off: nat, st: ParseStatus) {
    && Valid(s0) && Valid(s) && !s.hdrDone && off <= |buf|
    && RecvFrame(s0, buf) ==
         if st == PARSE_NEED_MORE then Shift(RecvFrame(s, buf[off..]), off) else AfterHeader(s, buf, off)
  }

  lemma HeaderRunStep(s0: State, buf: seq<byte>, s: State, off: nat)
    requires HeaderRun(s0, buf, s, off, PARSE_NEED_MORE) && off < |buf| && s.rxhdrLen < HDR_MAX
    ensures var p := PushHdr(s, buf[off]); HeaderRun(s0, buf, p, off + 1, Parse(Hdr(p)).Status())
  {
    hide RecvFrame, HeaderStep, Parse, AfterHeader;
    var rest := buf[off..];
    assert rest[0] == buf[off] && rest[1..] == buf[off + 1..];
    RecvUnfold(s, rest);
    var p := PushHdr(s, buf[off]);
    AfterHeaderShift(p, buf, off + 1);
  }

  lemma AfterHeaderShift(p: State, buf: seq<byte>, off: nat)
    requires Valid(p) && !p.hdrDone && off <= |buf|
    ensures AfterHeader(p, buf, off) == Shift(AfterHeader(p, buf[off..], 0), off)
    ensures Parse(Hdr(p)).NeedMore? ==> AfterHeader(p, buf, off) == Shift(RecvFrame(p, buf[off..]), off)
  {
    hide Valid, RecvFrame, Parse, FinishFrame;
    assert buf[off..][0..] == buf[off..];
  }

  /** What the end of the header loop means for the call. */
  lemma HeaderDecided(s0: State, buf: seq<byte>, s: State, off: nat, st: ParseStatus)
    requires HeaderRun(s0, buf, s, off, st)
    requires st == PARSE_NEED_MORE ==> off == |buf| || s.rxhdrLen == HDR_MAX
    requires st != PARSE_NEED_MORE ==> st == Parse(Hdr(s)).Status()
    ensures Sized(s) && Valid(s)
    ensures st == PARSE_NEED_MORE ==> RecvFrame(s0, buf) == (s, off)
    ensures st == PARSE_ERROR ==> RecvFrame(s0, buf) == (ConnSpec.SetError(s), off)
    ensures st == PARSE_OK ==>
      var h := Parse(Hdr(s)).h;
      if !Fits(s, h) then RecvFrame(s0, buf) == (ConnSpec.SetError(s), off)
      else
        var s1 := s.(hdrDone := true, got := 0, need := h.payloadLen);
        && Sized(s1) && Hdr(s1) == Hdr(s) && Staging(s1) && (s1.need > 0 ==> Valid(s1))
        && RecvFrame(s0, buf) == AfterStaging(s1, buf, off)
  {
    hide FinishFrame, RecvFrame, HeaderStep, Parse, Utf8.Reachable, EventOk;
    if st == PARSE_NEED_MORE {
      NothingTaken(s, buf[off..]);
    } else {
      AfterDecision(s, buf, off);
    }
  }

  lemma NothingTaken(s: State, rest: seq<byte>)
    requires Valid(s) && (rest == [] || !CanTake(s))
    ensures RecvFrame(s, rest) == (s, 0)
  {
  }

  /** What a decided header leads to. */
  lemma AfterDecision(s: State, buf: seq<byte>, off: nat)
    requires Valid(s) && !s.hdrDone && off <= |buf| && !Parse(Hdr(s)).NeedMore?
    ensures Parse(Hdr(s)).Bad? ==> AfterHeader(s, buf, off) == (ConnSpec.SetError(s), off)
    ensures Parse(Hdr(s)).Parsed? ==>
      var h := Parse(Hdr(s)).h;
      if !Fits(s, h) then AfterHeader(s, buf, off) == (ConnSpec.SetError(s), off)
      else
        var s1 := s.(hdrDone := true, got := 0, need := h.payloadLen);
        && Sized(s1) && Hdr(s1) == Hdr(s) && Staging(s1) && (s1.need > 0 ==> Valid(s1))
        && AfterHeader(s, buf, off) == AfterStaging(s1, buf, off)
  {
    hide FinishFrame, RecvFrame, Parse, Utf8.Reachable;
    if Parse(Hdr(s)).Parsed? {
      assert Hdr(s.(hdrDone := true, got := 0, need := Parse(Hdr(s)).h.payloadLen)) == Hdr(s);
    }
  }

  lemma RecvNothing(s: State, buf: seq<byte>, off: nat)
    requires Sized(s) && Staging(s) && off <= |buf| && (s.got < s.need ==> Valid(s))
    ensures s.got < s.need && off == |buf| ==> AfterStaging(s, buf, off) == (s, off)
    ensures s.got >= s.need ==> AfterStaging(s, buf, off) == (FinishFrame(s), off)
  {
  }

  lemma RecvOnePayloadByte(s: State, buf: seq<byte>, off: nat)
    requires Valid(s) && s.hdrDone && off < |buf|
    ensures var s1 := Stored(s, buf[off]);
      && Sized(s1) && Staging(s1) && (s1.got < s1.need ==> Valid(s1))
      && AfterStaging(s, buf, off) == AfterStaging(s1, buf, off + 1)
  {
    assert buf[off..][1..] == buf[off + 1..];
    assert buf[off..][0] == buf[off];
    var s1 := Stored(s, buf[off]);
    assert Hdr(s1) == Hdr(s);
  }
}
