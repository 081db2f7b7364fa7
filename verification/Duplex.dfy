/**
 * Two endpoints joined by two FIFO byte channels, under any interleaving and any chunking: no
 * protocol error, the closing handshake, and in-order delivery (sections 5.5.1 and 7.1.4 of RFC 6455).
 */
module Duplex {
  import opened Bytes
  import opened Mask
  import opened FrameHeader
  import opened ConnSpec
  import opened Session
  import opened Stream
  import opened Sending
  import opened History
  import Utf8

  // ----- The system -----

  /** An endpoint, the bytes on their way to it, and what it has sent and seen so far. */
  datatype Side = Side(s: State, inbox: seq<byte>, sent: seq<Frame>, seen: seq<Delivery>)

  datatype System = System(client: Side, server: Side)

  datatype Act =
    | DoReceive(n: nat)
    | DoPoll
    | DoMessage(rng: Option<Key>, opcode: byte, data: seq<byte>, cap: nat)
    | DoPing(rng: Option<Key>, data: seq<byte>, cap: nat)
    | DoPong(rng: Option<Key>, data: seq<byte>, cap: nat)
    | DoClose(rng: Option<Key>, code: Code, cap: nat)

  /** What an application may ask for when payloads are limited to `limit` bytes. */
  ghost predicate Proper(limit: nat, act: Act) {
    match act
    case DoReceive(_) => true
    case DoPoll => true
    case DoMessage(_, opcode, data, _) =>
      |data| <= limit && (opcode == OP_BINARY || (opcode == OP_TEXT && Utf8.WellFormed(data)))
    case DoPing(_, data, _) => |data| <= limit && |data| <= 125
    case DoPong(_, data, _) => |data| <= limit && |data| <= 125
    case DoClose(_, _, _) => limit >= 2
  }

  /** A built frame is logged and put on the channel; a send that returns 0 does neither. */
  function Post(x: Side, y: Side, ok: bool, s1: State, f: Frame): (Side, Side)
    requires ok ==> ValidFrame(f)
  {
    if ok then (x.(s := s1, sent := x.sent + [f]), y.(inbox := y.inbox + Wire(f))) else (x, y)
  }

  lemma SentValid(role: Role, rng: Option<Key>, opcode: byte, data: seq<byte>)
    requires (role == CLIENT ==> rng.Some?) && |data| < TWO63
    ensures ValidFrame(SentFrame(role, rng, opcode, data))
  {
    SentIs(role, rng, opcode, data);
  }

  function PostFrame(x: Side, y: Side, refused: bool, s1: State, rng: Option<Key>, opcode: byte, data: seq<byte>,
                     cap: nat): (Side, Side)
    requires |data| < TWO63
  {
    if refused || !CanBuild(x.s.role, rng, |data|, cap) then (x, y)
    else
      SentValid(x.s.role, rng, opcode, data);
      Post(x, y, true, s1, SentFrame(x.s.role, rng, opcode, data))
  }

  /** One call by `x`, whose peer is `y`; a receive hands over the first n bytes of the channel. */
  function Move(x: Side, y: Side, act: Act): (Side, Side)
    requires Valid(x.s)
    requires act.DoMessage? || act.DoPing? || act.DoPong? ==> |act.data| < TWO63
  {
    match act
    case DoReceive(n) =>
      var (s1, used) := Recv(x.s, x.inbox[..if n <= |x.inbox| then n else |x.inbox|]);
      (x.(s := s1, inbox := x.inbox[used..]), y)
    case DoPoll => (x.(s := Poll(x.s), seen := x.seen + Drained(x.s)), y)
    case DoMessage(rng, opcode, data, cap) => PostFrame(x, y, x.s.closeSent, x.s, rng, opcode, data, cap)
    case DoPing(rng, data, cap) => PostFrame(x, y, false, x.s, rng, OP_PING, data, cap)
    case DoPong(rng, data, cap) => PostFrame(x, y, false, x.s, rng, OP_PONG, data, cap)
    case DoClose(rng, code, cap) =>
      PostFrame(x, y, x.s.closeSent, MarkCloseSent(x.s), rng, OP_CLOSE, ClosePayload(code), cap)
  }

  /** The log agrees with the bytes and the state of the sends themselves. */
  lemma MoveIsSend(x: Side, y: Side, act: Act)
    requires Valid(x.s)
    requires act.DoMessage? || act.DoPing? || act.DoPong? ==> |act.data| < TWO63
    ensures var (x1, y1) := Move(x, y, act);
      match act
      case DoReceive(_) => y1 == y
      case DoPoll => y1 == y
      case DoMessage(rng, opcode, data, cap) =>
        x1.s == x.s && y1.inbox == y.inbox + SendMessage(x.s, rng, opcode, data, cap)
      case DoPing(rng, data, cap) => x1.s == x.s && y1.inbox == y.inbox + Built(x.s.role, rng, OP_PING, data, cap)
      case DoPong(rng, data, cap) => x1.s == x.s && y1.inbox == y.inbox + Built(x.s.role, rng, OP_PONG, data, cap)
      case DoClose(rng, code, cap) =>
        x1.s == SendClose(x.s, rng, code, cap).0 && y1.inbox == y.inbox + SendClose(x.s, rng, code, cap).1
  {
    assert y.inbox + [] == y.inbox;
  }

  // ----- What has been sent -----

  predicate IsClose(f: Frame) {
    f.h.opcode == OP_CLOSE
  }

  /** A frame that a proper send builds. */
  ghost predicate ProperFrame(sender: Role, limit: nat, f: Frame) {
    && ValidFrame(f) && |f.payload| <= limit
    && f.h.fin && !f.h.rsv1 && !f.h.rsv2 && !f.h.rsv3 && f.h.masked == (sender == CLIENT)
    && f.h.opcode in {OP_TEXT, OP_BINARY, OP_CLOSE, OP_PING, OP_PONG}
    && GoodData(f.h.opcode, Clear(f))
  }

  predicate HasClose(fs: seq<Frame>) {
    exists i :: 0 <= i < |fs| && IsClose(fs[i])
  }

  /** After a Close only pings and pongs are sent. */
  predicate CloseEndsData(fs: seq<Frame>) {
    forall i, j :: 0 <= i < j < |fs| && IsClose(fs[i]) ==> fs[j].h.opcode in {OP_PING, OP_PONG}
  }

  function EventOf(f: Frame): Delivery {
    EventFor(f.h.opcode, Clear(f))
  }

  function EventsOf(fs: seq<Frame>): seq<Delivery> {
    if fs == [] then [] else EventsOf(fs[..|fs| - 1]) + [EventOf(fs[|fs| - 1])]
  }

  /** The events of the control frames alone. */
  function ControlsOf(fs: seq<Frame>): seq<Delivery> {
    if fs == [] then []
    else
      var f := fs[|fs| - 1];
      ControlsOf(fs[..|fs| - 1]) + (if IsControl(f.h.opcode) then [EventOf(f)] else [])
  }

  // ----- The invariant -----

  function HandshakeStatus(closeSent: bool, closeReceived: bool): Status {
    if closeSent && closeReceived then CLOSED else if closeSent || closeReceived then CLOSING else OPEN
  }

  /** Between messages, with at most one limit's worth of bytes charged against the capacity. */
  predicate Idle(s: State, limit: nat) {
    !s.inMessage && s.msgLen <= limit
  }

  /** A log of proper frames. */
  ghost predicate ProperLog(role: Role, limit: nat, fs: seq<Frame>) {
    && (forall i :: 0 <= i < |fs| ==> ProperFrame(role, limit, fs[i]))
    && CloseEndsData(fs)
  }

  /** What one endpoint keeps on its own. */
  ghost predicate Local(x: Side, limit: nat) {
    && Sound(x.s) && 2 * limit <= |x.s.msg|
    && (x.s.status != CLOSED ==> Idle(x.s, limit))
    && ProperLog(x.s.role, limit, x.sent)
    && (x.s.closeSent <==> HasClose(x.sent))
  }

  /**
   * The channel from `y` to `x`: the first k frames have been handled, those up to m in full, later
   * ones without data; the rest is staged or under way.
   */
  ghost predicate LinkAt(x: Side, y: Side, m: nat, k: nat)
    requires Valid(x.s) && forall i :: 0 <= i < |y.sent| ==> ValidFrame(y.sent[i])
  {
    && m <= k <= |y.sent|
    && (x.s.status != CLOSED ==> Staged(x.s) + x.inbox == Wires(y.sent[k..]))
    && x.seen + Drained(x.s) == Handled(y.sent, m, k)
    && (!x.s.closeSent ==> m == k)
    && x.s.status == HandshakeStatus(x.s.closeSent, HasClose(y.sent[..k]))
  }

  ghost predicate Link(x: Side, y: Side)
    requires Valid(x.s) && forall i :: 0 <= i < |y.sent| ==> ValidFrame(y.sent[i])
  {
    exists m: nat, k: nat :: LinkAt(x, y, m, k)
  }

  ghost predicate Pair(x: Side, y: Side, limit: nat) {
    && Local(x, limit) && Local(y, limit)
    && y.s.role == Peer(x.s.role)
    && Link(x, y) && Link(y, x)
  }

  // ----- Receiving -----

  /** A proper frame has the event it should, and leaves the receiver between messages. */
  lemma ProperStep(c: Core, f: Frame, limit: nat)
    requires ProperFrame(Peer(c.role), limit, f) && |c.acc| <= limit && 2 * limit <= c.cap
    requires c.status != CLOSED && !c.inMessage
    ensures var (c1, es) := Step(c, f);
      && !c1.inMessage && |c1.acc| <= limit && c1.cap == c.cap && c1.role == c.role
      && c1.status == (if !IsClose(f) then c.status else if c.status == OPEN then CLOSING else CLOSED)
      && es == (if c.status == OPEN || IsControl(f.h.opcode) then [EventOf(f)] else [])
  {
    assert [] + Clear(f) == Clear(f);
  }

  /** The bytes of the frame under way are a prefix of the next frame on the channel. */
  lemma StagedPrefix(s: State, b: byte, rest: seq<byte>, f: Frame, more: seq<byte>)
    requires Sound(s) && s.status != CLOSED && ValidFrame(f)
    requires Staged(s) + ([b] + rest) == Wire(f) + more
    ensures Staged(s) + [b] <= Wire(f)
  {
    var x, w := Staged(s), Wire(f);
    var all := x + ([b] + rest);
    if |x| >= |w| {
      StagedIncomplete(s);
      assert x == w + x[|w|..] by {
        assert x == all[..|x|];
        assert w == all[..|w|];
      }
      HeadFrameOf(f, x[|w|..]);
      assert false;
    }
    assert x + [b] == all[..|x| + 1] && w == all[..|w|];
  }

  /** A part of a frame that fits is neither complete nor refused. */
  lemma PartOfFrame(c: Core, f: Frame, x: seq<byte>)
    requires ValidFrame(f) && x <= Wire(f) && |c.acc| + |f.payload| <= c.cap
    ensures !HeaderRefused(c, x)
    ensures HeadFrame(x) == if x == Wire(f) then Some(f) else None
  {
    if |x| < f.h.headerLen {
      assert x == HeaderBytes(f.h)[..|x|];
      ParsePrefix(f.h, x);
    } else if x == Wire(f) {
      HeadFrameOf(f, []);
      assert x + [] == x;
    } else {
      var more := x[f.h.headerLen..];
      assert x == HeaderBytes(f.h) + more;
      ParseComplete(f.h, more);
    }
  }

  /** The state after a byte of the proper frame `f`. */
  ghost predicate Took(s: State, b: byte, f: Frame, limit: nat, t: State, ended: bool)
    requires Valid(s) && ValidFrame(f)
  {
    && Sound(t) && Forward(s, t)
    && (t.status != CLOSED ==> Idle(t, limit))
    && ended == (Staged(s) + [b] == Wire(f))
    && (if !ended then t.status == s.status && Staged(t) == Staged(s) + [b] && Drained(t) == []
        else
          && t.status == (if !IsClose(f) then s.status else if s.status == OPEN then CLOSING else CLOSED)
          && (t.status != CLOSED ==> Staged(t) == [])
          && Drained(t) == (if s.status == OPEN || IsControl(f.h.opcode) then [EventOf(f)] else []))
  }

  /** What one byte of the next frame does. */
  lemma NextByte(s: State, b: byte, f: Frame, limit: nat)
    requires Sound(s) && s.status != CLOSED && s.pending == EV_NONE && CanTake(s)
    requires Idle(s, limit) && 2 * limit <= |s.msg|
    requires ProperFrame(Peer(s.role), limit, f) && Staged(s) + [b] <= Wire(f)
    ensures Took(s, b, f, limit, TakeByte(s, b).0, TakeByte(s, b).1)
  {
    hide TakeByte, Parse, HeaderSound, TextSound, GoodData, Clear, HeadFrame, HeaderRefused, Step, CloseCodeOf,
      Utf8.Reachable;
    var c, x := CoreOf(s), Staged(s) + [b];
    ByteRefines(s, b);
    ByteForward(s, b);
    PartOfFrame(c, f, x);
    ProperStep(c, f, limit);
  }

  // ----- The logs -----

  lemma EventsSnoc(fs: seq<Frame>, f: Frame)
    ensures EventsOf(fs + [f]) == EventsOf(fs) + [EventOf(f)]
    ensures ControlsOf(fs + [f]) == ControlsOf(fs) + (if IsControl(f.h.opcode) then [EventOf(f)] else [])
  {
    assert (fs + [f])[..|fs|] == fs;
  }

  lemma HasCloseSnoc(fs: seq<Frame>, f: Frame)
    ensures HasClose(fs + [f]) <==> HasClose(fs) || IsClose(f)
  {
    var all := fs + [f];
    if HasClose(fs) {
      var i :| 0 <= i < |fs| && IsClose(fs[i]);
      assert IsClose(all[i]);
    }
    if IsClose(f) {
      assert IsClose(all[|fs|]);
    }
    if HasClose(all) && !IsClose(f) {
      var i :| 0 <= i < |all| && IsClose(all[i]);
      assert IsClose(fs[i]);
    }
  }

  /** The events reported so far, when the frames up to m were handled in full and up to k in part. */
  function Handled(fs: seq<Frame>, m: nat, k: nat): seq<Delivery>
    requires m <= k <= |fs|
  {
    EventsOf(fs[..m]) + ControlsOf(fs[m..k])
  }

  lemma HandledPart(fs: seq<Frame>, m: nat, k: nat)
    requires m <= k < |fs|
    ensures Handled(fs, m, k + 1) == Handled(fs, m, k) + (if IsControl(fs[k].h.opcode) then [EventOf(fs[k])] else [])
  {
    assert fs[m..k + 1] == fs[m..k] + [fs[k]];
    EventsSnoc(fs[m..k], fs[k]);
  }

  lemma HandledFull(fs: seq<Frame>, k: nat)
    requires k < |fs|
    ensures Handled(fs, k + 1, k + 1) == Handled(fs, k, k) + [EventOf(fs[k])]
  {
    assert fs[..k + 1] == fs[..k] + [fs[k]];
    EventsSnoc(fs[..k], fs[k]);
    assert fs[k..k] == [] && fs[k + 1..k + 1] == [];
  }

  // ----- Moves keep the invariant -----

  lemma StatusAfter(fs: seq<Frame>, k: nat, closeSent: bool, st: Status)
    requires CloseEndsData(fs) && k < |fs|
    requires st == HandshakeStatus(closeSent, HasClose(fs[..k])) && st != CLOSED
    ensures (if !IsClose(fs[k]) then st else if st == OPEN then CLOSING else CLOSED)
         == HandshakeStatus(closeSent, HasClose(fs[..k + 1]))
    ensures HasClose(fs[..k]) ==> fs[k].h.opcode in {OP_PING, OP_PONG}
  {
    assert fs[..k + 1] == fs[..k] + [fs[k]];
    HasCloseSnoc(fs[..k], fs[k]);
    if HasClose(fs[..k]) {
      var i :| 0 <= i < k && IsClose(fs[..k][i]);
      assert IsClose(fs[i]);
    }
  }

  /** In OPEN, or without data after the peer's Close, the frame is handled in full. */
  lemma EventsAfter(fs: seq<Frame>, m: nat, k: nat, closeSent: bool, st: Status, before: seq<Delivery>)
    requires CloseEndsData(fs) && m <= k < |fs|
    requires st == HandshakeStatus(closeSent, HasClose(fs[..k])) && st != CLOSED
    requires before == Handled(fs, m, k) && (!closeSent ==> m == k)
    ensures before + (if st == OPEN || IsControl(fs[k].h.opcode) then [EventOf(fs[k])] else [])
         == if closeSent then Handled(fs, m, k + 1) else Handled(fs, k + 1, k + 1)
  {
    hide HasClose, Handled, EventOf, CloseEndsData;
    StatusAfter(fs, k, closeSent, st);
    if closeSent {
      HandledPart(fs, m, k);
    } else {
      HandledFull(fs, k);
    }
  }

  /** A whole frame has been handled: which m and k the link has now. */
  lemma FrameDone(x: Side, y: Side, m: nat, k: nat, rest: seq<byte>, t: State)
    requires Valid(x.s) && (forall i :: 0 <= i < |y.sent| ==> ValidFrame(y.sent[i])) && CloseEndsData(y.sent)
    requires LinkAt(x, y, m, k) && k < |y.sent| && x.s.status != CLOSED && x.s.pending == EV_NONE
    requires Valid(t) && t.closeSent == x.s.closeSent
    requires t.status == (if !IsClose(y.sent[k]) then x.s.status else if x.s.status == OPEN then CLOSING else CLOSED)
    requires t.status != CLOSED ==> Staged(t) == []
    requires Drained(t) == (if x.s.status == OPEN || IsControl(y.sent[k].h.opcode) then [EventOf(y.sent[k])] else [])
    requires rest == Wires(y.sent[k + 1..])
    ensures Link(x.(s := t, inbox := rest), y)
  {
    hide Staged, Handled, HasClose, CloseEndsData, Wires, ValidFrame, EventOf, Valid;
    var x1 := x.(s := t, inbox := rest);
    assert x.seen + [] == x.seen;
    StatusAfter(y.sent, k, x.s.closeSent, x.s.status);
    EventsAfter(y.sent, m, k, x.s.closeSent, x.s.status, x.seen);
    assert t.status != CLOSED ==> Staged(t) + rest == rest;
    assert LinkAt(x1, y, if x.s.closeSent then m else k + 1, k + 1);
  }

  /** The next frame on a channel that is not empty. */
  lemma NextFrame(x: Side, y: Side, limit: nat, m: nat, k: nat)
    requires Local(x, limit) && ProperLog(Peer(x.s.role), limit, y.sent)
    requires LinkAt(x, y, m, k) && x.s.status != CLOSED && x.inbox != []
    ensures k < |y.sent|
    ensures Staged(x.s) + ([x.inbox[0]] + x.inbox[1..]) == Wire(y.sent[k]) + Wires(y.sent[k + 1..])
    ensures Staged(x.s) + [x.inbox[0]] <= Wire(y.sent[k])
  {
    var fs := y.sent[k..];
    assert [x.inbox[0]] + x.inbox[1..] == x.inbox;
    assert fs != [];
    assert fs[1..] == y.sent[k + 1..];
    StagedPrefix(x.s, x.inbox[0], x.inbox[1..], y.sent[k], Wires(y.sent[k + 1..]));
  }

  /** A byte inside a frame moves from the channel to the staged bytes. */
  lemma FrameGrows(x: Side, y: Side, m: nat, k: nat, b: byte, rest: seq<byte>, t: State)
    requires Valid(x.s) && forall i :: 0 <= i < |y.sent| ==> ValidFrame(y.sent[i])
    requires LinkAt(x, y, m, k) && x.s.status != CLOSED && x.s.pending == EV_NONE && x.inbox == [b] + rest
    requires Valid(t) && t.closeSent == x.s.closeSent && t.status == x.s.status
    requires Staged(t) == Staged(x.s) + [b] && Drained(t) == []
    ensures Link(x.(s := t, inbox := rest), y)
  {
    hide Staged, Handled, HasClose, Wires, Parse;
    assert Staged(x.s) + ([b] + rest) == (Staged(x.s) + [b]) + rest;
    assert LinkAt(x.(s := t, inbox := rest), y, m, k);
  }

  /** One byte from the channel. */
  lemma ByteMove(x: Side, y: Side, limit: nat, m: nat, k: nat)
    requires Local(x, limit) && ProperLog(Peer(x.s.role), limit, y.sent)
    requires LinkAt(x, y, m, k) && x.s.status != CLOSED && x.s.pending == EV_NONE && x.inbox != [] && CanTake(x.s)
    ensures var x1 := x.(s := TakeByte(x.s, x.inbox[0]).0, inbox := x.inbox[1..]);
      Local(x1, limit) && Link(x1, y) && Forward(x.s, x1.s)
  {
    NextFrame(x, y, limit, m, k);
    var b, rest, f := x.inbox[0], x.inbox[1..], y.sent[k];
    NextByte(x.s, b, f, limit);
    var (t, ended) := TakeByte(x.s, b);
    if ended {
      AfterWhole(Staged(x.s), b, rest, Wire(f), Wires(y.sent[k + 1..]));
      FrameDone(x, y, m, k, rest, t);
    } else {
      FrameGrows(x, y, m, k, b, rest, t);
    }
  }

  lemma AfterWhole(x: seq<byte>, b: byte, rest: seq<byte>, w: seq<byte>, more: seq<byte>)
    requires x + ([b] + rest) == w + more && x + [b] == w
    ensures rest == more
  {
    assert x + ([b] + rest) == (x + [b]) + rest;
    assert (w + rest)[|w|..] == rest && (w + more)[|w|..] == more;
  }

  /** The rest of a receive call after its first byte. */
  lemma RecvRest(s: State, input: seq<byte>, n: nat)
    requires Valid(s) && CanTake(s) && 0 < n <= |input|
    ensures Valid(TakeByte(s, input[0]).0)
    ensures var (t, ended) := TakeByte(s, input[0]);
      RecvFrame(s, input[..n]) ==
        if ended then (t, 1)
        else (RecvFrame(t, input[1..][..n - 1]).0, RecvFrame(t, input[1..][..n - 1]).1 + 1)
  {
    hide TakeByte, Parse;
    TakeByteValid(s, input[0]);
    assert input[..n][0] == input[0] && input[..n][1..] == input[1..][..n - 1];
  }

  /** The outcome of a receive call is consistent with the channel it was fed from. */
  ghost predicate Received(x: Side, y: Side, limit: nat, r: (State, nat))
    requires forall i :: 0 <= i < |y.sent| ==> ValidFrame(y.sent[i])
  {
    && r.1 <= |x.inbox| && Local(x.(s := r.0, inbox := x.inbox[r.1..]), limit)
    && Link(x.(s := r.0, inbox := x.inbox[r.1..]), y)
  }

  lemma ReceivedLater(x: Side, y: Side, limit: nat, t: State, r: (State, nat))
    requires forall i :: 0 <= i < |y.sent| ==> ValidFrame(y.sent[i])
    requires x.inbox != [] && Received(x.(s := t, inbox := x.inbox[1..]), y, limit, r)
    ensures Received(x, y, limit, (r.0, r.1 + 1))
  {
    assert x.inbox[1..][r.1..] == x.inbox[r.1 + 1..];
  }

  lemma {:induction false} BytesMove(x: Side, y: Side, limit: nat, n: nat)
    requires Local(x, limit) && ProperLog(Peer(x.s.role), limit, y.sent)
    requires Link(x, y) && x.s.status != CLOSED && x.s.pending == EV_NONE && n <= |x.inbox|
    ensures Received(x, y, limit, RecvFrame(x.s, x.inbox[..n]))
    decreases n
  {
    hide TakeByte, HeaderSound, TextSound, LinkAt, Staged, Parse, GoodData, Clear;
    if n == 0 {
      assert x.inbox[..0] == [] && x.inbox[0..] == x.inbox;
    } else {
      SoundTakes(x.s);
      var m: nat, k: nat :| LinkAt(x, y, m, k);
      ByteMove(x, y, limit, m, k);
      ByteForward(x.s, x.inbox[0]);
      RecvRest(x.s, x.inbox, n);
      var (t, ended) := TakeByte(x.s, x.inbox[0]);
      if !ended {
        BytesMove(x.(s := t, inbox := x.inbox[1..]), y, limit, n - 1);
        ReceivedLater(x, y, limit, t, RecvFrame(t, x.inbox[1..][..n - 1]));
      }
    }
  }

  lemma ReceiveKeeps(x: Side, y: Side, limit: nat, n: nat)
    requires Pair(x, y, limit)
    ensures var (x1, y1) := Move(x, y, DoReceive(n)); Pair(x1, y1, limit)
  {
    hide RecvFrame, Parse, HeaderSound, TextSound, Link, CloseEndsData, HasClose, ValidFrame, Utf8.Reachable;
    var len := if n <= |x.inbox| then n else |x.inbox|;
    if Blocked(x.s) {
      assert x.inbox[0..] == x.inbox;
    } else {
      BytesMove(x, y, limit, len);
      RecvFrameSteps(x.s, x.inbox[..len]);
      LinkSentOnly(y, x, Move(x, y, DoReceive(n)).0);
    }
  }

  /** A link only looks at what its sender has sent. */
  lemma LinkSentOnly(y: Side, x: Side, x1: Side)
    requires Valid(y.s) && (forall i :: 0 <= i < |x.sent| ==> ValidFrame(x.sent[i])) && Link(y, x) && x1.sent == x.sent
    ensures Link(y, x1)
  {
    var m: nat, k: nat :| LinkAt(y, x, m, k);
    assert LinkAt(y, x1, m, k);
  }

  lemma PollKeepsPair(x: Side, y: Side, limit: nat)
    requires Pair(x, y, limit)
    ensures var (x1, y1) := Move(x, y, DoPoll); Pair(x1, y1, limit)
  {
    hide Staged, Handled, HasClose, Wires, HeaderSound, TextSound, Parse, GoodData, Clear;
    var x1 := Move(x, y, DoPoll).0;
    PollKeeps(x.s);
    var m: nat, k: nat :| LinkAt(x, y, m, k);
    assert x1.seen + [] == x1.seen;
    assert LinkAt(x1, y, m, k);
    LinkSentOnly(y, x, x1);
  }

  lemma Slices(fs: seq<Frame>, f: Frame, m: nat, k: nat)
    requires m <= k <= |fs|
    ensures var all := fs + [f];
      && all[k..] == fs[k..] + [f] && all[..m] == fs[..m] && all[m..k] == fs[m..k] && all[..k] == fs[..k]
      && Handled(all, m, k) == Handled(fs, m, k)
  {
  }

  /** A frame is added to the log of `x` and to the channel towards `y`. */
  lemma PostLink(x: Side, y: Side, f: Frame)
    requires Valid(y.s) && (forall i :: 0 <= i < |x.sent| ==> ValidFrame(x.sent[i])) && ValidFrame(f) && Link(y, x)
    ensures Link(y.(inbox := y.inbox + Wire(f)), x.(sent := x.sent + [f]))
  {
    hide Valid, Staged, Drained, Handled, HasClose, Wires, Wire, ValidFrame;
    var m: nat, k: nat :| LinkAt(y, x, m, k);
    Slices(x.sent, f, m, k);
    WiresSnoc(x.sent[k..], f);
    var w := Wire(f);
    assert Staged(y.s) + (y.inbox + w) == (Staged(y.s) + y.inbox) + w;
    assert LinkAt(y.(inbox := y.inbox + w), x.(sent := x.sent + [f]), m, k);
  }

  lemma LogSnoc(role: Role, limit: nat, fs: seq<Frame>, f: Frame)
    requires ProperLog(role, limit, fs) && ProperFrame(role, limit, f)
    requires HasClose(fs) ==> f.h.opcode in {OP_PING, OP_PONG}
    ensures ProperLog(role, limit, fs + [f])
    ensures HasClose(fs + [f]) <==> HasClose(fs) || IsClose(f)
  {
    HasCloseSnoc(fs, f);
    var all := fs + [f];
    forall i, j | 0 <= i < j < |all| && IsClose(all[i]) ensures all[j].h.opcode in {OP_PING, OP_PONG} {
      assert IsClose(fs[i]);
    }
  }

  /** A frame without effect on the sender's state: a message, a ping or a pong. */
  lemma DataPosted(x: Side, y: Side, limit: nat, f: Frame)
    requires Pair(x, y, limit) && ProperFrame(x.s.role, limit, f) && !IsClose(f)
    requires x.s.closeSent ==> f.h.opcode in {OP_PING, OP_PONG}
    ensures Pair(Post(x, y, true, x.s, f).0, Post(x, y, true, x.s, f).1, limit)
  {
    LogSnoc(x.s.role, limit, x.sent, f);
    PostLink(x, y, f);
    var x1, y1 := x.(sent := x.sent + [f]), y.(inbox := y.inbox + Wire(f));
    var m: nat, k: nat :| LinkAt(x, y, m, k);
    assert LinkAt(x1, y1, m, k);
  }

  lemma MarkedSound(s: State)
    requires Sound(s) && s.status != CLOSED
    ensures var s1 := MarkCloseSent(s);
      Sound(s1) && Staged(s1) == Staged(s) && Drained(s1) == Drained(s)
  {
    assert Hdr(MarkCloseSent(s)) == Hdr(s);
  }

  /** Sending a Close moves the handshake on and touches nothing else. */
  lemma MarkedLink(x: Side, y: Side, sent: seq<Frame>)
    requires Sound(x.s) && (forall i :: 0 <= i < |y.sent| ==> ValidFrame(y.sent[i])) && Link(x, y) && !x.s.closeSent
    ensures x.s.status != CLOSED && Sound(MarkCloseSent(x.s)) && Link(x.(s := MarkCloseSent(x.s), sent := sent), y)
  {
    var m: nat, k: nat :| LinkAt(x, y, m, k);
    MarkedSound(x.s);
    assert LinkAt(x.(s := MarkCloseSent(x.s), sent := sent), y, m, k);
  }

  lemma LinkInboxGrows(x: Side, y: Side, more: seq<byte>)
    requires Valid(x.s) && (forall i :: 0 <= i < |y.sent| ==> ValidFrame(y.sent[i])) && Link(x, y)
    ensures Link(x, y.(inbox := y.inbox + more))
  {
    var m: nat, k: nat :| LinkAt(x, y, m, k);
    assert LinkAt(x, y.(inbox := y.inbox + more), m, k);
  }

  lemma ClosePosted(x: Side, y: Side, limit: nat, f: Frame)
    requires Pair(x, y, limit) && ProperFrame(x.s.role, limit, f) && IsClose(f) && !x.s.closeSent
    ensures var (x1, y1) := Post(x, y, true, MarkCloseSent(x.s), f); Pair(x1, y1, limit)
  {
    hide LinkAt, Staged, HeaderSound, TextSound, Parse, CloseEndsData, HasClose, GoodData, Clear;
    LogSnoc(x.s.role, limit, x.sent, f);
    PostLink(x, y, f);
    var sent := x.sent + [f];
    MarkedLink(x, y, sent);
    var x1, y1 := x.(s := MarkCloseSent(x.s), sent := sent), y.(inbox := y.inbox + Wire(f));
    LinkInboxGrows(x1, y, Wire(f));
    LinkSentOnly(y1, x.(sent := sent), x1);
  }

  lemma SendProper(role: Role, limit: nat, rng: Option<Key>, opcode: byte, data: seq<byte>)
    requires (role == CLIENT ==> rng.Some?) && |data| <= limit < TWO63 && opcode < 16 && GoodData(opcode, data)
    ensures ProperFrame(role, limit, SentFrame(role, rng, opcode, data))
    ensures SentFrame(role, rng, opcode, data).h.opcode == opcode
  {
    SentIs(role, rng, opcode, data);
  }

  /** A message, a ping or a pong. */
  lemma DataMove(x: Side, y: Side, limit: nat, refused: bool, rng: Option<Key>, opcode: byte, data: seq<byte>, cap: nat)
    requires Pair(x, y, limit) && |data| <= limit < TWO63 && GoodData(opcode, data)
    requires opcode in {OP_TEXT, OP_BINARY, OP_PING, OP_PONG}
    requires x.s.closeSent && !refused ==> opcode in {OP_PING, OP_PONG}
    ensures var (x1, y1) := PostFrame(x, y, refused, x.s, rng, opcode, data, cap); Pair(x1, y1, limit)
  {
    hide Pair, GoodData, SentFrame, ProperFrame, Post;
    if !refused && CanBuild(x.s.role, rng, |data|, cap) {
      SendProper(x.s.role, limit, rng, opcode, data);
      DataPosted(x, y, limit, SentFrame(x.s.role, rng, opcode, data));
    }
  }

  lemma CloseMove(x: Side, y: Side, limit: nat, rng: Option<Key>, code: Code, cap: nat)
    requires Pair(x, y, limit) && 2 <= limit < TWO63
    ensures var (x1, y1) :=
        PostFrame(x, y, x.s.closeSent, MarkCloseSent(x.s), rng, OP_CLOSE, ClosePayload(code), cap);
      Pair(x1, y1, limit)
  {
    hide Pair, SentFrame, ProperFrame, Post, ClosePayload, MarkCloseSent;
    if !x.s.closeSent && CanBuild(x.s.role, rng, 2, cap) {
      SendProper(x.s.role, limit, rng, OP_CLOSE, ClosePayload(code));
      ClosePosted(x, y, limit, SentFrame(x.s.role, rng, OP_CLOSE, ClosePayload(code)));
    }
  }

  /** Every proper move keeps the invariant. */
  lemma MoveKeeps(x: Side, y: Side, limit: nat, act: Act)
    requires Pair(x, y, limit) && limit < TWO63 && Proper(limit, act)
    ensures Pair(Move(x, y, act).0, Move(x, y, act).1, limit)
  {
    hide Link, PostFrame, HeaderSound, TextSound, Parse, Recv, CloseEndsData, HasClose;
    match act
    case DoReceive(n) => ReceiveKeeps(x, y, limit, n);
    case DoPoll => PollKeepsPair(x, y, limit);
    case DoMessage(rng, opcode, data, cap) => DataMove(x, y, limit, x.s.closeSent, rng, opcode, data, cap);
    case DoPing(rng, data, cap) => DataMove(x, y, limit, false, rng, OP_PING, data, cap);
    case DoPong(rng, data, cap) => DataMove(x, y, limit, false, rng, OP_PONG, data, cap);
    case DoClose(rng, code, cap) => CloseMove(x, y, limit, rng, code, cap);
  }

  // ----- Runs -----

  datatype Turn = Turn(byClient: bool, act: Act)

  ghost predicate Consistent(sys: System, limit: nat) {
    Pair(sys.client, sys.server, limit)
  }

  lemma PairSymmetric(x: Side, y: Side, limit: nat)
    requires Pair(x, y, limit)
    ensures Pair(y, x, limit)
  {
  }

  ghost function Next(sys: System, limit: nat, turn: Turn): (r: System)
    requires Consistent(sys, limit) && limit < TWO63 && Proper(limit, turn.act)
    ensures Consistent(r, limit)
  {
    if turn.byClient then
      MoveKeeps(sys.client, sys.server, limit, turn.act);
      var (c, s) := Move(sys.client, sys.server, turn.act);
      System(c, s)
    else
      PairSymmetric(sys.client, sys.server, limit);
      MoveKeeps(sys.server, sys.client, limit, turn.act);
      var (s, c) := Move(sys.server, sys.client, turn.act);
      PairSymmetric(s, c, limit);
      System(c, s)
  }

  ghost function Run(sys: System, limit: nat, turns: seq<Turn>): (r: System)
    requires Consistent(sys, limit) && limit < TWO63
    requires forall i :: 0 <= i < |turns| ==> Proper(limit, turns[i].act)
    ensures Consistent(r, limit)
    decreases |turns|
  {
    if turns == [] then sys else Run(Next(sys, limit, turns[0]), limit, turns[1..])
  }

  function Start(clientMsg: seq<byte>, serverMsg: seq<byte>): System {
    System(Side(Init(CLIENT, clientMsg), [], [], []), Side(Init(SERVER, serverMsg), [], [], []))
  }

  lemma StartConsistent(clientMsg: seq<byte>, serverMsg: seq<byte>, limit: nat)
    requires 2 * limit <= |clientMsg| < TWO63 && 2 * limit <= |serverMsg| < TWO63
    ensures Consistent(Start(clientMsg, serverMsg), limit)
  {
    InitSound(CLIENT, clientMsg);
    InitSound(SERVER, serverMsg);
    var sys := Start(clientMsg, serverMsg);
    assert LinkAt(sys.client, sys.server, 0, 0);
    assert LinkAt(sys.server, sys.client, 0, 0);
  }
}
