/** The echo driver of src/sdk/server.c over one established connection, writes always succeeding. */
module Echo {
  import opened Bytes
  import opened FrameHeader
  import opened Mask
  import opened ConnSpec
  import opened Session
  import opened Stream
  import opened Sending
  import opened History
  import opened Duplex
  import opened Protocol
  import Utf8

  const MSGBUF: nat := 131072
  const TXBUF: nat := MSGBUF + 16

  /** `echo_close_code`: "no code" goes back as 1000. */
  function EchoCloseCode(code: Code): Code {
    if code == CLOSE_NO_STATUS then CLOSE_NORMAL else code
  }

  // ----- The driver as a function -----

  /** What the driver leaves: the connection, all bytes written so far, and whether it goes on. */
  datatype Driven = Driven(s: State, wire: seq<byte>, keep: bool)

  /** `handle_event`, for the event `ev` that has just been polled. */
  function Handle(s: State, wire: seq<byte>, ev: Event): Driven
    requires ev.kind in {EV_MESSAGE, EV_PING} ==> ev.off + ev.len <= |s.msg| < TWO63
  {
    if ev.kind == EV_MESSAGE then
      var out := SendMessage(s, None, ev.opcode, s.msg[ev.off..ev.off + ev.len], TXBUF);
      Driven(s, wire + out, out != [])
    else if ev.kind == EV_PING then
      var out := Built(s.role, None, OP_PONG, s.msg[ev.off..ev.off + ev.len], TXBUF);
      Driven(s, wire + out, out != [])
    else if ev.kind == EV_ERROR then
      var (s1, out) := SendClose(s, None, CLOSE_PROTOCOL, TXBUF);
      Driven(s1, wire + out, false)
    else if ev.kind == EV_CLOSE then
      var (s1, out) := SendClose(s, None, EchoCloseCode(ev.code), TXBUF);
      Driven(s1, wire + out, false)
    else Driven(s, wire, true)
  }

  /** `drain_events`. */
  function Drain(s: State, wire: seq<byte>): Driven
    requires Valid(s)
  {
    if s.pending == EV_NONE then Driven(s, wire, true) else Handle(Poll(s), wire, s.ev)
  }

  /** A server connection as the driver keeps it between reads. */
  predicate Serving(s: State) {
    Sound(s) && s.pending == EV_NONE && s.status == OPEN && s.role == SERVER && !s.closeSent && |s.msg| <= MSGBUF
  }

  // ----- What one frame's worth of input leaves behind -----

  /** A receive call on a serving connection makes progress and leaves it serving but for the event. */
  lemma ServeRecv(s: State, buf: seq<byte>)
    requires Serving(s) && buf != []
    ensures var (s1, n) := Recv(s, buf);
      && 0 < n <= |buf| && Sound(s1)
      && s1.role == SERVER && !s1.closeSent && |s1.msg| == |s.msg|
      && (s1.status != OPEN ==> s1.pending == EV_CLOSE || s1.pending == EV_ERROR)
  {
    SoundTakes(s);
    RecvIsFeed(s, buf);
    RecvFrameSound(s, buf);
    RecvFrameSteps(s, buf);
  }

  /** `feed_step`: the outcome for one slice, and how far it goes; a stalled connection is given up. */
  function Slice(s: State, wire: seq<byte>, input: seq<byte>): (r: (Driven, nat))
    requires Valid(s)
    ensures r.1 <= |input|
  {
    RecvFrameValid(s, input);
    var (s1, n) := Recv(s, input);
    var d := Drain(s1, wire);
    if !d.keep || (n == 0 && d.s.status != OPEN) then (d.(keep := false), 0) else (d, n)
  }

  /** Sound while OPEN: what every run keeps, reopenings included. */
  predicate Feedable(s: State) {
    Valid(s) && (s.status == OPEN ==> Sound(s))
  }

  /** When the loop goes on it has consumed input or handled an event. */
  lemma SliceFeeds(s: State, wire: seq<byte>, input: seq<byte>)
    requires Feedable(s) && input != [] && Slice(s, wire, input).0.keep
    ensures var (d, n) := Slice(s, wire, input);
      Feedable(d.s) && d.s.pending == EV_NONE && (n > 0 || s.pending != EV_NONE)
    ensures Sound(s) ==> Sound(Slice(s, wire, input).0.s)
  {
    hide HeaderSound, TextSound, RecvFrame, Built, SendMessage, ClosePayload, Parse;
    RecvFrameValid(s, input);
    if !Blocked(s) {
      RecvFrameSteps(s, input);
      if Sound(s) {
        Progress(s, input);
        RecvFrameSound(s, input);
      }
    }
    PollReady(Recv(s, input).0);
    if Sound(Recv(s, input).0) {
      PollKeeps(Recv(s, input).0);
    }
  }

  /** `feed_frames` over one read. */
  function FeedFrames(s: State, wire: seq<byte>, buf: seq<byte>): Driven
    requires Feedable(s)
    decreases |buf|, if s.pending == EV_NONE then 0 else 1
  {
    if buf == [] then Driven(s, wire, true)
    else
      var (d, n) := Slice(s, wire, buf);
      if !d.keep then d
      else
        SliceFeeds(s, wire, buf);
        FeedFrames(d.s, d.wire, buf[n..])
  }

  /** What was written before stays in front. */
  lemma HandleAppends(s: State, wire: seq<byte>, ev: Event)
    requires ev.kind in {EV_MESSAGE, EV_PING} ==> ev.off + ev.len <= |s.msg| < TWO63
    ensures wire <= Handle(s, wire, ev).wire
  {
    hide Built, SendMessage, SendClose;
  }

  lemma SliceAppends(s: State, wire: seq<byte>, input: seq<byte>)
    requires Valid(s)
    ensures wire <= Slice(s, wire, input).0.wire
  {
    hide Handle, RecvFrame;
    RecvFrameValid(s, input);
    var s1 := Recv(s, input).0;
    if s1.pending != EV_NONE {
      HandleAppends(Poll(s1), wire, s1.ev);
    }
  }

  lemma {:induction false} FeedAppends(s: State, wire: seq<byte>, buf: seq<byte>)
    requires Feedable(s)
    ensures wire <= FeedFrames(s, wire, buf).wire
    decreases |buf|, if s.pending == EV_NONE then 0 else 1
  {
    hide Feedable, Slice;
    if buf != [] {
      SliceIs(s);
      SliceAppends(s, wire, buf);
      var (d, n) := Slice(s, wire, buf);
      if d.keep {
        SliceFeeds(s, wire, buf);
        FeedAppends(d.s, d.wire, buf[n..]);
      }
    }
  }

  lemma SliceIs(s: State)
    requires Feedable(s)
    ensures Valid(s)
  {
  }

  /** When the driver goes on, nothing but the event is gone. */
  lemma DrainServes(s1: State, wire: seq<byte>)
    requires Sound(s1) && s1.role == SERVER && !s1.closeSent && |s1.msg| <= MSGBUF
    requires s1.status != OPEN ==> s1.pending == EV_CLOSE || s1.pending == EV_ERROR
    ensures Drain(s1, wire).keep ==> Drain(s1, wire).s == Poll(s1) && Serving(Poll(s1))
  {
    PollKeeps(s1);
  }

  // ----- What the replies are -----

  /** Every event but a pong is answered. */
  predicate Answered(e: Delivery) {
    !e.Pong?
  }

  function ReplyOpcode(e: Delivery): byte
    requires Answered(e)
  {
    match e case Message(op, _) => op case Ping(_) => OP_PONG case Close(_) => OP_CLOSE case Error => OP_CLOSE
  }

  function ReplyData(e: Delivery): seq<byte>
    requires Answered(e)
  {
    match e
    case Message(_, data) => data
    case Ping(data) => data
    case Close(code) => ClosePayload(EchoCloseCode(code))
    case Error => ClosePayload(CLOSE_PROTOCOL)
  }

  function Reply(e: Delivery): Frame
    requires Answered(e)
  {
    SentFrame(SERVER, None, ReplyOpcode(e), ReplyData(e))
  }

  predicate Final(e: Delivery) {
    e.Close? || e == Error
  }

  /** The events up to and including the first Close or error: the driver stops there. */
  function UpToFinal(es: seq<Delivery>): seq<Delivery> {
    if es == [] then [] else if Final(es[0]) then [es[0]] else [es[0]] + UpToFinal(es[1..])
  }

  /** The answered events are a prefix, all of them when none is final, and at most the last one is final. */
  lemma {:induction false} UpToFinalIs(es: seq<Delivery>)
    ensures var front := UpToFinal(es);
      && front <= es
      && (forall i :: 0 <= i < |front| - 1 ==> !Final(front[i]))
      && (front != es ==> front != [] && Final(front[|front| - 1]))
    decreases |es|
  {
    if es != [] && !Final(es[0]) {
      UpToFinalIs(es[1..]);
      var front, rest := UpToFinal(es), UpToFinal(es[1..]);
      assert es == [es[0]] + es[1..] && front == [es[0]] + rest;
      forall i | 0 <= i < |front| - 1 ensures !Final(front[i]) {
        if i > 0 {
          assert front[i] == rest[i - 1];
        }
      }
    }
  }

  /** Events that a server with a buffer of MSGBUF bytes reports. */
  ghost predicate Reportable(e: Delivery) {
    match e
    case Message(op, data) => (op == OP_BINARY || (op == OP_TEXT && Utf8.WellFormed(data))) && |data| <= MSGBUF
    case Ping(data) => |data| <= 125
    case Pong(data) => |data| <= 125
    case Close(code) => true
    case Error => true
  }

  /** An unmasked frame is at most ten bytes longer than its data. */
  lemma ServerWire(opcode: byte, data: seq<byte>, cap: nat)
    requires |data| < TWO63 && |data| + 10 <= cap
    ensures CanBuild(SERVER, None, |data|, cap)
    ensures var f := SentFrame(SERVER, None, opcode, data);
      ValidFrame(f) && |Wire(f)| <= |data| + 10 && Built(SERVER, None, opcode, data, cap) == Wire(f)
  {
    hide HeaderBytes, MaskSeq;
    SentIs(SERVER, None, opcode, data);
  }

  /** Every reply is a frame that a server may send, carries the data, and fits the transmit buffer. */
  lemma ReplyProper(e: Delivery)
    requires Reportable(e) && Answered(e)
    ensures var f := Reply(e);
      && ProperFrame(SERVER, MSGBUF, f) && Clear(f) == ReplyData(e) && f.h.opcode == ReplyOpcode(e)
      && (f.h.opcode == OP_CLOSE <==> Final(e))
      && |Wire(f)| <= TXBUF && Built(SERVER, None, ReplyOpcode(e), ReplyData(e), TXBUF) == Wire(f)
  {
    hide SentFrame, ProperFrame, Clear, ClosePayload, Wire, ValidHeader, Built;
    var op, data := ReplyOpcode(e), ReplyData(e);
    SendProper(SERVER, MSGBUF, None, op, data);
    SentIs(SERVER, None, op, data);
    ServerWire(op, data, TXBUF);
  }

  // ----- The output of a session -----

  /** What draining one event does, reply frame not yet looked at. */
  lemma DrainCases(s1: State, wire: seq<byte>)
    requires Valid(s1) && s1.role == SERVER && !s1.closeSent && s1.pending != EV_NONE
    ensures var e, d := Pending(s1), Drain(s1, wire);
      if Answered(e) then
        |ReplyData(e)| < TWO63 &&
        var out := Built(SERVER, None, ReplyOpcode(e), ReplyData(e), TXBUF);
        d.wire == wire + out && d.keep == (!Final(e) && out != []) && (d.keep ==> d.s == Poll(s1))
      else d == Driven(Poll(s1), wire, true)
  {
    hide Built, Parse, ClosePayload, Utf8.Reachable;
  }

  lemma ReplyValid(e: Delivery)
    requires Reportable(e) && Answered(e)
    ensures ValidFrame(Reply(e)) && |Wire(Reply(e))| > 0
  {
    ReplyProper(e);
  }

  ghost predicate AllReportable(es: seq<Delivery>) {
    forall i :: 0 <= i < |es| ==> Reportable(es[i])
  }

  /** The bytes of the reply to one event. */
  ghost function ReplyBytes(e: Delivery): seq<byte>
    requires Reportable(e)
  {
    if Answered(e) then
      ReplyValid(e);
      Wire(Reply(e))
    else []
  }

  /** The replies to a list of events, in order. */
  ghost function Replies(es: seq<Delivery>): seq<byte>
    requires AllReportable(es)
  {
    if es == [] then [] else ReplyBytes(es[0]) + Replies(es[1..])
  }

  /** Draining one event writes its reply, goes on unless the event is final, and reopens nothing. */
  lemma DrainReplies(s1: State, wire: seq<byte>)
    requires Valid(s1) && s1.role == SERVER && !s1.closeSent && s1.pending != EV_NONE
    requires Reportable(Pending(s1))
    ensures var e, d := Pending(s1), Drain(s1, wire);
      && d.wire == wire + ReplyBytes(e)
      && d.keep == !Final(e)
      && (d.keep ==> d.s == Poll(s1))
  {
    hide Built, Reply, Drain, ReplyOpcode, ReplyData, Wire, ValidFrame, Parse, Utf8.Reachable;
    var e := Pending(s1);
    DrainCases(s1, wire);
    if Answered(e) {
      ReplyProper(e);
      ReplyValid(e);
    } else {
      assert wire + [] == wire;
    }
  }

  // ----- Which events there are -----

  /** What the core of a server with a buffer of at most MSGBUF bytes keeps. */
  predicate Bounded(c: Core) {
    && c.cap <= MSGBUF && |c.acc| <= c.cap
    && (c.inMessage ==> c.opcode == OP_TEXT || c.opcode == OP_BINARY)
  }

  lemma StepReportable(c: Core, f: Frame)
    requires Bounded(c) && ValidFrame(f)
    ensures Bounded(Step(c, f).0) && AllReportable(Step(c, f).1)
  {
    hide ValidHeader, Clear, CloseCodeOf, Utf8.WellFormed, Utf8.Viable;
  }

  lemma {:induction false} ReadReportable(c: Core, bytes: seq<byte>)
    requires Bounded(c)
    ensures AllReportable(Read(c, bytes).events)
    decreases |bytes|
  {
    hide Step, HeaderRefused, HeadFrame, Reportable, Bounded, Wire;
    if c.status != CLOSED && !HeaderRefused(c, bytes) && HeadFrame(bytes).Some? {
      var f, tail := ReadHead(c, bytes);
      StepReportable(c, f);
      ReadReportable(Step(c, f).0, tail);
    } else {
      ReadQuiet(c, bytes);
    }
  }

  lemma ReadQuiet(c: Core, bytes: seq<byte>)
    requires c.status == CLOSED || HeaderRefused(c, bytes) || HeadFrame(bytes).None?
    ensures AllReportable(Read(c, bytes).events)
  {
  }

  /** Everything a serving connection reports can be answered. */
  lemma ServingReportable(s: State, input: seq<byte>)
    requires Serving(s)
    ensures AllReportable(FeedBytes(s, input).events)
  {
    hide Reportable, Read, FeedBytes, Parse;
    FeedRefines(s, input);
    ReadReportable(CoreOf(s), Staged(s) + input);
  }

  // ----- The output of a session -----

  lemma NoFinal(e: Delivery, more: seq<Delivery>)
    ensures Final(e) ==> UpToFinal([e] + more) == [e]
    ensures !Final(e) ==> UpToFinal([e] + more) == [e] + UpToFinal(more)
  {
    assert ([e] + more)[1..] == more;
  }

  predicate HasFinal(es: seq<Delivery>) {
    exists i :: 0 <= i < |es| && Final(es[i])
  }

  lemma HasFinalCons(e: Delivery, more: seq<Delivery>)
    ensures HasFinal([e] + more) <==> Final(e) || HasFinal(more)
  {
    var all := [e] + more;
    if Final(e) {
      assert Final(all[0]);
    }
    if HasFinal(more) {
      var i :| 0 <= i < |more| && Final(more[i]);
      assert Final(all[i + 1]);
    }
    if HasFinal(all) && !Final(e) {
      var i :| 0 <= i < |all| && Final(all[i]);
      assert Final(more[i - 1]);
    }
  }

  lemma {:induction false} UpToFinalSubset(es: seq<Delivery>)
    requires AllReportable(es)
    ensures AllReportable(UpToFinal(es))
  {
    hide Reportable, Final;
    if es != [] {
      UpToFinalSubset(es[1..]);
    }
  }

  /** The driver has answered the events `es`, in order, up to the final one if there is one. */
  ghost predicate Answers(d: Driven, wire: seq<byte>, es: seq<Delivery>, s: State)
    requires AllReportable(es)
  {
    UpToFinalSubset(es);
    && d.wire == wire + Replies(UpToFinal(es))
    && d.keep == !HasFinal(es)
    && (d.keep ==> d.s == s)
  }

  lemma AnswersNothing(s: State, wire: seq<byte>)
    ensures Answers(Driven(s, wire, true), wire, [], s)
  {
    assert wire + [] == wire;
  }

  /** A final event ends the session with its reply. */
  lemma AnswersFinal(d: Driven, wire: seq<byte>, e: Delivery, more: seq<Delivery>, s: State)
    requires AllReportable([e] + more) && Reportable(e) && Final(e)
    requires d.wire == wire + ReplyBytes(e) && !d.keep
    ensures Answers(d, wire, [e] + more, s)
  {
    hide Reportable, Final, ReplyBytes;
    NoFinal(e, more);
    HasFinalCons(e, more);
    UpToFinalSubset([e] + more);
    assert [e][1..] == [] && Replies([e]) == ReplyBytes(e) + [] == ReplyBytes(e);
  }

  /** Any other event is answered and the session goes on. */
  lemma AnswersNext(d: Driven, wire: seq<byte>, e: Delivery, more: seq<Delivery>, s: State)
    requires AllReportable([e] + more) && AllReportable(more) && Reportable(e) && !Final(e)
    requires Answers(d, wire + ReplyBytes(e), more, s)
    ensures Answers(d, wire, [e] + more, s)
  {
    hide Reportable, Final, ReplyBytes;
    NoFinal(e, more);
    HasFinalCons(e, more);
    UpToFinalSubset(more);
    UpToFinalSubset([e] + more);
    var rest := UpToFinal(more);
    assert ([e] + rest)[1..] == rest;
    assert (wire + ReplyBytes(e)) + Replies(rest) == wire + (ReplyBytes(e) + Replies(rest));
  }

  /** One turn of the loop: the call, the drain, and what is left. */
  lemma FeedTurn(s: State, wire: seq<byte>, buf: seq<byte>)
    requires Serving(s) && buf != []
    ensures Valid(Recv(s, buf).0)
    ensures var (s1, n) := Recv(s, buf);
      var d := Drain(s1, wire);
      && 0 < n <= |buf| && Ready(Poll(s1))
      && s1.role == SERVER && !s1.closeSent
      && (d.keep ==> Serving(Poll(s1)) && d.s == Poll(s1))
      && FeedFrames(s, wire, buf) == (if !d.keep then d else FeedFrames(d.s, d.wire, buf[n..]))
      && FeedBytes(s, buf).events == Drained(s1) + FeedBytes(Poll(s1), buf[n..]).events
      && FeedBytes(s, buf).s == FeedBytes(Poll(s1), buf[n..]).s
  {
    hide Parse, Handle, TakeByte, FeedBytes, RecvFrame, Pending, Utf8.Reachable;
    ServeRecv(s, buf);
    SoundTakes(s);
    RecvIsFeed(s, buf);
    DrainServes(Recv(s, buf).0, wire);
  }

  /** Output of one read: the replies to the events of its bytes. */
  lemma {:induction false} FeedAnswers(s: State, wire: seq<byte>, buf: seq<byte>)
    requires Serving(s) && AllReportable(FeedBytes(s, buf).events)
    ensures Answers(FeedFrames(s, wire, buf), wire, FeedBytes(s, buf).events, FeedBytes(s, buf).s)
    decreases |buf|
  {
    hide Parse, Handle, TakeByte, Reportable, Final, ReplyBytes, Answers, Recv, Drain, Slice, FeedBytes, HeaderSound,
      TextSound, Utf8.Reachable;
    FeedNone(s);
    if buf == [] {
      AnswersNothing(s, wire);
    } else {
      FeedTurn(s, wire, buf);
      var (s1, n) := Recv(s, buf);
      var more := FeedBytes(Poll(s1), buf[n..]);
      var es := FeedBytes(s, buf).events;
      if s1.pending == EV_NONE {
        assert es == more.events;
        DrainNone(s1, wire);
        FeedAnswers(Poll(s1), wire, buf[n..]);
      } else {
        var e := Pending(s1);
        assert es == [e] + more.events;
        assert es[0] == e && forall i :: 0 <= i < |more.events| ==> more.events[i] == es[i + 1];
        DrainReplies(s1, wire);
        if Final(e) {
          AnswersFinal(Drain(s1, wire), wire, e, more.events, FeedBytes(s, buf).s);
        } else {
          FeedAnswers(Poll(s1), wire + ReplyBytes(e), buf[n..]);
          AnswersNext(FeedFrames(s, wire, buf), wire, e, more.events, FeedBytes(s, buf).s);
        }
      }
    }
  }

  lemma DrainNone(s1: State, wire: seq<byte>)
    requires Valid(s1) && s1.pending == EV_NONE
    ensures Drain(s1, wire) == Driven(s1, wire, true) && Poll(s1) == s1
  {
  }

  /** A session: `feed_frames` on each read until it says to drop the connection. */
  function Serve(s: State, wire: seq<byte>, inputs: seq<seq<byte>>): Driven
    requires Serving(s)
    decreases |inputs|
  {
    if inputs == [] then Driven(s, wire, true)
    else
      var d := FeedFrames(s, wire, inputs[0]);
      if !d.keep then d
      else
        FeedFramesServes(s, wire, inputs[0]);
        Serve(d.s, d.wire, inputs[1..])
  }

  lemma {:induction false} FeedFramesServes(s: State, wire: seq<byte>, buf: seq<byte>)
    requires Serving(s)
    ensures FeedFrames(s, wire, buf).keep ==> Serving(FeedFrames(s, wire, buf).s)
    decreases |buf|
  {
    hide Parse, Handle, TakeByte, Recv, Drain, HeaderSound, TextSound;
    if buf != [] {
      ServingTurn(s, wire, buf);
      var (s1, n) := Recv(s, buf);
      if Drain(s1, wire).keep {
        FeedFramesServes(Poll(s1), Drain(s1, wire).wire, buf[n..]);
      }
    }
  }

  lemma ServingTurn(s: State, wire: seq<byte>, buf: seq<byte>)
    requires Serving(s) && buf != []
    ensures Valid(Recv(s, buf).0)
    ensures var (s1, n) := Recv(s, buf);
      var d := Drain(s1, wire);
      && 0 < n <= |buf| && (d.keep ==> Serving(Poll(s1)))
      && FeedFrames(s, wire, buf) == (if !d.keep then d else FeedFrames(Poll(s1), d.wire, buf[n..]))
  {
    FeedTurn(s, wire, buf);
  }

  /** A stretch without final event, then the rest. */
  lemma {:induction false} AnswersBoth(d: Driven, wire: seq<byte>, mid: seq<byte>, es: seq<Delivery>,
                                           more: seq<Delivery>, s: State)
    requires AllReportable(es) && AllReportable(more) && AllReportable(es + more)
    requires !HasFinal(es) && AllReportable(UpToFinal(es)) && mid == wire + Replies(UpToFinal(es))
    requires Answers(d, mid, more, s)
    ensures Answers(d, wire, es + more, s)
    decreases |es|
  {
    hide Reportable, Final, ReplyBytes;
    if es == [] {
      assert [] + more == more;
      assert mid == wire;
    } else {
      var e, rest := es[0], es[1..];
      assert es == [e] + rest;
      HasFinalCons(e, rest);
      assert es + more == [e] + (rest + more);
      assert forall i :: 0 <= i < |rest + more| ==> (rest + more)[i] == (es + more)[i + 1];
      NoFinal(e, rest);
      UpToFinalSubset(rest);
      assert ([e] + UpToFinal(rest))[1..] == UpToFinal(rest);
      assert mid == (wire + ReplyBytes(e)) + Replies(UpToFinal(rest));
      AnswersBoth(d, wire + ReplyBytes(e), mid, rest, more, s);
      AnswersNext(d, wire, e, rest + more, s);
    }
  }

  /** After the final event nothing is answered. */
  lemma {:induction false} AnswersStopped(d: Driven, wire: seq<byte>, es: seq<Delivery>, more: seq<Delivery>,
                                              s: State, t: State)
    requires AllReportable(es) && AllReportable(es + more) && HasFinal(es)
    requires Answers(d, wire, es, s)
    ensures Answers(d, wire, es + more, t)
  {
    hide Reportable, Final, ReplyBytes;
    StopsAtFinal(es, more);
    UpToFinalSubset(es + more);
    var i :| 0 <= i < |es| && Final(es[i]);
    assert Final((es + more)[i]);
  }

  lemma {:induction false} StopsAtFinal(es: seq<Delivery>, more: seq<Delivery>)
    requires HasFinal(es)
    ensures UpToFinal(es + more) == UpToFinal(es)
    decreases |es|
  {
    var e, rest := es[0], es[1..];
    assert es == [e] + rest && es + more == [e] + (rest + more);
    HasFinalCons(e, rest);
    NoFinal(e, rest + more);
    NoFinal(e, rest);
    if !Final(e) {
      StopsAtFinal(rest, more);
    }
  }

  /**
   * The output of a whole session, however the input was split into reads: exactly the replies, in
   * order, to the events of the byte stream up to the first Close or error.
   */
  lemma {:induction false} SessionAnswers(s: State, wire: seq<byte>, inputs: seq<seq<byte>>)
    requires Serving(s)
    ensures var o := FeedBytes(s, Flatten(inputs));
      AllReportable(o.events) && Answers(Serve(s, wire, inputs), wire, o.events, o.s)
    decreases |inputs|
  {
    hide Reportable, Serving, HasFinal, FeedFrames, FeedBytes, Replies, UpToFinal, Valid, Parse;
    ServingReportable(s, Flatten(inputs));
    ServingReady(s);
    if inputs == [] {
      FeedNone(s);
      AnswersNothing(s, wire);
    } else {
      var head, tail := inputs[0], Flatten(inputs[1..]);
      ServingReportable(s, head);
      FeedAnswers(s, wire, head);
      FeedConcat(s, head, tail);
      var first, d := FeedBytes(s, head), FeedFrames(s, wire, head);
      var all, later := FeedBytes(s, head + tail), FeedBytes(first.s, tail);
      assert all.events == first.events + later.events;
      if d.keep {
        FeedFramesServes(s, wire, head);
        SessionAnswers(d.s, d.wire, inputs[1..]);
        UpToFinalSubset(first.events);
        AnswersBoth(Serve(s, wire, inputs), wire, d.wire, first.events, later.events, later.s);
      } else {
        AnswersStopped(d, wire, first.events, later.events, first.s, all.s);
      }
    }
  }

  lemma ServingReady(s: State)
    requires Serving(s)
    ensures Ready(s) && Sound(s)
  {
  }

  lemma FeedNone(s: State)
    requires Ready(s)
    ensures FeedBytes(s, []) == Outcome(s, [], 0)
  {
  }

  /** The same, from the start of a connection, in terms of the reading of the stream. */
  lemma EchoOutput(msg: seq<byte>, inputs: seq<seq<byte>>)
    requires |msg| <= MSGBUF
    ensures Serving(Init(SERVER, msg))
    ensures var es := Read(Core(SERVER, |msg|, OPEN, false, 0, []), Flatten(inputs)).events;
      && AllReportable(es) && AllReportable(UpToFinal(es))
      && Serve(Init(SERVER, msg), [], inputs).wire == Replies(UpToFinal(es))
  {
    hide Reportable, Valid, Replies, UpToFinal, FeedBytes, Read, Serve, HasFinal, Parse;
    InitSound(SERVER, msg);
    var s := Init(SERVER, msg);
    SessionAnswers(s, [], inputs);
    FeedRefines(s, Flatten(inputs));
    var es := FeedBytes(s, Flatten(inputs)).events;
    assert [] + Flatten(inputs) == Flatten(inputs);
    UpToFinalSubset(es);
    assert [] + Replies(UpToFinal(es)) == Replies(UpToFinal(es));
  }

  // ----- What a client makes of the output -----

  /** The event at the client for the reply to an event at the server. */
  function Returned(e: Delivery): seq<Delivery> {
    if Answered(e) then [EventFor(ReplyOpcode(e), ReplyData(e))] else []
  }

  function ReturnedAll(es: seq<Delivery>): seq<Delivery> {
    if es == [] then [] else Returned(es[0]) + ReturnedAll(es[1..])
  }

  /** A client between messages whose buffer holds two of the server's. */
  predicate Listening(c: Core) {
    c.role == CLIENT && c.status == OPEN && !c.inMessage && |c.acc| <= MSGBUF && 2 * MSGBUF <= c.cap
  }

  /** The client's step on a reply frame. */
  lemma ReplyStep(c: Core, e: Delivery)
    requires Listening(c) && Reportable(e) && Answered(e)
    ensures ValidFrame(Reply(e)) && Step(c, Reply(e)).1 == Returned(e)
    ensures !Final(e) ==> Listening(Step(c, Reply(e)).0)
  {
    hide ProperFrame, ReplyData, Reply, Step, Clear, Wire, Utf8.WellFormed;
    ReplyProper(e);
    ReplyValid(e);
    ProperStep(c, Reply(e), MSGBUF);
  }

  /** Reading one reply. */
  lemma ReplyRead(c: Core, e: Delivery, tail: seq<byte>) returns (c1: Core)
    requires Listening(c) && Reportable(e)
    ensures Read(c, ReplyBytes(e) + tail).events == Returned(e) + Read(c1, tail).events
    ensures !Final(e) ==> Listening(c1)
  {
    hide Reply, Step, Reportable, Wire, Read, ValidFrame;
    if Answered(e) {
      ReplyStep(c, e);
      c1 := Step(c, Reply(e)).0;
      ReadOne(c, Reply(e), tail);
    } else {
      c1 := c;
      assert [] + tail == tail;
      assert [] + Read(c, tail).events == Read(c, tail).events;
    }
  }

  /**
   * A client with sufficient capacity that reads the output sees, in order, every message of the
   * session, a pong for every ping, and at most one Close, at the end.
   */
  lemma {:induction false} ClientReads(c: Core, es: seq<Delivery>)
    requires Listening(c) && AllReportable(es)
    ensures AllReportable(UpToFinal(es))
    ensures Read(c, Replies(UpToFinal(es))).events == ReturnedAll(UpToFinal(es))
    decreases |es|
  {
    hide Reportable, ReplyBytes, Returned, Listening;
    UpToFinalSubset(es);
    if es == [] {
      EmptyRead(c);
    } else {
      var e, rest := es[0], UpToFinal(es[1..]);
      if Final(e) {
        var c1 := ReplyRead(c, e, []);
        EmptyRead(c1);
        assert Replies([e]) == ReplyBytes(e) + [];
        assert [e][1..] == [];
      } else {
        UpToFinalSubset(es[1..]);
        var c1 := ReplyRead(c, e, Replies(rest));
        ClientReads(c1, es[1..]);
        assert ([e] + rest)[1..] == rest;
      }
    }
  }

  lemma EmptyRead(c: Core)
    ensures Read(c, []).events == []
  {
  }

  /** So the client recovers the message sequence. */
  lemma {:induction false} MessagesReturn(es: seq<Delivery>)
    requires AllReportable(es)
    ensures Messages(ReturnedAll(es)) == Messages(es)
    decreases |es|
  {
    if es == [] {
    } else {
      var e, rest := es[0], es[1..];
      MessagesReturn(rest);
      assert es == [e] + rest;
      MessagesConcat([e], rest);
      MessagesConcat(Returned(e), ReturnedAll(rest));
    }
  }

  /** Server and client together: the messages in the stream sent to the server come back in order. */
  lemma EchoRoundTrip(msg: seq<byte>, inputs: seq<seq<byte>>, clientCap: nat)
    requires |msg| <= MSGBUF && 2 * MSGBUF <= clientCap
    ensures Serving(Init(SERVER, msg))
    ensures var es := UpToFinal(Read(Core(SERVER, |msg|, OPEN, false, 0, []), Flatten(inputs)).events);
      var back := Read(Core(CLIENT, clientCap, OPEN, false, 0, []), Serve(Init(SERVER, msg), [], inputs).wire);
      back.events == ReturnedAll(es) && Messages(back.events) == Messages(es)
  {
    hide Reportable, Replies, UpToFinal, Read, Serve, Serving, Messages, ReturnedAll;
    EchoOutput(msg, inputs);
    var es := Read(Core(SERVER, |msg|, OPEN, false, 0, []), Flatten(inputs)).events;
    ClientReads(Core(CLIENT, clientCap, OPEN, false, 0, []), es);
    MessagesReturn(UpToFinal(es));
  }

  lemma StartsServing(msg: seq<byte>)
    requires |msg| <= MSGBUF
    ensures Serving(Init(SERVER, msg))
  {
    InitSound(SERVER, msg);
  }

  /** Everything that the server writes on a connection whose reads are `inputs`. */
  function Echoed(msg: seq<byte>, inputs: seq<seq<byte>>): seq<byte>
    requires |msg| <= MSGBUF
  {
    StartsServing(msg);
    Serve(Init(SERVER, msg), [], inputs).wire
  }

  /**
   * End to end on the machines: whatever bytes reach the server, in whatever reads, a client that is
   * fed the server's output in any chunks reports exactly the answers, and so the server's messages.
   */
  lemma EchoEndToEnd(msg: seq<byte>, inputs: seq<seq<byte>>, clientMsg: seq<byte>, chunks: seq<seq<byte>>)
    requires |msg| <= 131072 && 262144 <= |clientMsg| < TWO63
    requires Flatten(chunks) == Echoed(msg, inputs)
    ensures Ready(Init(SERVER, msg)) && Ready(Init(CLIENT, clientMsg))
    ensures var es := UpToFinal(FeedChunks(Init(SERVER, msg), inputs).events);
      var back := FeedChunks(Init(CLIENT, clientMsg), chunks).events;
      back == ReturnedAll(es) && Messages(back) == Messages(es)
  {
    hide Reportable, Replies, UpToFinal, Read, Serve, Messages, ReturnedAll, FeedBytes, FeedChunks;
    InitSound(SERVER, msg);
    InitSound(CLIENT, clientMsg);
    EchoRoundTrip(msg, inputs, |clientMsg|);
    ChunkingIndependence(Init(SERVER, msg), inputs);
    ChunkingIndependence(Init(CLIENT, clientMsg), chunks);
    FeedRefines(Init(SERVER, msg), Flatten(inputs));
    FeedRefines(Init(CLIENT, clientMsg), Flatten(chunks));
    assert [] + Flatten(inputs) == Flatten(inputs) && [] + Flatten(chunks) == Flatten(chunks);
  }

  // ----- Codes and bytes of the replies -----

  /** The code of a Close comes back, unless it cannot be sent. */
  lemma ReturnedClose(code: Code)
    ensures Returned(Close(code)) == [Close(
      if code in {1005, 1006, 1015} then 1000
      else if 1000 <= code <= 1003 || 1007 <= code <= 1011 || 3000 <= code <= 4999 then code
      else 1002)]
  {
    hide CloseCodeOf, ClosePayload;
    CloseRoundTrip(EchoCloseCode(code));
  }

  /** An error is answered with 1002, anything else but a pong with the data received. */
  lemma ReturnedOthers(opcode: byte, data: seq<byte>)
    ensures Returned(Error) == [Close(1002)]
    ensures Returned(Ping(data)) == [Pong(data)] && Returned(Pong(data)) == []
    ensures opcode in {0x1, 0x2} ==> Returned(Message(opcode, data)) == [Message(opcode, data)]
  {
    hide CloseCodeOf, ClosePayload;
    CloseRoundTrip(CLOSE_PROTOCOL);
  }

  /** The replies byte for byte, for a Close, an error and a ping. */
  lemma ControlReplyBytes(code: Code, data: seq<byte>)
    requires |data| <= 125
    ensures Reportable(Close(code)) && Reportable(Error) && Reportable(Ping(data))
    ensures ReplyBytes(Close(code)) ==
      [0x88, 0x02] + if code in {1005, 1006, 1015} then [0x03, 0xE8] else [code / 256, code % 256]
    ensures ReplyBytes(Error) == [0x88, 0x02, 0x03, 0xEA]
    ensures ReplyBytes(Ping(data)) == [0x8A, |data|] + data
  {
    hide ClosePayload, Wire, SentFrame, ValidFrame;
    ClosePayloadIs(EchoCloseCode(code));
    ClosePayloadIs(CLOSE_PROTOCOL);
    ShortWire(OP_CLOSE, ClosePayload(EchoCloseCode(code)));
    ShortWire(OP_CLOSE, ClosePayload(CLOSE_PROTOCOL));
    ShortWire(OP_PONG, data);
  }

  /** What a fresh server writes when a Close with this code arrives. */
  lemma CloseAnswered(msg: seq<byte>, inputs: seq<seq<byte>>, clientMsg: seq<byte>, key: Key, code: Code, cap: nat)
    requires 2 <= |msg| <= MSGBUF && |clientMsg| < TWO63 && cap >= 8
    requires Flatten(inputs) == SendClose(Init(CLIENT, clientMsg), Some(key), code, cap).1
    ensures Reportable(Close(ArrivingCode(code))) && Echoed(msg, inputs) == ReplyBytes(Close(ArrivingCode(code)))
  {
    hide Read, SendClose, Built, Serve, ReplyBytes;
    var client := Init(CLIENT, clientMsg);
    SendCloseCases(client, Some(key), code, cap);
    SentCloseRead(client, Some(key), code, cap, Core(SERVER, |msg|, OPEN, false, 0, []));
    EchoOutput(msg, inputs);
    var e := Close(ArrivingCode(code));
    assert UpToFinal([e]) == [e];
    assert [e][1..] == [];
    assert Replies([e]) == ReplyBytes(e) + [] == ReplyBytes(e);
  }

  /** A client in CLOSING, between frames, reads a server's Close and is closed. */
  lemma ClosingReads(client: State, code: Code)
    requires Sound(client) && Ready(client) && client.status == CLOSING && client.role == CLIENT
    requires Staged(client) == [] && client.msgLen + 2 <= |client.msg|
    ensures var f := SentFrame(SERVER, None, OP_CLOSE, ClosePayload(code));
      && ValidFrame(f)
      && FeedBytes(client, Wire(f)).events == [Close(ArrivingCode(code))]
      && FeedBytes(client, Wire(f)).s.status == CLOSED
  {
    hide Read, FeedBytes, Step, SentFrame, HeaderRefused, ClosePayload, Sound, Staged, ArrivingCode, ValidFrame, Wire,
      Parse, CloseCodeOf, Utf8.Reachable;
    var c, f := CoreOf(client), SentFrame(SERVER, None, OP_CLOSE, ClosePayload(code));
    SentIs(SERVER, None, OP_CLOSE, ClosePayload(code));
    CloseFrameRead(c, SERVER, None, code);
    CloseFits(c, f);
    ReadSingle(c, f);
    FeedRefines(client, Wire(f));
    assert [] + Wire(f) == Wire(f);
  }

  /** A client that has just sent its Close. */
  lemma ClosingClient(clientMsg: seq<byte>, key: Key, code: Code, cap: nat)
    requires 2 <= |clientMsg| < TWO63 && cap >= 8
    ensures var client := SendClose(Init(CLIENT, clientMsg), Some(key), code, cap).0;
      && Sound(client) && Ready(client) && client.status == CLOSING && client.role == CLIENT
      && Staged(client) == [] && client.msgLen + 2 <= |client.msg|
  {
    hide SendClose, Sound, Staged;
    SendCloseCases(Init(CLIENT, clientMsg), Some(key), code, cap);
    InitSound(CLIENT, clientMsg);
    MarkedSound(Init(CLIENT, clientMsg));
    SoundIsValid(MarkCloseSent(Init(CLIENT, clientMsg)));
  }

  /** A code that has arrived once arrives unchanged again, and is never one that the server replaces. */
  lemma ArrivedStays(code: Code)
    ensures ArrivingCode(ArrivingCode(code)) == ArrivingCode(code)
    ensures EchoCloseCode(ArrivingCode(code)) == ArrivingCode(code)
  {
  }

  /** The reply to a Close whose code has arrived. */
  lemma CloseReply(code: Code)
    ensures Reportable(Close(ArrivingCode(code)))
    ensures var f := SentFrame(SERVER, None, OP_CLOSE, ClosePayload(ArrivingCode(code)));
      ValidFrame(f) && ReplyBytes(Close(ArrivingCode(code))) == Wire(f)
  {
    hide ArrivingCode, EchoCloseCode, ClosePayload, SentFrame, Wire, ValidFrame;
    ArrivedStays(code);
    ReplyValid(Close(ArrivingCode(code)));
  }

  /**
   * The closing handshake end to end on the machines: a client that sends a Close with a code of the
   * valid ranges, whatever the reads and chunks, reads the same code back and is closed; other codes
   * come back as the ones they are replaced by.
   */
  lemma CloseEchoed(msg: seq<byte>, inputs: seq<seq<byte>>, clientMsg: seq<byte>, chunks: seq<seq<byte>>, key: Key,
                    code: Code, cap: nat)
    requires 2 <= |msg| <= MSGBUF && 2 <= |clientMsg| < TWO63 && cap >= 8
    requires Flatten(inputs) == SendClose(Init(CLIENT, clientMsg), Some(key), code, cap).1
    requires Flatten(chunks) == Echoed(msg, inputs)
    ensures var client := SendClose(Init(CLIENT, clientMsg), Some(key), code, cap).0;
      && Ready(client) && client.status == CLOSING
      && FeedChunks(client, chunks).s.status == CLOSED
      && FeedChunks(client, chunks).events == [Close(
           if code in {1005, 1006, 1015} then 1000
           else if 1000 <= code <= 1003 || 1007 <= code <= 1011 || 3000 <= code <= 4999 then code
           else 1002)]
  {
    hide *;
    CloseAnswered(msg, inputs, clientMsg, key, code, cap);
    CloseReply(code);
    ClosingClient(clientMsg, key, code, cap);
    var client := SendClose(Init(CLIENT, clientMsg), Some(key), code, cap).0;
    ClosingReads(client, ArrivingCode(code));
    ChunkingIndependence(client, chunks);
    ArrivedStays(code);
    ArrivingIs(code);
  }

  lemma ArrivingIs(code: Code)
    ensures ArrivingCode(code) ==
      if code in {1005, 1006, 1015} then 1000
      else if 1000 <= code <= 1003 || 1007 <= code <= 1011 || 3000 <= code <= 4999 then code
      else 1002
  {
  }
}
