/** What every run of two endpoints guarantees (sections 5.5.1 and 7.1.4 of RFC 6455). */
module Protocol {
  import opened Bytes
  import opened Mask
  import opened FrameHeader
  import opened ConnSpec
  import opened Session
  import opened Stream
  import opened Sending
  import opened History
  import opened Duplex

  // ----- What every run guarantees -----

  function Messages(es: seq<Delivery>): seq<Delivery> {
    if es == [] then []
    else
      var e := es[|es| - 1];
      Messages(es[..|es| - 1]) + (if e.Message? then [e] else [])
  }

  lemma {:induction false} MessagesConcat(a: seq<Delivery>, b: seq<Delivery>)
    ensures Messages(a + b) == Messages(a) + Messages(b)
    decreases |b|
  {
    if b == [] {
      assert a + b == a;
    } else {
      var b' := b[..|b| - 1];
      assert (a + b)[..|a + b| - 1] == a + b';
      MessagesConcat(a, b');
      assert (a + b)[|a + b| - 1] == b[|b| - 1];
    }
  }

  lemma {:induction false} EventsConcat(a: seq<Frame>, b: seq<Frame>)
    ensures EventsOf(a + b) == EventsOf(a) + EventsOf(b)
    decreases |b|
  {
    if b == [] {
      assert a + b == a;
    } else {
      var b' := b[..|b| - 1];
      assert (a + b)[..|a + b| - 1] == a + b';
      EventsConcat(a, b');
      assert (a + b)[|a + b| - 1] == b[|b| - 1];
    }
  }

  predicate AllKnown(fs: seq<Frame>) {
    forall i :: 0 <= i < |fs| ==> fs[i].h.opcode in {OP_TEXT, OP_BINARY, OP_CLOSE, OP_PING, OP_PONG}
  }

  /** Control frames have no message among their events. */
  lemma {:induction false} ControlsNoMessages(fs: seq<Frame>)
    requires AllKnown(fs)
    ensures Messages(ControlsOf(fs)) == []
    decreases |fs|
  {
    if fs != [] {
      var f, before := fs[|fs| - 1], fs[..|fs| - 1];
      ControlsNoMessages(before);
      if IsControl(f.h.opcode) {
        MessagesConcat(ControlsOf(before), [EventOf(f)]);
      } else {
        assert ControlsOf(fs) == ControlsOf(before) + [] == ControlsOf(before);
      }
    }
  }

  /** No frame's event is an error, and a Close event comes from a Close frame. */
  lemma {:induction false} EventsFaithful(fs: seq<Frame>)
    ensures Error !in EventsOf(fs) && Error !in ControlsOf(fs)
    ensures SawClose(EventsOf(fs)) <==> HasClose(fs)
    ensures SawClose(ControlsOf(fs)) <==> HasClose(fs)
    decreases |fs|
  {
    hide Clear, CloseCodeOf;
    if fs != [] {
      var f, before := fs[|fs| - 1], fs[..|fs| - 1];
      EventsFaithful(before);
      assert fs == before + [f];
      HasCloseSnoc(before, f);
      CloseSnoc(EventsOf(before), EventOf(f));
      CloseSnoc(ControlsOf(before), EventOf(f));
      assert ControlsOf(before) + [] == ControlsOf(before);
    }
  }

  predicate SawClose(es: seq<Delivery>) {
    exists i :: 0 <= i < |es| && es[i].Close?
  }

  lemma CloseSnoc(es: seq<Delivery>, e: Delivery)
    ensures SawClose(es + [e]) <==> SawClose(es) || e.Close?
  {
    var all := es + [e];
    if SawClose(es) {
      var i :| 0 <= i < |es| && es[i].Close?;
      assert all[i].Close?;
    }
    if e.Close? {
      assert all[|es|].Close?;
    }
  }

  lemma SawCloseConcat(a: seq<Delivery>, b: seq<Delivery>)
    ensures SawClose(a + b) <==> SawClose(a) || SawClose(b)
  {
    var all := a + b;
    if SawClose(a) {
      var i :| 0 <= i < |a| && a[i].Close?;
      assert all[i].Close?;
    }
    if SawClose(b) {
      var i :| 0 <= i < |b| && b[i].Close?;
      assert all[|a| + i].Close?;
    }
  }

  /** All events that `x` has seen, or can see by polling. */
  function Got(x: Side): seq<Delivery>
    requires EventOk(x.s)
  {
    x.seen + Drained(x.s)
  }

  /** The events that are not messages. */
  function Controls(es: seq<Delivery>): seq<Delivery> {
    if es == [] then []
    else
      var e := es[|es| - 1];
      Controls(es[..|es| - 1]) + (if e.Message? then [] else [e])
  }

  /** The first m events in full, and the control events among those up to k. */
  predicate Sees(got: seq<Delivery>, sent: seq<Delivery>, m: nat, k: nat) {
    m <= k <= |sent| && got == sent[..m] + Controls(sent[m..k])
  }

  /** What `x` can observe when it has sent the events `own` and its peer the events `sent`. */
  ghost predicate Guarantees(x: Side, own: seq<Delivery>, sent: seq<Delivery>)
    requires EventOk(x.s)
  {
    var got := Got(x);
    // no protocol error
    && Error !in got
    // the flag and the status count the Close frames sent and received
    && (x.s.closeSent <==> SawClose(own))
    && x.s.status == HandshakeStatus(SawClose(own), SawClose(got))
    // everything arrives in order, none invented, none changed; what may be missing at the end are messages,
    // and only after an own Close
    && (exists m: nat, k: nat :: Sees(got, sent, m, k) && (SawClose(own) || m == k))
    && Messages(got) <= Messages(sent)
    // an endpoint that has received a Close without having sent one has every message
    && (ClosedByPeer(x) ==> Messages(got) == Messages(sent))
    // an endpoint that has not sent a Close and has nothing more to read has every event
    && (!x.s.closeSent && x.inbox == [] ==> got == sent)
    // an endpoint with nothing more to read has completed the handshake once both sides have sent a Close
    && (SawClose(own) && SawClose(sent) && x.inbox == [] ==> x.s.status == CLOSED)
  }

  /** The peer's Close was seen before a Close of one's own was sent. */
  predicate ClosedByPeer(x: Side)
    requires EventOk(x.s)
  {
    !x.s.closeSent && SawClose(Got(x))
  }

  lemma HandledFaithful(fs: seq<Frame>, m: nat, k: nat)
    requires m <= k <= |fs|
    ensures var got := Handled(fs, m, k);
      Error !in got && (SawClose(got) <==> HasClose(fs[..k]))
  {
    hide EventsOf, ControlsOf, SawClose, HasClose;
    EventsFaithful(fs[..m]);
    EventsFaithful(fs[m..k]);
    SawCloseConcat(EventsOf(fs[..m]), ControlsOf(fs[m..k]));
    assert fs[..k] == fs[..m] + fs[m..k];
    HasCloseConcat(fs[..m], fs[m..k]);
  }

  lemma HasCloseConcat(a: seq<Frame>, b: seq<Frame>)
    ensures HasClose(a + b) <==> HasClose(a) || HasClose(b)
  {
    var all := a + b;
    if HasClose(a) {
      var i :| 0 <= i < |a| && IsClose(a[i]);
      assert IsClose(all[i]);
    }
    if HasClose(b) {
      var i :| 0 <= i < |b| && IsClose(b[i]);
      assert IsClose(all[|a| + i]);
    }
  }

  lemma HandledMessages(fs: seq<Frame>, m: nat, k: nat)
    requires m <= k <= |fs| && AllKnown(fs)
    ensures Messages(Handled(fs, m, k)) == Messages(EventsOf(fs[..m]))
    ensures Messages(EventsOf(fs)) == Messages(EventsOf(fs[..m])) + Messages(EventsOf(fs[m..]))
  {
    hide EventsOf, ControlsOf, Messages;
    MessagesConcat(EventsOf(fs[..m]), ControlsOf(fs[m..k]));
    ControlsNoMessages(fs[m..k]);
    assert fs == fs[..m] + fs[m..];
    EventsConcat(fs[..m], fs[m..]);
    MessagesConcat(EventsOf(fs[..m]), EventsOf(fs[m..]));
  }

  /** After its Close a peer sends no message. */
  lemma {:induction false} NothingAfterClose(fs: seq<Frame>)
    requires forall i :: 0 <= i < |fs| ==> fs[i].h.opcode in {OP_PING, OP_PONG}
    ensures Messages(EventsOf(fs)) == []
    decreases |fs|
  {
    if fs != [] {
      var f, before := fs[|fs| - 1], fs[..|fs| - 1];
      NothingAfterClose(before);
      MessagesConcat(EventsOf(before), [EventOf(f)]);
    }
  }

  lemma DataEnded(fs: seq<Frame>, k: nat)
    requires k <= |fs| && CloseEndsData(fs) && HasClose(fs[..k])
    ensures Messages(EventsOf(fs[k..])) == []
  {
    var i :| 0 <= i < k && IsClose(fs[..k][i]);
    assert IsClose(fs[i]);
    forall j | 0 <= j < |fs| - k ensures fs[k..][j].h.opcode in {OP_PING, OP_PONG} {
      assert fs[k..][j] == fs[k + j];
    }
    NothingAfterClose(fs[k..]);
  }

  /** Messages in order, and all of them once a Close is among the frames handled in full. */
  lemma MessagesArrive(fs: seq<Frame>, m: nat, k: nat)
    requires m <= k <= |fs| && AllKnown(fs) && CloseEndsData(fs)
    ensures Messages(Handled(fs, m, k)) <= Messages(EventsOf(fs))
    ensures HasClose(fs[..m]) ==> Messages(Handled(fs, m, k)) == Messages(EventsOf(fs))
  {
    hide Handled, Messages, EventsOf, HasClose, CloseEndsData;
    HandledMessages(fs, m, k);
    var head, tail := Messages(EventsOf(fs[..m])), Messages(EventsOf(fs[m..]));
    assert head <= head + tail;
    if HasClose(fs[..m]) {
      DataEnded(fs, m);
      assert head + [] == head;
    }
  }

  lemma WiresHead(fs: seq<Frame>)
    requires fs != [] && forall f :: f in fs ==> ValidFrame(f)
    ensures HeadFrame(Wires(fs)) == Some(fs[0])
  {
    HeadFrameOf(fs[0], Wires(fs[1..]));
  }

  /** With nothing under way an endpoint that is not closed has handled every frame. */
  lemma NothingLeft(x: Side, y: Side, m: nat, k: nat)
    requires Valid(x.s) && Sound(x.s) && forall i :: 0 <= i < |y.sent| ==> ValidFrame(y.sent[i])
    requires LinkAt(x, y, m, k) && x.s.status != CLOSED && x.inbox == []
    ensures k == |y.sent|
  {
    hide Sound, Staged, Wires, HeadFrame, ValidFrame, HeaderRefused, CoreOf, EventsOf, ControlsOf;
    var fs := y.sent;
    if k < |fs| {
      StagedIncomplete(x.s);
      assert Staged(x.s) + x.inbox == Staged(x.s);
      WiresHead(fs[k..]);
      assert false;
    }
  }

  lemma AllHandled(fs: seq<Frame>)
    ensures Handled(fs, |fs|, |fs|) == EventsOf(fs) && fs[..|fs|] == fs
  {
    hide EventsOf;
    assert fs[..|fs|] == fs && fs[|fs|..|fs|] == [];
  }

  lemma {:induction false} EventsSlice(fs: seq<Frame>, k: nat)
    requires k <= |fs|
    ensures |EventsOf(fs)| == |fs| && EventsOf(fs[..k]) == EventsOf(fs)[..k]
    decreases |fs|
  {
    if k == |fs| {
      assert fs[..k] == fs;
      if fs != [] {
        EventsSlice(fs[..k - 1], k - 1);
      }
    } else {
      var before := fs[..|fs| - 1];
      EventsSlice(before, k);
      assert before[..k] == fs[..k];
    }
  }

  lemma EventKind(f: Frame)
    requires f.h.opcode in {OP_TEXT, OP_BINARY, OP_CLOSE, OP_PING, OP_PONG}
    ensures EventOf(f).Message? <==> !IsControl(f.h.opcode)
  {
    hide Clear, CloseCodeOf;
  }

  lemma {:induction false} ControlsAre(fs: seq<Frame>)
    requires AllKnown(fs)
    ensures ControlsOf(fs) == Controls(EventsOf(fs))
    decreases |fs|
  {
    hide EventOf;
    if fs != [] {
      var before, e := fs[..|fs| - 1], EventOf(fs[|fs| - 1]);
      EventKind(fs[|fs| - 1]);
      ControlsAre(before);
      assert EventsOf(fs) == EventsOf(before) + [e];
      assert EventsOf(fs)[..|EventsOf(fs)| - 1] == EventsOf(before);
    }
  }

  /** What has been handled, in terms of the events sent. */
  lemma HandledSees(fs: seq<Frame>, m: nat, k: nat)
    requires m <= k <= |fs| && AllKnown(fs)
    ensures Sees(Handled(fs, m, k), EventsOf(fs), m, k)
  {
    hide EventsOf, ControlsOf, Controls;
    EventsSlice(fs, m);
    EventsSlice(fs, k);
    EventsSlice(fs[m..k], 0);
    assert fs[..k] == fs[..m] + fs[m..k];
    EventsConcat(fs[..m], fs[m..k]);
    assert EventsOf(fs)[m..k] == EventsOf(fs)[..k][m..];
    ControlsAre(fs[m..k]);
  }

  /** The two flags of the handshake: what has been sent, and what is still to be read. */
  lemma HandshakeDone(x: Side, y: Side, m: nat, k: nat)
    requires Valid(x.s) && Sound(x.s) && forall i :: 0 <= i < |y.sent| ==> ValidFrame(y.sent[i])
    requires LinkAt(x, y, m, k) && x.s.closeSent && HasClose(y.sent) && x.inbox == []
    ensures x.s.status == CLOSED
  {
    hide Sound, Staged, Wires, ValidFrame, EventsOf, Handled, HasClose;
    assert y.sent[..|y.sent|] == y.sent;
    if x.s.status != CLOSED {
      NothingLeft(x, y, m, k);
    }
  }

  lemma PairGuarantees(x: Side, y: Side, limit: nat)
    requires Pair(x, y, limit)
    ensures Guarantees(x, EventsOf(x.sent), EventsOf(y.sent))
  {
    hide Staged, Handled, Messages, SawClose, HasClose, Parse, HeaderSound, TextSound, EventsOf, Sees, CloseEndsData,
      Wires, Clear;
    var m: nat, k: nat :| LinkAt(x, y, m, k);
    EventsFaithful(x.sent);
    EventsFaithful(y.sent);
    HandledFaithful(y.sent, m, k);
    HandledSees(y.sent, m, k);
    MessagesArrive(y.sent, m, k);
    if x.inbox == [] {
      if !x.s.closeSent {
        NothingLeft(x, y, m, k);
        AllHandled(y.sent);
      } else if HasClose(y.sent) {
        HandshakeDone(x, y, m, k);
      }
    }
  }

  // ----- Delivery -----

  /** A receive call for all that is under way takes something, unless the connection is closed. */
  lemma ReceiveShrinks(x: Side, y: Side, limit: nat)
    requires Pair(x, y, limit) && x.s.status != CLOSED && x.s.pending == EV_NONE && x.inbox != []
    ensures var (x1, y1) := Move(x, y, DoReceive(|x.inbox|));
      |x1.inbox| < |x.inbox| && x1.s.closeSent == x.s.closeSent && x1.sent == x.sent && y1 == y
  {
    hide RecvFrame, Parse, Link, HeaderSound, TextSound;
    assert x.inbox[..|x.inbox|] == x.inbox;
    Progress(x.s, x.inbox);
    RecvFrameSteps(x.s, x.inbox);
  }

  /** `x` polls and receives until nothing is under way, or it is closed. */
  ghost function Settle(x: Side, y: Side, limit: nat): (r: Side)
    requires Pair(x, y, limit) && limit < TWO63
    ensures Pair(r, y, limit) && r.s.closeSent == x.s.closeSent && r.sent == x.sent
    ensures (r.inbox == [] || r.s.status == CLOSED) && r.s.pending == EV_NONE
    decreases |x.inbox|
  {
    MoveKeeps(x, y, limit, DoPoll);
    var p := Move(x, y, DoPoll).0;
    if p.inbox == [] || p.s.status == CLOSED then p
    else
      ReceiveShrinks(p, y, limit);
      MoveKeeps(p, y, limit, DoReceive(|p.inbox|));
      Settle(Move(p, y, DoReceive(|p.inbox|)).0, y, limit)
  }

  /**
   * Delivery: from any point of any run, an endpoint that has not sent a Close and goes on polling and
   * receiving has seen exactly the events of all frames sent to it, in order.
   */
  lemma SettledSeesAll(x: Side, y: Side, limit: nat)
    requires Pair(x, y, limit) && !x.s.closeSent && limit < TWO63
    ensures Settle(x, y, limit).seen == EventsOf(y.sent)
  {
    hide *;
    var r := Settle(x, y, limit);
    SeesAll(r, y, limit);
  }

  lemma SeesAll(r: Side, y: Side, limit: nat)
    requires Pair(r, y, limit) && !r.s.closeSent && (r.inbox == [] || r.s.status == CLOSED) && r.s.pending == EV_NONE
    ensures r.seen == EventsOf(y.sent)
  {
    hide Pair, Messages, SawClose, EventsOf, Sees;
    PairIs(r, y, limit);
    PairGuarantees(r, y, limit);
    assert r.seen + Drained(r.s) == r.seen;
  }

  /**
   * The closing handshake completes: once both sides have sent a Close, an endpoint that goes on polling
   * and receiving is closed.
   */
  lemma SettledIsClosed(x: Side, y: Side, limit: nat)
    requires Pair(x, y, limit) && x.s.closeSent && y.s.closeSent && limit < TWO63
    ensures Settle(x, y, limit).s.status == CLOSED
  {
    hide *;
    var r := Settle(x, y, limit);
    BothClosed(r, y, limit);
  }

  lemma BothClosed(r: Side, y: Side, limit: nat)
    requires Pair(r, y, limit) && r.s.closeSent && y.s.closeSent && (r.inbox == [] || r.s.status == CLOSED)
    ensures r.s.status == CLOSED
  {
    hide Pair, Messages, SawClose, EventsOf, Sees, HasClose;
    PairIs(r, y, limit);
    EventsFaithful(y.sent);
    PairGuarantees(r, y, limit);
  }

  // ----- Once closed by the peer, always complete -----

  /** `x` has seen the Close of `y`, and every message that `y` ever sends. */
  ghost predicate HasAll(x: Side, y: Side)
    requires EventOk(x.s)
  {
    SawClose(Got(x)) && y.s.closeSent && Messages(Got(x)) == Messages(EventsOf(y.sent))
  }

  lemma HasAllBegins(x: Side, y: Side, limit: nat)
    requires Pair(x, y, limit) && ClosedByPeer(x)
    ensures HasAll(x, y)
  {
    hide Staged, Handled, Messages, SawClose, Parse, HeaderSound, TextSound, EventsOf, Got, HandshakeStatus;
    PairGuarantees(x, y, limit);
    var m: nat, k: nat :| LinkAt(x, y, m, k);
    HandshakeSplit(x.s.closeSent, SawClose(Got(x)), HasClose(y.sent[..k]));
    var i :| 0 <= i < k && IsClose(y.sent[..k][i]);
    assert IsClose(y.sent[i]);
  }

  lemma HandshakeSplit(sent: bool, a: bool, b: bool)
    ensures HandshakeStatus(sent, a) == HandshakeStatus(sent, b) ==> a == b
  {
  }

  /** A move of `x` only adds to what it has seen, and changes nothing at `y` but its inbox. */
  lemma OwnMove(x: Side, y: Side, act: Act)
    requires Valid(x.s)
    requires act.DoMessage? || act.DoPing? || act.DoPong? ==> |act.data| < TWO63
    ensures var (x1, y1) := Move(x, y, act);
      && Valid(x1.s) && Got(x) <= Got(x1)
      && y1 == y.(inbox := y1.inbox)
      && (x1.sent == x.sent || (exists f :: x1.sent == x.sent + [f]))
  {
    hide Built, Parse, RecvFrame, ValidFrame, SentFrame, ClosePayload, Wire, CanBuild;
    match act
    case DoReceive(n) =>
      var buf := x.inbox[..if n <= |x.inbox| then n else |x.inbox|];
      RecvFrameValid(x.s, buf);
    case DoPoll =>
    case DoMessage(rng, opcode, data, cap) =>
    case DoPing(rng, data, cap) =>
    case DoPong(rng, data, cap) =>
    case DoClose(rng, code, cap) => assert MarkCloseSent(x.s).pending == x.s.pending;
  }

  lemma HasAllOwn(x: Side, y: Side, limit: nat, act: Act)
    requires Pair(x, y, limit) && limit < TWO63 && Proper(limit, act) && HasAll(x, y)
    ensures var (x1, y1) := Move(x, y, act); Pair(x1, y1, limit) && HasAll(x1, y1)
  {
    hide Move, Pair, Messages, SawClose, EventsOf, Got;
    PairIs(x, y, limit);
    OwnMove(x, y, act);
    MoveKeeps(x, y, limit, act);
    var (x1, y1) := Move(x, y, act);
    PairGuarantees(x1, y1, limit);
    SawCloseMore(Got(x), Got(x1));
    MessagesMore(Got(x), Got(x1));
  }

  lemma PairIs(x: Side, y: Side, limit: nat)
    requires Pair(x, y, limit)
    ensures Valid(x.s) && Valid(y.s) && (y.s.closeSent <==> HasClose(y.sent)) && CloseEndsData(y.sent)
  {
  }

  lemma SawCloseMore(a: seq<Delivery>, b: seq<Delivery>)
    requires a <= b && SawClose(a)
    ensures SawClose(b)
  {
    var i :| 0 <= i < |a| && a[i].Close?;
    assert b[i].Close?;
  }

  lemma MessagesMore(a: seq<Delivery>, b: seq<Delivery>)
    requires a <= b
    ensures Messages(a) <= Messages(b)
  {
    assert b == a + b[|a|..];
    MessagesConcat(a, b[|a|..]);
  }

  lemma HasAllPeer(x: Side, y: Side, limit: nat, act: Act)
    requires Pair(x, y, limit) && limit < TWO63 && Proper(limit, act) && HasAll(x, y)
    ensures var (y1, x1) := Move(y, x, act); Pair(x1, y1, limit) && HasAll(x1, y1)
  {
    hide Move, Pair, Messages, SawClose, EventsOf, Drained, HasClose, CloseEndsData;
    PairSymmetric(x, y, limit);
    PairIs(x, y, limit);
    OwnMove(y, x, act);
    MoveKeeps(y, x, limit, act);
    var (y1, x1) := Move(y, x, act);
    PairSymmetric(y1, x1, limit);
    PairIs(x1, y1, limit);
    if y1.sent != y.sent {
      var f :| y1.sent == y.sent + [f];
      LateFrame(y.sent, f);
    }
    HasCloseMore(y.sent, y1.sent);
  }

  lemma HasCloseMore(a: seq<Frame>, b: seq<Frame>)
    requires a <= b && HasClose(a)
    ensures HasClose(b)
  {
    var i :| 0 <= i < |a| && IsClose(a[i]);
    assert IsClose(b[i]);
  }

  /** What is sent after a Close adds no message. */
  lemma LateFrame(fs: seq<Frame>, f: Frame)
    requires HasClose(fs) && CloseEndsData(fs + [f])
    ensures Messages(EventsOf(fs + [f])) == Messages(EventsOf(fs))
  {
    var i :| 0 <= i < |fs| && IsClose(fs[i]);
    var all := fs + [f];
    assert IsClose(all[i]) && all[|fs|] == f;
    EventsSnoc(fs, f);
    assert !EventOf(f).Message?;
    MessagesConcat(EventsOf(fs), [EventOf(f)]);
    assert Messages([EventOf(f)]) == [];
  }

  /** Both directions of `HasAll` outlast every call. */
  lemma HasAllNext(sys: System, limit: nat, turn: Turn)
    requires Consistent(sys, limit) && limit < TWO63 && Proper(limit, turn.act)
    ensures HasAll(sys.client, sys.server) ==> HasAll(Next(sys, limit, turn).client, Next(sys, limit, turn).server)
    ensures HasAll(sys.server, sys.client) ==> HasAll(Next(sys, limit, turn).server, Next(sys, limit, turn).client)
  {
    hide HasAll, Pair, Move;
    PairSymmetric(sys.client, sys.server, limit);
    PairIs(sys.client, sys.server, limit);
    if HasAll(sys.client, sys.server) {
      if turn.byClient {
        HasAllOwn(sys.client, sys.server, limit, turn.act);
      } else {
        HasAllPeer(sys.client, sys.server, limit, turn.act);
      }
    }
    if HasAll(sys.server, sys.client) {
      if turn.byClient {
        HasAllPeer(sys.server, sys.client, limit, turn.act);
      } else {
        HasAllOwn(sys.server, sys.client, limit, turn.act);
      }
    }
  }

  lemma {:induction false} HasAllRun(sys: System, limit: nat, turns: seq<Turn>)
    requires Consistent(sys, limit) && limit < TWO63
    requires forall i :: 0 <= i < |turns| ==> Proper(limit, turns[i].act)
    ensures var end := Run(sys, limit, turns);
      && (HasAll(sys.client, sys.server) ==> HasAll(end.client, end.server))
      && (HasAll(sys.server, sys.client) ==> HasAll(end.server, end.client))
    decreases |turns|
  {
    hide HasAll, Consistent, Next;
    if turns != [] {
      HasAllNext(sys, limit, turns[0]);
      HasAllRun(Next(sys, limit, turns[0]), limit, turns[1..]);
    }
  }

  lemma {:induction false} RunSplit(sys: System, limit: nat, turns: seq<Turn>, n: nat)
    requires Consistent(sys, limit) && limit < TWO63 && n <= |turns|
    requires forall i :: 0 <= i < |turns| ==> Proper(limit, turns[i].act)
    ensures Run(sys, limit, turns) == Run(Run(sys, limit, turns[..n]), limit, turns[n..])
    decreases n
  {
    hide Consistent, Next;
    if n == 0 {
      assert turns[..0] == [] && turns[0..] == turns;
    } else {
      RunSplit(Next(sys, limit, turns[0]), limit, turns[1..], n - 1);
      assert turns[..n][1..] == turns[1..][..n - 1] && turns[1..][n - 1..] == turns[n..];
    }
  }

  // ----- What was asked for is what was sent -----

  /** The event that a successful call asks the peer to see. */
  function Posted(x: Side, act: Act): seq<Delivery>
    requires act.DoMessage? || act.DoPing? || act.DoPong? ==> |act.data| < TWO63
  {
    match act
    case DoReceive(_) => []
    case DoPoll => []
    case DoMessage(rng, opcode, data, cap) =>
      if SendMessage(x.s, rng, opcode, data, cap) != [] then [Message(opcode, data)] else []
    case DoPing(rng, data, cap) => if Built(x.s.role, rng, OP_PING, data, cap) != [] then [Ping(data)] else []
    case DoPong(rng, data, cap) => if Built(x.s.role, rng, OP_PONG, data, cap) != [] then [Pong(data)] else []
    case DoClose(rng, code, cap) => if SendClose(x.s, rng, code, cap).1 != [] then [Close(ArrivingCode(code))] else []
  }

  ghost function PostedBy(sys: System, limit: nat, turn: Turn, byClient: bool): seq<Delivery>
    requires limit < TWO63 && Proper(limit, turn.act)
  {
    if turn.byClient != byClient then [] else Posted(if byClient then sys.client else sys.server, turn.act)
  }

  /** The data of the calls of one endpoint that put something out, in order. */
  ghost function Asked(sys: System, limit: nat, turns: seq<Turn>, byClient: bool): seq<Delivery>
    requires Consistent(sys, limit) && limit < TWO63
    requires forall i :: 0 <= i < |turns| ==> Proper(limit, turns[i].act)
    decreases |turns|
  {
    if turns == [] then []
    else PostedBy(sys, limit, turns[0], byClient) + Asked(Next(sys, limit, turns[0]), limit, turns[1..], byClient)
  }

  /** A call that puts a frame out. */
  lemma PostedFrame(role: Role, rng: Option<Key>, opcode: byte, data: seq<byte>, cap: nat)
    requires |data| < TWO63 && opcode in {OP_TEXT, OP_BINARY, OP_CLOSE, OP_PING, OP_PONG}
    ensures Built(role, rng, opcode, data, cap) != [] <==> CanBuild(role, rng, |data|, cap)
    ensures CanBuild(role, rng, |data|, cap) ==> EventOf(SentFrame(role, rng, opcode, data)) == EventFor(opcode, data)
  {
    hide SentFrame, Clear, CloseCodeOf, ValidHeader, HeaderBytes;
    if CanBuild(role, rng, |data|, cap) {
      SentIs(role, rng, opcode, data);
      HeaderLonger(SentFrame(role, rng, opcode, data).h);
    }
  }

  lemma HeaderLonger(h: Header)
    requires ValidHeader(h)
    ensures h.headerLen >= 2
  {
  }

  lemma MovePosts(x: Side, y: Side, limit: nat, act: Act)
    requires Valid(x.s) && limit < TWO63 && Proper(limit, act)
    ensures EventsOf(Move(x, y, act).0.sent) == EventsOf(x.sent) + Posted(x, act)
  {
    hide Built, CanBuild, SentFrame, EventOf, EventsOf, ClosePayload, Wire, ValidFrame, RecvFrame, CloseCodeOf;
    assert EventsOf(x.sent) + [] == EventsOf(x.sent);
    match act
    case DoReceive(n) =>
    case DoPoll =>
    case DoMessage(rng, opcode, data, cap) =>
      PostedFrame(x.s.role, rng, opcode, data, cap);
      PostLogs(x, y, x.s.closeSent, x.s, rng, opcode, data, cap);
    case DoPing(rng, data, cap) =>
      PostedFrame(x.s.role, rng, OP_PING, data, cap);
      PostLogs(x, y, false, x.s, rng, OP_PING, data, cap);
    case DoPong(rng, data, cap) =>
      PostedFrame(x.s.role, rng, OP_PONG, data, cap);
      PostLogs(x, y, false, x.s, rng, OP_PONG, data, cap);
    case DoClose(rng, code, cap) =>
      PostedFrame(x.s.role, rng, OP_CLOSE, ClosePayload(code), cap);
      PostLogs(x, y, x.s.closeSent, MarkCloseSent(x.s), rng, OP_CLOSE, ClosePayload(code), cap);
      CloseRoundTrip(code);
  }

  lemma PostLogs(x: Side, y: Side, refused: bool, s1: State, rng: Option<Key>, opcode: byte, data: seq<byte>, cap: nat)
    requires |data| < TWO63
    ensures var sent := PostFrame(x, y, refused, s1, rng, opcode, data, cap).0.sent;
      if refused || !CanBuild(x.s.role, rng, |data|, cap) then sent == x.sent
      else EventsOf(sent) == EventsOf(x.sent) + [EventOf(SentFrame(x.s.role, rng, opcode, data))]
  {
    if !refused && CanBuild(x.s.role, rng, |data|, cap) {
      EventsSnoc(x.sent, SentFrame(x.s.role, rng, opcode, data));
    }
  }

  lemma {:induction false} SentIsAsked(sys: System, limit: nat, turns: seq<Turn>)
    requires Consistent(sys, limit) && limit < TWO63
    requires forall i :: 0 <= i < |turns| ==> Proper(limit, turns[i].act)
    ensures var end := Run(sys, limit, turns);
      && EventsOf(end.client.sent) == EventsOf(sys.client.sent) + Asked(sys, limit, turns, true)
      && EventsOf(end.server.sent) == EventsOf(sys.server.sent) + Asked(sys, limit, turns, false)
    decreases |turns|
  {
    hide Consistent, Next, PostedBy, EventsOf;
    if turns != [] {
      NextPosts(sys, limit, turns[0]);
      SentIsAsked(Next(sys, limit, turns[0]), limit, turns[1..]);
    }
  }

  lemma NextPosts(sys: System, limit: nat, turn: Turn)
    requires Consistent(sys, limit) && limit < TWO63 && Proper(limit, turn.act)
    ensures var next := Next(sys, limit, turn);
      && EventsOf(next.client.sent) == EventsOf(sys.client.sent) + PostedBy(sys, limit, turn, true)
      && EventsOf(next.server.sent) == EventsOf(sys.server.sent) + PostedBy(sys, limit, turn, false)
  {
    hide Move, Posted, EventsOf, Pair;
    PairIs(sys.client, sys.server, limit);
    PairSymmetric(sys.client, sys.server, limit);
    if turn.byClient {
      MovePosts(sys.client, sys.server, limit, turn.act);
      OwnMove(sys.client, sys.server, turn.act);
    } else {
      MovePosts(sys.server, sys.client, limit, turn.act);
      OwnMove(sys.server, sys.client, turn.act);
    }
  }

  // ----- The main result -----

  /** Both sides have the guarantees at the end of the run, with respect to what the other side asked to send. */
  ghost predicate Safe(start: System, limit: nat, turns: seq<Turn>)
    requires Consistent(start, limit) && limit < TWO63
    requires forall i :: 0 <= i < |turns| ==> Proper(limit, turns[i].act)
  {
    var end := Run(start, limit, turns);
    && Guarantees(end.client, Asked(start, limit, turns, true), Asked(start, limit, turns, false))
    && Guarantees(end.server, Asked(start, limit, turns, false), Asked(start, limit, turns, true))
  }

  /** A side that had seen the peer's Close before sending its own, after n calls, ends with every message. */
  ghost predicate Complete(start: System, limit: nat, turns: seq<Turn>, n: nat)
    requires Consistent(start, limit) && limit < TWO63 && n <= |turns|
    requires forall i :: 0 <= i < |turns| ==> Proper(limit, turns[i].act)
  {
    var mid, end := Run(start, limit, turns[..n]), Run(start, limit, turns);
    && (ClosedByPeer(mid.client) ==> Messages(Got(end.client)) == Messages(Asked(start, limit, turns, false)))
    && (ClosedByPeer(mid.server) ==> Messages(Got(end.server)) == Messages(Asked(start, limit, turns, true)))
  }

  /**
   * Safety of the whole protocol: in every run of two endpoints that make proper calls with payloads
   * up to `limit`, where both buffers hold two such payloads, both sides have the guarantees with
   * respect to the data that the other side passed to its successful sends; and a side that at some
   * point of the run had seen the peer's Close before sending its own has, from there on, every
   * message of the peer.
   */
  lemma RunsAreSafe(clientMsg: seq<byte>, serverMsg: seq<byte>, limit: nat, turns: seq<Turn>)
    requires 2 * limit <= |clientMsg| < TWO63 && 2 * limit <= |serverMsg| < TWO63
    requires forall i :: 0 <= i < |turns| ==> Proper(limit, turns[i].act)
    ensures Consistent(Start(clientMsg, serverMsg), limit)
    ensures Safe(Start(clientMsg, serverMsg), limit, turns)
    ensures forall n :: 0 <= n <= |turns| ==> Complete(Start(clientMsg, serverMsg), limit, turns, n)
  {
    hide Consistent, Run, Asked, Guarantees, ClosedByPeer, Messages, Got;
    StartConsistent(clientMsg, serverMsg, limit);
    StartAsked(clientMsg, serverMsg, limit, turns);
    RunGuarantees(Start(clientMsg, serverMsg), limit, turns);
    forall n | 0 <= n <= |turns| ensures Complete(Start(clientMsg, serverMsg), limit, turns, n) {
      CompleteFrom(Start(clientMsg, serverMsg), limit, turns, n);
    }
  }

  lemma StartAsked(clientMsg: seq<byte>, serverMsg: seq<byte>, limit: nat, turns: seq<Turn>)
    requires limit < TWO63 && Consistent(Start(clientMsg, serverMsg), limit)
    requires forall i :: 0 <= i < |turns| ==> Proper(limit, turns[i].act)
    ensures var start := Start(clientMsg, serverMsg);
      var end := Run(start, limit, turns);
      && EventsOf(end.client.sent) == Asked(start, limit, turns, true)
      && EventsOf(end.server.sent) == Asked(start, limit, turns, false)
  {
    hide Run, Asked, Consistent;
    SentIsAsked(Start(clientMsg, serverMsg), limit, turns);
    assert forall es: seq<Delivery> :: [] + es == es;
  }

  lemma RunGuarantees(start: System, limit: nat, turns: seq<Turn>)
    requires Consistent(start, limit) && limit < TWO63
    requires forall i :: 0 <= i < |turns| ==> Proper(limit, turns[i].act)
    ensures var end := Run(start, limit, turns);
      && Guarantees(end.client, EventsOf(end.client.sent), EventsOf(end.server.sent))
      && Guarantees(end.server, EventsOf(end.server.sent), EventsOf(end.client.sent))
  {
    hide Run, Pair, Guarantees;
    var end := Run(start, limit, turns);
    PairGuarantees(end.client, end.server, limit);
    PairSymmetric(end.client, end.server, limit);
    PairGuarantees(end.server, end.client, limit);
  }

  lemma CompleteFrom(start: System, limit: nat, turns: seq<Turn>, n: nat)
    requires Consistent(start, limit) && limit < TWO63 && n <= |turns|
    requires forall i :: 0 <= i < |turns| ==> Proper(limit, turns[i].act)
    ensures var mid, end := Run(start, limit, turns[..n]), Run(start, limit, turns);
      && (ClosedByPeer(mid.client) ==> Messages(Got(end.client)) == Messages(EventsOf(end.server.sent)))
      && (ClosedByPeer(mid.server) ==> Messages(Got(end.server)) == Messages(EventsOf(end.client.sent)))
  {
    hide Run, Pair, ClosedByPeer, Messages, Got, SawClose, EventsOf;
    var mid := Run(start, limit, turns[..n]);
    RunSplit(start, limit, turns, n);
    HasAllRun(mid, limit, turns[n..]);
    PairSymmetric(mid.client, mid.server, limit);
    PairIs(mid.client, mid.server, limit);
    if ClosedByPeer(mid.client) {
      HasAllBegins(mid.client, mid.server, limit);
    }
    if ClosedByPeer(mid.server) {
      HasAllBegins(mid.server, mid.client, limit);
    }
  }
}
