/** Receiving with draining: what an application sees, however the input was cut. */
module Session {
  import opened Bytes
  import opened ConnSpec
  import FrameHeader
  import Utf8

  /** An event as the application reads it, with its bytes. */
  datatype Delivery =
    | Message(opcode: byte, data: seq<byte>)
    | Ping(data: seq<byte>)
    | Pong(data: seq<byte>)
    | Close(code: Code)
    | Error

  function Pending(s: State): Delivery
    requires EventOk(s) && s.pending != EV_NONE
  {
    match s.pending
    case EV_MESSAGE => Message(s.ev.opcode, s.msg[s.ev.off..s.ev.off + s.ev.len])
    case EV_PING => Ping(s.msg[s.ev.off..s.ev.off + s.ev.len])
    case EV_PONG => Pong(s.msg[s.ev.off..s.ev.off + s.ev.len])
    case EV_CLOSE => Close(s.ev.code)
    case EV_ERROR => Error
  }

  /** The events that polling until EV_NONE hands over. */
  function Drained(s: State): seq<Delivery>
    requires EventOk(s)
  {
    if s.pending == EV_NONE then [] else [Pending(s)]
  }

  /** The result of feeding input: final state, events in order, bytes consumed. */
  datatype Outcome = Outcome(s: State, events: seq<Delivery>, used: nat)

  function Then(first: Outcome, second: Outcome): Outcome {
    Outcome(second.s, first.events + second.events, first.used + second.used)
  }

  predicate Ready(s: State) {
    Valid(s) && s.pending == EV_NONE
  }

  predicate Stalled(s: State) {
    s.status == CLOSED || !CanTake(s)
  }

  lemma PollReady(s: State)
    requires Valid(s)
    ensures Ready(Poll(s)) && Poll(s).status == s.status
  {
  }

  /** One byte at a time, draining after each. */
  function FeedBytes(s: State, input: seq<byte>): (r: Outcome)
    requires Ready(s)
    decreases |input|
  {
    if input == [] || Stalled(s) then Outcome(s, [], 0)
    else
      TakeByteValid(s, input[0]);
      var s1 := TakeByte(s, input[0]).0;
      PollReady(s1);
      Then(Outcome(s1, Drained(s1), 1), FeedBytes(Poll(s1), input[1..]))
  }

  /** `ws_conn_recv` on what is left of a chunk, then draining, until nothing more is consumed. */
  function FeedChunk(s: State, chunk: seq<byte>): (r: Outcome)
    requires Ready(s)
    decreases |chunk|
  {
    RecvFrameValid(s, chunk);
    var (s1, n) := Recv(s, chunk);
    var first := Outcome(Poll(s1), Drained(s1), n);
    if n == 0 then first else Then(first, FeedChunk(Poll(s1), chunk[n..]))
  }

  function FeedChunks(s: State, chunks: seq<seq<byte>>): (r: Outcome)
    requires Ready(s)
    decreases |chunks|
  {
    if chunks == [] then Outcome(s, [], 0)
    else
      var first := FeedChunk(s, chunks[0]);
      FeedChunkReady(s, chunks[0]);
      Then(first, FeedChunks(first.s, chunks[1..]))
  }

  function Flatten(chunks: seq<seq<byte>>): seq<byte> {
    if chunks == [] then [] else chunks[0] + Flatten(chunks[1..])
  }

  lemma {:induction false} FeedChunkReady(s: State, chunk: seq<byte>)
    requires Ready(s)
    ensures Ready(FeedChunk(s, chunk).s)
    decreases |chunk|
  {
    RecvFrameValid(s, chunk);
    var (s1, n) := Recv(s, chunk);
    if n > 0 {
      FeedChunkReady(Poll(s1), chunk[n..]);
    }
  }

  lemma {:induction false} FeedBytesReady(s: State, input: seq<byte>)
    requires Ready(s)
    ensures Ready(FeedBytes(s, input).s) && FeedBytes(s, input).used <= |input|
    ensures FeedBytes(s, input).used < |input| ==> Stalled(FeedBytes(s, input).s)
    decreases |input|
  {
    hide Valid, TakeByte, Drained;
    if input != [] && !Stalled(s) {
      TakeByteValid(s, input[0]);
      PollReady(TakeByte(s, input[0]).0);
      FeedBytesReady(Poll(TakeByte(s, input[0]).0), input[1..]);
    }
  }

  /** A byte that does not end the call leaves no event and does not close. */
  lemma QuietByte(s: State, b: byte)
    requires Ready(s) && !Stalled(s) && !TakeByte(s, b).1
    ensures var s1 := TakeByte(s, b).0;
      Ready(s1) && s1.status == s.status && CanTake(s1) && Drained(s1) == [] && Poll(s1) == s1
  {
    TakeByteValid(s, b);
    if !s.hdrDone && PushHdr(s, b).rxhdrLen == HDR_MAX {
      ParseDecidesAtMax(PushHdr(s, b));
    }
  }

  lemma ParseDecidesAtMax(s: State)
    requires Sized(s) && s.rxhdrLen == HDR_MAX
    ensures !FrameHeader.Parse(Hdr(s)).NeedMore?
  {
    FrameHeader.ParseDecides(Hdr(s));
  }

  /** The outcome of one receive call followed by draining. */
  function RecvCall(s: State, buf: seq<byte>): (r: Outcome)
    requires Ready(s)
    ensures Ready(r.s) && r.used <= |buf|
  {
    RecvFrameValid(s, buf);
    PollReady(RecvFrame(s, buf).0);
    var (s1, n) := RecvFrame(s, buf);
    Outcome(Poll(s1), Drained(s1), n)
  }

  /** A call is its first byte, and the call on the rest if that byte is quiet. */
  lemma CallUnfold(s: State, buf: seq<byte>)
    requires Ready(s) && !Stalled(s) && buf != []
    ensures Valid(TakeByte(s, buf[0]).0)
    ensures var (t, ended) := TakeByte(s, buf[0]);
      if ended then RecvCall(s, buf) == Outcome(Poll(t), Drained(t), 1)
      else Ready(t) && RecvCall(s, buf) == Then(Outcome(t, [], 1), RecvCall(t, buf[1..]))
  {
    TakeByteValid(s, buf[0]);
    if !TakeByte(s, buf[0]).1 {
      QuietByte(s, buf[0]);
    }
    hide Valid, TakeByte;
  }

  /** One call consumes what byte-at-a-time feeding consumes up to the end of the frame. */
  lemma {:induction false} RecvIsFeed(s: State, buf: seq<byte>)
    requires Ready(s) && !Stalled(s)
    ensures buf != [] ==> RecvCall(s, buf).used > 0
    ensures FeedBytes(s, buf) == Then(RecvCall(s, buf), FeedBytes(RecvCall(s, buf).s, buf[RecvCall(s, buf).used..]))
    decreases |buf|
  {
    hide Valid, TakeByte, Drained, RecvFrame;
    if buf == [] {
      CallEmpty(s);
    } else {
      var (t, ended) := TakeByte(s, buf[0]);
      CallUnfold(s, buf);
      PollReady(t);
      if !ended {
        QuietByte(s, buf[0]);
        RecvIsFeed(t, buf[1..]);
        var later := RecvCall(t, buf[1..]);
        assert buf[1..][later.used..] == buf[later.used + 1..];
        ThenAssoc(Outcome(t, [], 1), later, FeedBytes(later.s, buf[1..][later.used..]));
      }
    }
  }

  lemma CallEmpty(s: State)
    requires Ready(s)
    ensures RecvCall(s, []) == Outcome(s, [], 0)
  {
  }

  /** Chunked and byte-at-a-time feeding agree on one chunk. */
  lemma {:induction false} ChunkIsBytes(s: State, chunk: seq<byte>)
    requires Ready(s)
    ensures FeedChunk(s, chunk) == FeedBytes(s, chunk)
    decreases |chunk|
  {
    ChunkUnfold(s, chunk);
    hide Valid, TakeByte, RecvFrame, RecvCall;
    if s.status != CLOSED && CanTake(s) {
      RecvIsFeed(s, chunk);
      var first := RecvCall(s, chunk);
      if first.used > 0 {
        ChunkIsBytes(first.s, chunk[first.used..]);
      } else {
        CallEmpty(s);
      }
    }
  }

  lemma ChunkUnfold(s: State, chunk: seq<byte>)
    requires Ready(s)
    ensures Stalled(s) ==> FeedChunk(s, chunk) == Outcome(s, [], 0)
    ensures !Stalled(s) ==>
      var first := RecvCall(s, chunk);
      FeedChunk(s, chunk) == if first.used == 0 then first else Then(first, FeedChunk(first.s, chunk[first.used..]))
  {
    hide TakeByte;
    RecvFrameValid(s, chunk);
  }

  lemma ThenAssoc(a: Outcome, b: Outcome, c: Outcome)
    ensures Then(Then(a, b), c) == Then(a, Then(b, c))
  {
    assert (a.events + b.events) + c.events == a.events + (b.events + c.events);
  }

  /** The first byte of an input, and the rest. */
  lemma FeedUnfold(s: State, input: seq<byte>)
    requires Ready(s) && !Stalled(s) && input != []
    ensures var s1 := TakeByte(s, input[0]).0;
      && Valid(s1) && Ready(Poll(s1))
      && FeedBytes(s, input) == Then(Outcome(s1, Drained(s1), 1), FeedBytes(Poll(s1), input[1..]))
  {
    TakeByteValid(s, input[0]);
    PollReady(TakeByte(s, input[0]).0);
    hide Valid, TakeByte, Drained;
  }

  /** Feeding a then b is feeding a + b. */
  lemma {:induction false} FeedConcat(s: State, a: seq<byte>, b: seq<byte>)
    requires Ready(s)
    ensures Ready(FeedBytes(s, a).s)
    ensures FeedBytes(s, a + b) == Then(FeedBytes(s, a), FeedBytes(FeedBytes(s, a).s, b))
    decreases |a|
  {
    hide FeedBytes, TakeByte, Then, Poll, Drained, Sized, Staging, Utf8.Reachable;
    FeedBytesReady(s, a);
    if a == [] || Stalled(s) {
      FeedConcatBase(s, a, b);
    } else {
      FeedUnfold(s, a);
      FeedUnfold(s, a + b);
      assert (a + b)[0] == a[0] && (a + b)[1..] == a[1..] + b;
      var s1 := TakeByte(s, a[0]).0;
      FeedConcat(Poll(s1), a[1..], b);
      ThenAssoc(Outcome(s1, Drained(s1), 1), FeedBytes(Poll(s1), a[1..]), FeedBytes(FeedBytes(s, a).s, b));
      ThenState(Outcome(s1, Drained(s1), 1), FeedBytes(Poll(s1), a[1..]));
    }
  }

  /** Nothing to feed before b, or nothing that would be taken. */
  lemma FeedConcatBase(s: State, a: seq<byte>, b: seq<byte>)
    requires Ready(s) && (a == [] || Stalled(s))
    ensures FeedBytes(s, a) == Outcome(s, [], 0)
    ensures FeedBytes(s, a + b) == Then(FeedBytes(s, a), FeedBytes(s, b))
  {
    hide Valid, TakeByte;
    assert a == [] ==> a + b == b;
  }

  lemma ThenState(a: Outcome, b: Outcome)
    ensures Then(a, b).s == b.s
  {
  }

  /**
   * Chunking independence: events, consumed count and the complete final state of feeding the chunks,
   * draining after every call, are those of feeding their concatenation byte by byte.
   */
  lemma {:induction false} ChunkingIndependence(s: State, chunks: seq<seq<byte>>)
    requires Ready(s)
    ensures FeedChunks(s, chunks) == FeedBytes(s, Flatten(chunks))
    decreases |chunks|
  {
    if chunks != [] {
      var first := FeedChunk(s, chunks[0]);
      FeedChunkReady(s, chunks[0]);
      ChunkIsBytes(s, chunks[0]);
      ChunkingIndependence(first.s, chunks[1..]);
      FeedConcat(s, chunks[0], Flatten(chunks[1..]));
    }
  }

  /** Two splits of one byte string cannot be told apart. */
  lemma SplitsAgree(s: State, xs: seq<seq<byte>>, ys: seq<seq<byte>>)
    requires Ready(s) && Flatten(xs) == Flatten(ys)
    ensures FeedChunks(s, xs) == FeedChunks(s, ys)
  {
    ChunkingIndependence(s, xs);
    ChunkingIndependence(s, ys);
  }
}
