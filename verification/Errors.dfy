/**
 * When exactly a connection in OPEN reports a protocol error, for every byte string: in terms of the
 * frames received so far, with no connection state (sections 5.1 to 5.6 and 8.1 of RFC 6455).
 */
module Errors {
  import opened Bytes
  import opened FrameHeader
  import opened ConnSpec
  import opened Session
  import opened Stream
  import Utf8

  // ----- The rules, over the history of frames -----

  predicate IsData(f: Frame) {
    !IsControl(f.h.opcode)
  }

  /** The last data frame left its message unfinished. */
  predicate InProgress(past: seq<Frame>) {
    past != [] &&
    var last := past[|past| - 1];
    if IsData(last) then !last.h.fin else InProgress(past[..|past| - 1])
  }

  /** The opcode of the message that the last data frame belongs to. */
  function MessageOpcode(past: seq<Frame>): byte {
    if past == [] then 0
    else
      var last, before := past[|past| - 1], past[..|past| - 1];
      if IsData(last) && last.h.opcode != OP_CONTINUATION then last.h.opcode else MessageOpcode(before)
  }

  /** The unmasked payloads of that message, joined in order; kept after the message is complete. */
  function Collected(past: seq<Frame>): seq<byte> {
    if past == [] then []
    else
      var last, before := past[|past| - 1], past[..|past| - 1];
      if !IsData(last) then Collected(before)
      else if last.h.opcode == OP_CONTINUATION then Collected(before) + Clear(last)
      else Clear(last)
  }

  predicate NoRsv(f: Frame) {
    !f.h.rsv1 && !f.h.rsv2 && !f.h.rsv3
  }

  predicate MaskRule(role: Role, f: Frame) {
    role == SERVER ==> f.h.masked
  }

  predicate ControlRule(f: Frame) {
    IsControl(f.h.opcode) ==>
      f.h.fin && |f.payload| <= 125 && f.h.opcode in {0x8, 0x9, 0xA}
  }

  /** A message starts with text or binary and goes on with continuations only. */
  predicate FragmentRule(past: seq<Frame>, f: Frame) {
    IsData(f) ==> if InProgress(past) then f.h.opcode == 0x0 else f.h.opcode in {0x1, 0x2}
  }

  /** The bytes of the last message, delivered or not, count against the capacity. */
  predicate CapacityRule(cap: nat, past: seq<Frame>, f: Frame) {
    |Collected(past)| + |f.payload| <= cap
  }

  ghost predicate TextRule(past: seq<Frame>, f: Frame) {
    IsData(f) && MessageOpcode(past + [f]) == 0x1 ==>
      if f.h.fin then Utf8.WellFormed(Collected(past + [f])) else Utf8.Viable(Collected(past + [f]))
  }

  ghost predicate Legal(role: Role, cap: nat, past: seq<Frame>, f: Frame) {
    && NoRsv(f) && MaskRule(role, f) && ControlRule(f) && FragmentRule(past, f)
    && CapacityRule(cap, past, f) && TextRule(past, f)
  }

  /** Every frame is legal after the ones before it, and none is a Close. */
  ghost predicate LegalRun(role: Role, cap: nat, fs: seq<Frame>) {
    forall i :: 0 <= i < |fs| ==>
      ValidFrame(fs[i]) && fs[i].h.opcode != OP_CLOSE && Legal(role, cap, fs[..i], fs[i])
  }

  /** What comes next cannot be accepted: the header, the announced length, or the whole frame. */
  ghost predicate Violation(role: Role, cap: nat, past: seq<Frame>, rest: seq<byte>) {
    match Parse(rest)
    case NeedMore => false
    case Bad => true
    case Parsed(h) =>
      || |Collected(past)| + h.payloadLen > cap
      || (h.headerLen + h.payloadLen <= |rest| &&
          !Legal(role, cap, past, Frame(h, rest[h.headerLen..h.headerLen + h.payloadLen])))
  }

  /** The input is legal frames followed by a violation. */
  ghost predicate Violates(role: Role, cap: nat, input: seq<byte>) {
    exists fs: seq<Frame>, rest: seq<byte> ::
      LegalRun(role, cap, fs) && input == Wires(fs) + rest && Violation(role, cap, fs, rest)
  }

  /** An error is reported before any Close. */
  predicate ErrorBeforeClose(events: seq<Delivery>) {
    exists i :: 0 <= i < |events| && events[i] == Error && forall j :: 0 <= j < i ==> !events[j].Close?
  }

  predicate Harmless(es: seq<Delivery>) {
    forall e :: e in es ==> !e.Close? && e != Error
  }

  // ----- The rules are what the frame machine checks -----

  ghost function CoreAfter(role: Role, cap: nat, past: seq<Frame>): Core {
    Core(role, cap, OPEN, InProgress(past), MessageOpcode(past), Collected(past))
  }

  lemma LegalIsAcceptable(role: Role, cap: nat, past: seq<Frame>, f: Frame)
    requires ValidFrame(f)
    ensures Acceptable(CoreAfter(role, cap, past), f) <==> Legal(role, cap, past, f)
  {
    assert (past + [f])[..|past|] == past;
    var c := CoreAfter(role, cap, past);
    assert HeaderOk(role, c.inMessage, f.h) <==>
      NoRsv(f) && MaskRule(role, f) && ControlRule(f) && FragmentRule(past, f);
    if FragmentRule(past, f) && IsData(f) {
      assert OpcodeAfter(c, f.h) == MessageOpcode(past + [f]);
      assert AccAfter(c, f) == Collected(past + [f]) by {
        assert [] + Clear(f) == Clear(f);
      }
    }
  }

  lemma LegalSteps(role: Role, cap: nat, past: seq<Frame>, f: Frame)
    requires ValidFrame(f) && f.h.opcode != OP_CLOSE && Legal(role, cap, past, f)
    ensures var (c1, es) := Step(CoreAfter(role, cap, past), f);
      c1 == CoreAfter(role, cap, past + [f]) && Harmless(es)
  {
    hide Legal, Acceptable, Clear, CloseCodeOf;
    LegalIsAcceptable(role, cap, past, f);
    HistoryNext(past, f);
    assert Acceptable(CoreAfter(role, cap, past), f);
    LegalFragment(role, cap, past, f);
    assert [] + Clear(f) == Clear(f);
  }

  lemma LegalFragment(role: Role, cap: nat, past: seq<Frame>, f: Frame)
    requires Legal(role, cap, past, f)
    ensures FragmentRule(past, f) && ControlRule(f)
  {
  }

  /** The history after one more frame. */
  lemma HistoryNext(past: seq<Frame>, f: Frame)
    ensures InProgress(past + [f]) == if IsData(f) then !f.h.fin else InProgress(past)
    ensures MessageOpcode(past + [f]) ==
      if IsData(f) && f.h.opcode != OP_CONTINUATION then f.h.opcode else MessageOpcode(past)
    ensures Collected(past + [f]) ==
      if !IsData(f) then Collected(past)
      else if f.h.opcode == OP_CONTINUATION then Collected(past) + Clear(f) else Clear(f)
  {
    hide Clear;
    assert (past + [f])[..|past|] == past;
  }

  lemma LegalFrames(role: Role, cap: nat, past: seq<Frame>, fs: seq<Frame>)
    requires LegalRun(role, cap, past + fs)
    ensures forall f :: f in fs ==> ValidFrame(f)
  {
    forall f | f in fs ensures ValidFrame(f) {
      var i :| 0 <= i < |fs| && fs[i] == f;
      assert (past + fs)[|past| + i] == f;
    }
  }

  lemma NextLegal(role: Role, cap: nat, past: seq<Frame>, fs: seq<Frame>)
    requires LegalRun(role, cap, past + fs) && fs != []
    ensures ValidFrame(fs[0]) && fs[0].h.opcode != OP_CLOSE && Legal(role, cap, past, fs[0])
    ensures LegalRun(role, cap, (past + [fs[0]]) + fs[1..]) && (past + [fs[0]]) + fs[1..] == past + fs
  {
    var all := past + fs;
    assert all[|past|] == fs[0] && all[..|past|] == past;
    assert all == (past + [fs[0]]) + fs[1..];
  }

  lemma {:induction false} LegalRunSteps(role: Role, cap: nat, past: seq<Frame>, fs: seq<Frame>)
    requires LegalRun(role, cap, past + fs)
    ensures Steps(CoreAfter(role, cap, past), fs).0 == CoreAfter(role, cap, past + fs)
    ensures Harmless(Steps(CoreAfter(role, cap, past), fs).1)
    decreases |fs|
  {
    if fs == [] {
      assert past + fs == past;
    } else {
      NextLegal(role, cap, past, fs);
      LegalSteps(role, cap, past, fs[0]);
      LegalRunSteps(role, cap, past + [fs[0]], fs[1..]);
    }
  }

  /** A violation makes the very next event an error. */
  lemma ViolationReads(role: Role, cap: nat, past: seq<Frame>, rest: seq<byte>)
    requires Violation(role, cap, past, rest)
    ensures Read(CoreAfter(role, cap, past), rest).events == [Error]
  {
    var c := CoreAfter(role, cap, past);
    if !HeaderRefused(c, rest) {
      HeadFrameIs(rest);
      var f := HeadFrame(rest).value;
      LegalIsAcceptable(role, cap, past, f);
      assert [Error] + [] == [Error];
    }
  }

  /** Reading on from a legal history, one legal frame further. */
  lemma ReadLegal(role: Role, cap: nat, past: seq<Frame>, f: Frame, tail: seq<byte>)
    requires ValidFrame(f) && f.h.opcode != OP_CLOSE && Legal(role, cap, past, f)
    ensures ErrorBeforeClose(Read(CoreAfter(role, cap, past), Wire(f) + tail).events) <==>
            ErrorBeforeClose(Read(CoreAfter(role, cap, past + [f]), tail).events)
  {
    var c := CoreAfter(role, cap, past);
    LegalSteps(role, cap, past, f);
    ReadOne(c, f, tail);
    DropHarmless(Step(c, f).1, Read(Step(c, f).0, tail).events);
  }

  /** A Close that is acceptable ends the time in OPEN without an error. */
  lemma ReadClose(c: Core, f: Frame, tail: seq<byte>)
    requires ValidFrame(f) && c.status == OPEN && f.h.opcode == OP_CLOSE && Acceptable(c, f)
    ensures !ErrorBeforeClose(Read(c, Wire(f) + tail).events)
  {
    ReadOne(c, f, tail);
    var es := Step(c, f).1;
    assert es[0].Close?;
    assert Read(c, Wire(f) + tail).events[0].Close?;
  }

  /** Without a violation at this point, an error before any Close needs one more legal frame. */
  lemma NextIsLegal(role: Role, cap: nat, past: seq<Frame>, rest: seq<byte>) returns (f: Frame)
    requires ErrorBeforeClose(Read(CoreAfter(role, cap, past), rest).events)
    requires !Violation(role, cap, past, rest)
    ensures ValidFrame(f) && f.h.opcode != OP_CLOSE && Legal(role, cap, past, f) && Wire(f) <= rest && |Wire(f)| > 0
  {
    var c := CoreAfter(role, cap, past);
    assert !HeaderRefused(c, rest) && HeadFrame(rest).Some?;
    HeadFrameIs(rest);
    f := HeadFrame(rest).value;
    LegalIsAcceptable(role, cap, past, f);
    if f.h.opcode == OP_CLOSE {
      assert rest == Wire(f) + rest[|Wire(f)|..];
      ReadClose(c, f, rest[|Wire(f)|..]);
    }
  }

  /** After `past`, the bytes are the legal frames `fs` and then the violation `bad`. */
  ghost predicate Cause(role: Role, cap: nat, past: seq<Frame>, bytes: seq<byte>, fs: seq<Frame>, bad: seq<byte>) {
    && (forall f :: f in fs ==> ValidFrame(f))
    && LegalRun(role, cap, past + fs)
    && bytes == Wires(fs) + bad
    && Violation(role, cap, past + fs, bad)
  }

  lemma CauseHere(role: Role, cap: nat, past: seq<Frame>, bytes: seq<byte>)
    requires LegalRun(role, cap, past) && Violation(role, cap, past, bytes)
    ensures Cause(role, cap, past, bytes, [], bytes)
  {
    assert past + [] == past && Wires([]) + bytes == bytes;
  }

  lemma CauseLater(role: Role, cap: nat, past: seq<Frame>, f: Frame, tail: seq<byte>, fs: seq<Frame>, bad: seq<byte>)
    requires ValidFrame(f) && Cause(role, cap, past + [f], tail, fs, bad)
    ensures Cause(role, cap, past, Wire(f) + tail, [f] + fs, bad)
  {
    hide ValidFrame, Wire, Wires, LegalRun, Violation;
    assert past + ([f] + fs) == (past + [f]) + fs;
    WiresCons(f, fs, bad);
  }

  /** Reading on from a legal history: an error before any Close comes from a violation. */
  lemma {:induction false} ErrorHasCause(role: Role, cap: nat, past: seq<Frame>, bytes: seq<byte>)
    returns (fs: seq<Frame>, bad: seq<byte>)
    requires LegalRun(role, cap, past)
    requires ErrorBeforeClose(Read(CoreAfter(role, cap, past), bytes).events)
    ensures Cause(role, cap, past, bytes, fs, bad)
    decreases |bytes|
  {
    if Violation(role, cap, past, bytes) {
      CauseHere(role, cap, past, bytes);
      return [], bytes;
    }
    var f := NextIsLegal(role, cap, past, bytes);
    var tail := bytes[|Wire(f)|..];
    assert bytes == Wire(f) + tail;
    ReadLegal(role, cap, past, f, tail);
    LegalRunExtends(role, cap, past, f);
    var more;
    more, bad := ErrorHasCause(role, cap, past + [f], tail);
    CauseLater(role, cap, past, f, tail, more, bad);
    fs := [f] + more;
  }

  lemma LegalRunExtends(role: Role, cap: nat, past: seq<Frame>, f: Frame)
    requires LegalRun(role, cap, past)
    requires ValidFrame(f) && f.h.opcode != OP_CLOSE && Legal(role, cap, past, f)
    ensures LegalRun(role, cap, past + [f])
  {
    var all := past + [f];
    forall i | 0 <= i < |all|
      ensures ValidFrame(all[i]) && all[i].h.opcode != OP_CLOSE && Legal(role, cap, all[..i], all[i])
    {
      assert all[..i] == past[..i];
    }
  }

  lemma DropHarmless(es: seq<Delivery>, more: seq<Delivery>)
    requires Harmless(es)
    ensures ErrorBeforeClose(es + more) <==> ErrorBeforeClose(more)
  {
    var all := es + more;
    forall k | 0 <= k < |es| ensures all[k] != Error {
      assert es[k] in es;
    }
    if ErrorBeforeClose(all) {
      var i :| 0 <= i < |all| && all[i] == Error && forall j :: 0 <= j < i ==> !all[j].Close?;
      forall j | 0 <= j < i - |es| ensures !more[j].Close? {
        assert all[|es| + j] == more[j];
      }
      assert more[i - |es|] == Error;
    }
    if ErrorBeforeClose(more) {
      var i :| 0 <= i < |more| && more[i] == Error && forall j :: 0 <= j < i ==> !more[j].Close?;
      forall j | 0 <= j < |es| + i ensures !all[j].Close? {
        if j < |es| { assert es[j] in es; }
      }
      assert all[|es| + i] == Error;
    }
  }

  /**
   * Exact error characterisation: a fresh connection that only receives reports an error while open
   * if and only if its input is a run of legal frames followed by a violation.
   */
  lemma ErrorIffViolation(role: Role, msg: seq<byte>, input: seq<byte>)
    requires |msg| < TWO63
    ensures ErrorBeforeClose(FeedBytes(Init(role, msg), input).events) <==> Violates(role, |msg|, input)
  {
    var cap := |msg|;
    var c := CoreAfter(role, cap, []);
    InitSound(role, msg);
    FeedRefines(Init(role, msg), input);
    assert Staged(Init(role, msg)) + input == input;
    if ErrorBeforeClose(Read(c, input).events) {
      var fs, bad := ErrorHasCause(role, cap, [], input);
      assert [] + fs == fs;
    }
    if Violates(role, cap, input) {
      var fs: seq<Frame>, rest: seq<byte> :|
        LegalRun(role, cap, fs) && input == Wires(fs) + rest && Violation(role, cap, fs, rest);
      ViolationSeen(role, cap, fs, rest);
    }
  }

  lemma ViolationSeen(role: Role, cap: nat, fs: seq<Frame>, rest: seq<byte>)
    requires LegalRun(role, cap, fs) && Violation(role, cap, fs, rest)
    ensures forall f :: f in fs ==> ValidFrame(f)
    ensures ErrorBeforeClose(Read(CoreAfter(role, cap, []), Wires(fs) + rest).events)
  {
    var c := CoreAfter(role, cap, []);
    assert [] + fs == fs;
    LegalFrames(role, cap, [], fs);
    LegalRunSteps(role, cap, [], fs);
    ReadFrames(c, fs, rest);
    ViolationReads(role, cap, fs, rest);
    var es := Steps(c, fs).1;
    assert Read(c, Wires(fs) + rest).events == es + [Error];
    assert [Error][0] == Error;
    DropHarmless(es, [Error]);
  }

  /**
   * The shared buffer after any legal frames and any part of a further one: it starts with exactly
   * the unmasked fragments of the current message, and the part is staged behind them.
   */
  lemma BufferHoldsMessage(role: Role, msg: seq<byte>, fs: seq<Frame>, part: seq<byte>)
    requires |msg| < TWO63 && LegalRun(role, |msg|, fs)
    requires HeadFrame(part) == None && !HeaderRefused(CoreAfter(role, |msg|, fs), part)
    ensures forall f :: f in fs ==> ValidFrame(f)
    ensures var s := FeedBytes(Init(role, msg), Wires(fs) + part).s;
      && Sound(s) && s.status == OPEN && s.pending == EV_NONE
      && s.inMessage == InProgress(fs) && s.msgOpcode == MessageOpcode(fs)
      && s.msg[..s.msgLen] == Collected(fs)
      && Staged(s) == part && s.msgLen + s.got <= |s.msg| == |msg|
  {
    hide TakeByte, FeedBytes, Parse, HeadFrame, HeaderRefused, LegalRun, InProgress, MessageOpcode,
      Collected, Wires, ValidFrame;
    var c := CoreAfter(role, |msg|, []);
    FreshHistory();
    InitSound(role, msg);
    assert [] + fs == fs;
    LegalFrames(role, |msg|, [], fs);
    LegalRunSteps(role, |msg|, [], fs);
    ReadFrames(c, fs, part);
    ReadPart(CoreAfter(role, |msg|, fs), part);
    var input := Wires(fs) + part;
    FeedBytesReady(Init(role, msg), input);
    FeedRefines(Init(role, msg), input);
    assert [] + input == input;
  }

  lemma FreshHistory()
    ensures InProgress([]) == false && MessageOpcode([]) == 0 && Collected([]) == []
  {
  }

  lemma ReadPart(c: Core, part: seq<byte>)
    requires c.status != CLOSED && HeadFrame(part) == None && !HeaderRefused(c, part)
    ensures Read(c, part) == Reading(c, [], [], part)
  {
  }
}
