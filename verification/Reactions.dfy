/** Which bytes make an endpoint close, with which code, and what it writes then. */
module Reactions {
  import opened Bytes
  import opened Protocol
  import opened Frames
  import opened Reader
  import opened Feeder
  import opened Assembler
  import opened Messages
  import opened Endpoint
  import opened Duplex
  import opened Closing

  function TwoByteNumber(b: seq<byte>): int
    requires |b| == 2
  {
    var high: int, low: int := b[0], b[1];
    high * 256 + low
  }

  /** A Close frame with this code, highest byte first, and the first 123 bytes of this reason. */
  predicate Carries(f: Frame, code: int, reason: Text, lib: TextLib) {
    && f.fin && f.opCode == 0x8 && 2 <= |f.payload| <= 125
    && TwoByteNumber(f.payload[..2]) == code
    && f.payload[2..] == if |lib.toUtf8(reason)| <= 123 then lib.toUtf8(reason) else lib.toUtf8(reason)[..123]
  }

  /** From x to y the endpoint closed for this event: one Close frame, and otherwise only answers to pings. */
  predicate ClosedFor(e: Env, x: Session, y: Session, ev: Event)
    requires ev.Closing()
  {
    && y.closed && y.closeSent && y.closeCode == ev.code && (ev.CloseReceived? ==> y.closeReceived)
    && x.out <= y.out
    && exists i :: |x.out| <= i < |y.out| && CloseIsAt(e, x, y, ev, i)
  }

  predicate CloseIsAt(e: Env, x: Session, y: Session, ev: Event, i: nat)
    requires ev.Closing() && i < |y.out|
  {
    && Carries(y.out[i], ev.code, ev.reason, e.config.lib) && y.closeReason == e.config.lib.fromUtf8(y.out[i].payload[2..])
    && forall j :: |x.out| <= j < |y.out| && j != i ==> y.out[j].opCode == 0xA
  }

  lemma {:induction false} TwoBytes(code: int, reasonUtf8: seq<byte>)
    requires 0 <= code < 0x1_0000
    ensures var p := ClosePayload(code, reasonUtf8);
      |p| == 2 + |reasonUtf8| && TwoByteNumber(p[..2]) == code && p[2..] == reasonUtf8
  {
    PayloadParts(code, reasonUtf8);
    BigEndianDigit(code % 0x1_0000, 2, 0);
    BigEndianDigit(code % 0x1_0000, 2, 1);
    assert Pow256(1) == 256 && Pow256(0) == 1;
  }

  /** Closing an open session writes exactly one frame. */
  lemma {:induction false} CloseWrites(e: Env, x: Session, code: int, reason: Text)
    requires !x.closed && !x.closeSent && 0 <= code < 0x1_0000
    ensures var y := Close(e, x, code, reason);
      && y.closed && y.closeSent && y.closeCode == code && y.processor == x.processor && y.closeReceived == x.closeReceived
      && |y.out| == |x.out| + 1 && y.out[..|x.out|] == x.out && Carries(y.out[|x.out|], code, reason, e.config.lib)
      && y.closeReason == e.config.lib.fromUtf8(y.out[|x.out|].payload[2..])
  {
    TwoBytes(code, Left(e.config.lib.toUtf8(reason), MAX_REASON));
  }

  lemma {:induction false} EventCode(a: Assembly, s: FrameState, c: Config, ev: Event)
    requires s.Done() && Sound(s) && ev in Handle(a, s, c).events && ev.Closing()
    ensures Handle(a, s, c).events == [ev] && 1000 <= ev.code < 5000
    ensures ev.ErrorEncountered? ==> Handle(a, s, c).next == IDLE && ev.code in {1002, 1007, 1009}
  {
    EventKinds(a, s, c);
    if s.Complete? && IsControl(s.frame.opCode) {
      CloseEventOk(s.frame.payload, c.lib, []);
    }
  }

  /** A finished frame whose handling raises an error or receives a Close closes an open session, with that code. */
  lemma {:induction false} EventCloses(e: Env, x: Session, s: FrameState, ev: Event)
    requires s.Done() && Sound(s) && !x.closed && !x.closeSent
    requires ev in Handle(x.processor.asm, s, e.config).events && ev.Closing()
    ensures var y := OnSession(e, x, s);
      && ClosedFor(e, x, y, ev) && |y.out| == |x.out| + 1 && y.processor.log == x.processor.log + [ev]
      && (ev.ErrorEncountered? ==> y.processor.asm == IDLE && ev.code in {1002, 1007, 1009})
  {
    var step := Handle(x.processor.asm, s, e.config);
    EventCode(x.processor.asm, s, e.config, ev);
    var x1 := x.(processor := Processor(step.next, x.processor.log + step.events));
    ReactOne(e, x1, ev);
    var x2 := if ev.CloseReceived? then x1.(closeReceived := true) else x1;
    CloseWrites(e, x2, ev.code, ev.reason);
    assert OnSession(e, x, s) == Close(e, x2, ev.code, ev.reason);
    assert CloseIsAt(e, x, OnSession(e, x, s), ev, |x.out|);
  }

  /** The timeout closes an open connection with 1001 and starts the reader anew. */
  lemma {:induction false} TimeoutCloses(e: Env, c: Conn)
    requires !c.session.closed && !c.session.closeSent
    ensures var d, reason := Perform(e, c, Timeout), e.config.lib.tr(ReadTimeout);
      && ClosedFor(e, c.session, d.session, ErrorEncountered(1001, reason)) && |d.session.out| == |c.session.out| + 1
      && d.frame == AtHeader && d.rx == (if e.deaf then [] else c.rx)
      && d.session.processor == Processor(IDLE, c.session.processor.log + [ErrorEncountered(1001, reason)])
  {
    var x, reason := c.session, e.config.lib.tr(ReadTimeout);
    var x1 := x.(processor := TimedOut(x.processor, e.config.lib));
    CloseWrites(e, x1, 1001, reason);
    assert Perform(e, c, Timeout).session == Close(e, x1, 1001, reason);
    assert CloseIsAt(e, x, Close(e, x1, 1001, reason), ErrorEncountered(1001, reason), |x.out|);
  }

  // ----- every byte stream -----

  /** A session that is still open, after answering pings. */
  predicate StillOpen(x: Session, y: Session) {
    && !y.closed && !y.closeSent && x.out <= y.out
    && forall j :: |x.out| <= j < |y.out| ==> y.out[j].opCode == 0xA
  }

  lemma {:induction false} OtherEvents(e: Env, x: Session, s: FrameState)
    requires s.Done() && Sound(s) && !x.closed && !x.closeSent && NoClosing(Handle(x.processor.asm, s, e.config).events)
    ensures StillOpen(x, OnSession(e, x, s))
  {
    var step := Handle(x.processor.asm, s, e.config);
    var x1 := x.(processor := Processor(step.next, x.processor.log + step.events));
    EventKinds(x.processor.asm, s, e.config);
    if Quiet(step.events) {
      ReactQuiet(e, x1, step.events);
    } else {
      assert step.events == [step.events[0]];
      ReactOne(e, x1, step.events[0]);
    }
  }

  lemma {:induction false} ClosedLater(e: Env, x: Session, x1: Session, y: Session, ev: Event)
    requires ev.Closing() && StillOpen(x, x1) && ClosedFor(e, x1, y, ev)
    ensures ClosedFor(e, x, y, ev)
  {
    var i :| |x1.out| <= i < |y.out| && CloseIsAt(e, x1, y, ev, i);
    assert forall j :: 0 <= j < |x1.out| ==> y.out[j] == x1.out[j];
    assert CloseIsAt(e, x, y, ev, i);
  }

  lemma {:induction false} ClosedAndPongs(e: Env, x: Session, y: Session, z: Session, ev: Event)
    requires ev.Closing() && ClosedFor(e, x, y, ev) && OnlyPongs(y, z) && (y.closeReceived ==> z.closeReceived)
    ensures ClosedFor(e, x, z, ev)
  {
    var i :| |x.out| <= i < |y.out| && CloseIsAt(e, x, y, ev, i);
    assert forall j :: 0 <= j < |y.out| ==> z.out[j] == y.out[j];
    assert CloseIsAt(e, x, z, ev, i);
  }

  predicate LaterPongs(x: Session, y: Session) {
    OnlyPongs(x, y) && (x.closeReceived ==> y.closeReceived)
  }

  lemma {:induction false} ReactionsLater(e: Env, x: Session, y: Session, events: seq<Event>)
    requires LaterPongs(x, y)
    ensures LaterPongs(x, ReactAll(e, y, events))
    decreases events
  {
    if events != [] {
      ReactionsLater(e, x, React(e, y, events[0]), events[1..]);
    }
  }

  /** What is read after closing. */
  lemma {:induction false} ReadsLater(e: Env, x: Session, buf: seq<byte>)
    requires x.closed && x.closeSent
    ensures LaterPongs(x, Feed(Answering(e), e.config.maxFrame, AtHeader, x, buf).state)
  {
    var h, inv := Answering(e), (y: Session) => LaterPongs(x, y);
    forall y: Session, t: FrameState | inv(y) && t.Done() && Sound(t) ensures inv(h(y, t).0) {
      var step := Handle(y.processor.asm, t, e.config);
      ReactionsLater(e, x, y.(processor := Processor(step.next, y.processor.log + step.events)), step.events);
    }
    FeedPreserves(h, inv, e.config.maxFrame, AtHeader, x, buf);
  }

  /** What the processor alone makes of the bytes, from its log on. */
  function NewEvents(e: Env, s: FrameState, p: Processor, buf: seq<byte>): seq<Event>
    requires Sound(s)
  {
    LogGrows(e.config, s, p, buf);
    Feed(Processing(e.config), e.config.maxFrame, s, p, buf).state.log[|p.log|..]
  }

  lemma {:induction false} NewEventsStep(e: Env, s: FrameState, p: Processor, buf: seq<byte>)
    requires Sound(s) && buf != []
    ensures var (t, rest) := Run(s, buf, e.config.maxFrame);
      NewEvents(e, s, p, buf)
      == if !t.Done() then []
         else Handle(p.asm, t, e.config).events + NewEvents(e, AtHeader, OnDone(p, t, e.config).0, rest)
  {
    var (t, rest) := Run(s, buf, e.config.maxFrame);
    FeedStep(Processing(e.config), e.config.maxFrame, s, p, buf);
    if t.Done() {
      var q := OnDone(p, t, e.config).0;
      LogGrows(e.config, AtHeader, q, rest);
      var all := Feed(Processing(e.config), e.config.maxFrame, AtHeader, q, rest).state.log;
      Suffixes(p.log, Handle(p.asm, t, e.config).events, all);
    }
  }

  lemma {:induction false} Suffixes(log: seq<Event>, events: seq<Event>, all: seq<Event>)
    requires log + events <= all
    ensures all[|log|..] == events + all[|log + events|..]
  {
  }

  /** The rest of a run after a frame that closes: only answers to pings are added. */
  lemma {:induction false} AfterClosing(e: Env, x: Session, t: FrameState, rest: seq<byte>, ev: Event)
    requires t.Done() && Sound(t) && !x.closed && !x.closeSent
    requires ev in Handle(x.processor.asm, t, e.config).events && ev.Closing()
    ensures ClosedFor(e, x, Dispatch(Answering(e), e.config.maxFrame, x, t, rest).state, ev)
  {
    var y := OnSession(e, x, t);
    EventCloses(e, x, t, ev);
    if !Dead(e, y) {
      ReadsLater(e, y, rest);
      ClosedAndPongs(e, x, y, Feed(Answering(e), e.config.maxFrame, AtHeader, y, rest).state, ev);
    }
  }

  lemma {:induction false} FirstOfConcat(a: seq<Event>, b: seq<Event>, n: nat)
    requires n < |a + b| && NoClosing((a + b)[..n]) && (a + b)[n].Closing() && NoClosing(a)
    ensures n >= |a| && (a + b)[n] == b[n - |a|] && NoClosing(b[..n - |a|])
  {
    assert forall i :: 0 <= i < |a| ==> (a + b)[i] == a[i];
    forall i | 0 <= i < n - |a| ensures !b[i].Closing() {
      assert (a + b)[..n][|a| + i] == b[i];
    }
  }

  lemma {:induction false} NoClosingParts(a: seq<Event>, b: seq<Event>)
    requires NoClosing(a + b)
    ensures NoClosing(a) && NoClosing(b)
  {
    assert forall i :: 0 <= i < |a| ==> (a + b)[i] == a[i];
    assert forall i :: 0 <= i < |b| ==> (a + b)[|a| + i] == b[i];
  }

  /** Without an error and without a Close frame from the peer an endpoint stays open. */
  lemma {:induction false} StaysOpen(e: Env, s: FrameState, x: Session, buf: seq<byte>)
    requires Sound(s) && !x.closed && !x.closeSent && NoClosing(NewEvents(e, s, x.processor, buf))
    ensures StillOpen(x, Feed(Answering(e), e.config.maxFrame, s, x, buf).state)
    decreases Weight(s, buf)
  {
    if buf != [] {
      var (t, rest) := Run(s, buf, e.config.maxFrame);
      RunSound(s, buf, e.config.maxFrame);
      NewEventsStep(e, s, x.processor, buf);
      FeedStep(Answering(e), e.config.maxFrame, s, x, buf);
      if t.Done() {
        var step, p := Handle(x.processor.asm, t, e.config), OnDone(x.processor, t, e.config).0;
        NoClosingParts(step.events, NewEvents(e, AtHeader, p, rest));
        FinishingDescends(s, buf, e.config.maxFrame);
        OpenFrame(e, x, t);
        StaysOpen(e, AtHeader, OnSession(e, x, t), rest);
        OpenTwice(x, OnSession(e, x, t), Feed(Answering(e), e.config.maxFrame, AtHeader, OnSession(e, x, t), rest).state);
      }
    }
  }

  lemma {:induction false} OpenTwice(x: Session, y: Session, z: Session)
    requires StillOpen(x, y) && StillOpen(y, z)
    ensures StillOpen(x, z)
  {
    assert forall j :: 0 <= j < |y.out| ==> z.out[j] == y.out[j];
  }

  /** The first error, or the first Close frame from the peer, closes an endpoint, with its code. */
  lemma {:induction false} ClosesAt(e: Env, s: FrameState, x: Session, buf: seq<byte>, n: nat)
    requires Sound(s) && !x.closed && !x.closeSent
    requires var events := NewEvents(e, s, x.processor, buf);
      n < |events| && NoClosing(events[..n]) && events[n].Closing()
    ensures ClosedFor(e, x, Feed(Answering(e), e.config.maxFrame, s, x, buf).state, NewEvents(e, s, x.processor, buf)[n])
    decreases Weight(s, buf)
  {
    var events := NewEvents(e, s, x.processor, buf);
    var (t, rest) := Run(s, buf, e.config.maxFrame);
    RunSound(s, buf, e.config.maxFrame);
    NewEventsStep(e, s, x.processor, buf);
    FeedStep(Answering(e), e.config.maxFrame, s, x, buf);
    var step, p := Handle(x.processor.asm, t, e.config), OnDone(x.processor, t, e.config).0;
    if NoClosing(step.events) {
      FirstOfConcat(step.events, NewEvents(e, AtHeader, p, rest), n);
      FinishingDescends(s, buf, e.config.maxFrame);
      OpenFrame(e, x, t);
      ClosesAt(e, AtHeader, OnSession(e, x, t), rest, n - |step.events|);
      ClosedLater(e, x, OnSession(e, x, t),
                  Feed(Answering(e), e.config.maxFrame, AtHeader, OnSession(e, x, t), rest).state, events[n]);
    } else {
      FirstIsClosing(x.processor.asm, t, e.config, NewEvents(e, AtHeader, p, rest), n);
      AfterClosing(e, x, t, rest, events[n]);
    }
  }

  lemma {:induction false} OpenFrame(e: Env, x: Session, t: FrameState)
    requires t.Done() && Sound(t) && !x.closed && !x.closeSent && NoClosing(Handle(x.processor.asm, t, e.config).events)
    ensures var y := OnSession(e, x, t); StillOpen(x, y) && y.processor == OnDone(x.processor, t, e.config).0 && !Dead(e, y)
  {
    OtherEvents(e, x, t);
    SameProcessor(e, x.(processor := OnDone(x.processor, t, e.config).0), Handle(x.processor.asm, t, e.config).events);
  }

  lemma {:induction false} NoneBefore(log: seq<Event>, n: nat)
    requires n <= |log| && NoClosing(log[..n])
    ensures forall i :: 0 <= i < n ==> !log[i].Closing()
  {
    assert forall i :: 0 <= i < n ==> log[..n][i] == log[i];
  }

  lemma {:induction false} FirstIsClosing(a: Assembly, s: FrameState, c: Config, more: seq<Event>, n: nat)
    requires s.Done() && Sound(s) && !NoClosing(Handle(a, s, c).events)
    requires n < |Handle(a, s, c).events + more| && NoClosing((Handle(a, s, c).events + more)[..n])
    ensures n == 0 && (Handle(a, s, c).events + more)[n] == Handle(a, s, c).events[0]
  {
    EventKinds(a, s, c);
    var events := Handle(a, s, c).events;
    assert |events| == 1 && events[0].Closing();
    assert (events + more)[0] == events[0];
    NoneBefore(events + more, n);
  }

  function FirstClosing(log: seq<Event>): (n: nat)
    requires !NoClosing(log)
    ensures n < |log| && NoClosing(log[..n]) && log[n].Closing()
    decreases |log|
  {
    if log[0].Closing() then 0
    else
      assert log == [log[0]] + log[1..];
      var n := 1 + FirstClosing(log[1..]);
      assert log[..n] == [log[0]] + log[1..][..n - 1];
      n
  }

  /**
   * For every endpoint that is open, at any stage of a frame, and all bytes: it closes if and only if the processor
   * reports an error or a Close frame among the events that the bytes lead to, and it closes for the first of them.
   */
  lemma {:induction false} ClosesAtFirst(e: Env, c: Conn, b: seq<byte>)
    requires Sound(c.frame) && !c.session.closed && !c.session.closeSent
    ensures var events, y := NewEvents(e, c.frame, c.session.processor, c.rx + b), Arrive(e, c, b).session;
      && (y.closed <==> !NoClosing(events)) && (NoClosing(events) ==> StillOpen(c.session, y))
      && forall n :: 0 <= n < |events| && NoClosing(events[..n]) && events[n].Closing() ==>
           ClosedFor(e, c.session, y, events[n])
  {
    var events := NewEvents(e, c.frame, c.session.processor, c.rx + b);
    if NoClosing(events) {
      StaysOpen(e, c.frame, c.session, c.rx + b);
    } else {
      ClosesAt(e, c.frame, c.session, c.rx + b, FirstClosing(events));
    }
    forall n | 0 <= n < |events| && NoClosing(events[..n]) && events[n].Closing()
      ensures ClosedFor(e, c.session, Arrive(e, c, b).session, events[n])
    {
      ClosesAt(e, c.frame, c.session, c.rx + b, n);
    }
  }

  // ----- frames that are refused, data frames out of order, Close frames -----

  predicate Fresh(c: Conn) {
    c.frame == AtHeader && c.rx == [] && !c.session.closed && !c.session.closeSent
  }

  /**
   * From any stage of a frame: bytes that the reader refuses close the connection, with 1009 for a frame that is too
   * large and with 1002 otherwise.
   */
  lemma {:induction false} RefusedCloses(e: Env, c: Conn, b: seq<byte>, reason: ErrorText)
    requires Sound(c.frame) && !c.session.closed && !c.session.closeSent && c.rx + b != []
    requires Run(c.frame, c.rx + b, e.config.maxFrame).0 == Refused(reason)
    ensures var ev := ErrorEncountered(if reason == FrameTooLarge then 1009 else 1002, e.config.lib.tr(reason));
      ClosedFor(e, c.session, Arrive(e, c, b).session, ev)
  {
    RunSound(c.frame, c.rx + b, e.config.maxFrame);
    NewEventsStep(e, c.frame, c.session.processor, c.rx + b);
    ClosesAt(e, c.frame, c.session, c.rx + b, 0);
  }

  /** A frame whose payload is over the limit closes the connection with 1009 as soon as its header has arrived. */
  lemma {:induction false} OversizedCloses(e: Env, c: Conn, fin: bool, opCode: OpCode, masked: bool, key: u32, n: nat,
                                           tail: seq<byte>)
    requires Fresh(c) && HeaderAllowed(fin, opCode, n) && (key != 0 ==> masked)
    requires e.config.maxFrame < n < 0x8000_0000_0000_0000
    ensures var d := Arrive(e, c, HeaderBytes(fin, opCode, masked, key, n) + tail);
      ClosedFor(e, c.session, d.session, ErrorEncountered(1009, e.config.lib.tr(FrameTooLarge)))
  {
    var b := HeaderBytes(fin, opCode, masked, key, n) + tail;
    assert c.rx + b == b;
    OversizedRefused(fin, opCode, masked, key, n, tail, e.config.maxFrame);
    RefusedCloses(e, c, b, FrameTooLarge);
  }

  predicate NoCloseFrames(fs: seq<Frame>) {
    forall i :: 0 <= i < |fs| ==> fs[i].opCode != 0x8
  }

  predicate NoneReceived(log: seq<Event>) {
    forall i :: 0 <= i < |log| ==> !log[i].CloseReceived?
  }

  lemma {:induction false} NoneWithoutFrame(p: Processor, fs: seq<Frame>, c: Config)
    requires NoCloseFrames(fs) && NoneReceived(p.log)
    ensures NoneReceived(Handled(p, fs, c).log)
    decreases fs
  {
    if fs != [] {
      assert fs[0].opCode != 0x8 && forall i :: 0 <= i < |fs[1..]| ==> fs[1..][i] == fs[i + 1];
      NoneWithoutFrame(OnDone(p, Complete(fs[0]), c).0, fs[1..], c);
    }
  }

  lemma {:induction false} NoneSelected(log: seq<Event>)
    requires Select(IsError, log) == [] && NoneReceived(log)
    ensures NoClosing(log)
    decreases |log|
  {
    if log != [] {
      NoneSelected(log[..|log| - 1]);
      assert forall i :: 0 <= i < |log| - 1 ==> log[i] == log[..|log| - 1][i];
    }
  }

  /**
   * The first data frame out of the grammar, over the size or not decodable, with pings and pongs anywhere before it:
   * a new connection that gets the bytes is closed with the code of that fault.
   */
  lemma {:induction false} FaultCloses(e: Env, c: Conn, fs: seq<Frame>, f: Frame)
    requires Fresh(c) && c.session.processor == Processor(IDLE, []) && NoCloseFrames(fs)
    requires AllLegal(fs + [f], e.config.maxFrame) && !IsControl(f.opCode)
    requires var d := DataPart(fs) + [f]; NoFault(d, |d| - 1, e.config) && FaultAt(d, |d| - 1, e.config).Some?
    ensures var d := DataPart(fs) + [f];
      var fault := FaultAt(d, |d| - 1, e.config).value;
      ClosedFor(e, c.session, Arrive(e, c, EncodeAll(fs + [f])).session,
                ErrorEncountered(fault.code, e.config.lib.tr(fault.reason)))
  {
    var none, b := Processor(IDLE, []), EncodeAll(fs + [f]);
    FaultOnTheWire(fs, f, e.config);
    LegalBefore(fs, f, e.config.maxFrame);
    FedDataPart(fs, e.config);
    NoneWithoutFrame(none, fs, e.config);
    var log := Fed(fs, e.config).state.log;
    NoneSelected(log);
    assert c.rx + b == b;
    var events := NewEvents(e, AtHeader, none, b);
    assert events[..|log|] == log;
    ClosesAt(e, AtHeader, c.session, b, |log|);
  }

  /**
   * What a Close frame from the peer is taken for, and how it is answered, for every payload: nothing is 1000, a single
   * byte and a code that may not be sent are 1002, a reason that does not decode is 1007, and otherwise code and reason
   * are what they are.
   */
  lemma {:induction false} CloseTaken(e: Env, c: Conn, f: Frame) returns (code: int, reason: Text)
    requires Fresh(c) && f.opCode == 0x8 && f.Legal(e.config.maxFrame)
    ensures |f.payload| == 0 ==> code == 1000 && reason == []
    ensures |f.payload| == 1 ==> code == 1002
    ensures |f.payload| >= 2 ==>
      var number, rest := TwoByteNumber(f.payload[..2]), f.payload[2..];
      if number !in {1000, 1001, 1002, 1003, 1007, 1008, 1009, 1010, 1011} && !(3000 <= number < 5000) then code == 1002
      else if rest == [] then code == number && reason == []
      else match e.config.lib.decode(rest) case Some(t) => code == number && reason == t case None => code == 1007
    ensures var o := Feed(Processing(e.config), e.config.maxFrame, AtHeader, c.session.processor, Encode(f));
      o.state.log == c.session.processor.log + [CloseReceived(code, reason)]
    ensures var d := Arrive(e, c, Encode(f)).session;
      && ClosedFor(e, c.session, d, CloseReceived(code, reason)) && |d.out| == |c.session.out| + 1
      && d.processor.log == c.session.processor.log + [CloseReceived(code, reason)]
  {
    var ev, x := CloseEvent(f.payload, e.config.lib), c.session;
    code, reason := ev.code, ev.reason;
    if |f.payload| >= 2 {
      assert FromBigEndian(f.payload[..2]) == TwoByteNumber(f.payload[..2]) by { TwoDigitsSpelt(f.payload[..2]); }
      CloseCodeTable(FromBigEndian(f.payload[..2]));
    }
    EventCloses(e, x, Complete(f), ev);
    ArriveFrame(e, c, f);
    StreamOfFrames(x.processor, [f], e.config);
    HandledOne(x.processor, f, e.config);
    EncodeAllOne(f);
  }

  lemma {:induction false} TwoDigitsSpelt(b: seq<byte>)
    requires |b| == 2
    ensures FromBigEndian(b) == TwoByteNumber(b)
  {
    assert FromBigEndian(b) == FromBigEndian(b[..1]) * 256 + b[1];
    assert FromBigEndian(b[..1]) == FromBigEndian(b[..1][..0]) * 256 + b[0];
  }

  /** A Close frame without a code is answered by the bytes of 1000, where an empty text converts to no bytes. */
  lemma {:induction false} EmptyCloseAnswered(e: Env, c: Conn, f: Frame)
    requires Fresh(c) && f.opCode == 0x8 && f.payload == [] && f.Legal(e.config.maxFrame) && e.config.lib.toUtf8([]) == []
    ensures var out := Arrive(e, c, Encode(f)).session.out;
      |out| == |c.session.out| + 1 && out[|c.session.out|].opCode == 0x8 && out[|c.session.out|].payload == [0x03, 0xE8]
  {
    var code, reason := CloseTaken(e, c, f);
    var d := Arrive(e, c, Encode(f)).session;
    var i :| |c.session.out| <= i < |d.out| && CloseIsAt(e, c.session, d, CloseReceived(code, reason), i);
    NormalCloseBytes(d.out[i], e.config.lib);
  }

  lemma {:induction false} NormalCloseBytes(f: Frame, lib: TextLib)
    requires Carries(f, 1000, [], lib) && lib.toUtf8([]) == []
    ensures f.payload == [0x03, 0xE8]
  {
    assert f.payload == f.payload[..2] + f.payload[2..];
  }
}
