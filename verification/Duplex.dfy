/**
 * Two endpoints that send messages and pings to each other over two byte channels, which deliver in pieces of any
 * size and in any interleaving.
 */
module Duplex {
  import opened Bytes
  import opened Protocol
  import opened Frames
  import opened Reader
  import opened Feeder
  import opened Assembler
  import opened Messages
  import opened Endpoint
  import opened Delivery

  /** An endpoint, how many bytes of the other's stream it has got, and what its user has sent so far. */
  datatype Side = Side(conn: Conn, seen: nat, sent: seq<Event>, pings: seq<Event>)

  function Stream(s: Side): seq<byte> {
    EncodeAll(s.conn.session.out)
  }

  function Log(s: Side): seq<Event> {
    s.conn.session.processor.log
  }

  datatype Move = Send(isBinary: bool, data: seq<byte>) | Ping(payload: seq<byte>) | Deliver(n: nat)

  predicate IsPing(e: Event) { e.PingReceived? }
  predicate IsPong(e: Event) { e.PongReceived? }

  predicate NoClosing(log: seq<Event>) {
    forall i :: 0 <= i < |log| ==> !log[i].Closing()
  }

  /** The answers to a sequence of pings. */
  function AsPongs(pings: seq<Event>): seq<Event> {
    seq(|pings|, i requires 0 <= i < |pings| => if IsPing(pings[i]) then PongReceived(pings[i].data) else pings[i])
  }

  /** What the peer accepts: its limits, and for text that every frame decodes by itself. */
  predicate Allowed(me: Env, peer: Env, a: Side, b: Side, step: Move) {
    match step
    case Send(isBinary, data) =>
      && me.frameSize > 0
      && |data| <= peer.config.maxMessage && Min(me.frameSize, |data|) <= Min(peer.config.maxFrame, MAX_PAYLOAD_LENGTH)
      && (!isBinary ==> DecodeChunks(data, me.frameSize, peer.config.lib).Some?)
    case Ping(_) => true
    case Deliver(n) => a.seen + n <= |Stream(b)|
  }

  function Expected(me: Env, peer: Env, isBinary: bool, data: seq<byte>): Event
    requires me.frameSize > 0 && (!isBinary ==> DecodeChunks(data, me.frameSize, peer.config.lib).Some?)
  {
    if isBinary then BinaryMessageReceived(data)
    else TextMessageReceived(DecodeChunks(data, me.frameSize, peer.config.lib).value)
  }

  /** One step of the first endpoint; steps that are not allowed change nothing. */
  function Next(me: Env, peer: Env, a: Side, b: Side, step: Move): Side {
    if !Allowed(me, peer, a, b, step) then a
    else match step
      case Send(isBinary, data) =>
        a.(conn := Perform(me, a.conn, SendMessage(isBinary, data)), sent := a.sent + [Expected(me, peer, isBinary, data)])
      case Ping(payload) =>
        a.(conn := Perform(me, a.conn, SendPing(payload)), pings := a.pings + [PingReceived(Left(payload, MAX_CONTROL))])
      case Deliver(n) =>
        a.(conn := Perform(me, a.conn, Arrival(Stream(b)[a.seen..a.seen + n])), seen := a.seen + n)
  }

  function Execute(eA: Env, eB: Env, a: Side, b: Side, steps: seq<(bool, Move)>): (Side, Side)
    decreases steps
  {
    if steps == [] then (a, b)
    else if steps[0].0 then Execute(eA, eB, Next(eA, eB, a, b, steps[0].1), b, steps[1..])
    else Execute(eA, eB, a, Next(eB, eA, b, a, steps[0].1), steps[1..])
  }

  // ----- what the other end would make of everything written so far -----

  predicate SenderOk(c: Config, x: Session, sent: seq<Event>, pings: seq<Event>) {
    var ideal := Handled(FRESH, x.out, c);
    && !x.closed && !x.closeSent
    && AllLegal(x.out, c.maxFrame) && ideal.asm == IDLE && NoClosing(ideal.log)
    && Select(IsMessage, ideal.log) == sent
    && Select(IsPing, ideal.log) == pings
    && Select(IsPong, ideal.log) == AsPongs(Select(IsPing, x.processor.log))
  }

  predicate ReceiverOk(e: Env, r: Conn, got: seq<byte>) {
    var u := Feed(Processing(e.config), e.config.maxFrame, AtHeader, FRESH, got);
    r.frame == u.frame && r.rx == u.rest && r.session.processor == u.state
  }

  predicate Half(receiver: Env, snd: Side, rcv: Side) {
    && SenderOk(receiver.config, snd.conn.session, snd.sent, snd.pings)
    && rcv.seen <= |Stream(snd)| && ReceiverOk(receiver, rcv.conn, Stream(snd)[..rcv.seen])
  }

  predicate Roomy(e: Env) {
    e.config.maxFrame >= MAX_CONTROL
  }

  /** Writing frames that the other end turns into the given events and nothing else. */
  lemma {:induction false} SenderWrites(c: Config, x: Session, y: Session, more: seq<Frame>, events: seq<Event>,
                                        sent: seq<Event>, pings: seq<Event>)
    requires SenderOk(c, x, sent, pings) && AllLegal(more, c.maxFrame) && NoClosing(events)
    requires y.out == x.out + more && !y.closed && !y.closeSent
    requires Handled(Handled(FRESH, x.out, c), more, c) == Processor(IDLE, Handled(FRESH, x.out, c).log + events)
    requires AsPongs(Select(IsPing, y.processor.log)) == AsPongs(Select(IsPing, x.processor.log)) + Select(IsPong, events)
    ensures SenderOk(c, y, sent + Select(IsMessage, events), pings + Select(IsPing, events))
  {
    var log := Handled(FRESH, x.out, c).log;
    HandledConcat(FRESH, x.out, more, c);
    SelectConcat(IsMessage, log, events);
    SelectConcat(IsPing, log, events);
    SelectConcat(IsPong, log, events);
  }

  /** A ping or a pong. */
  lemma {:induction false} SenderProbes(e: Env, c: Config, x: Session, y: Session, opCode: OpCode, payload: seq<byte>,
                                        sent: seq<Event>, pings: seq<Event>)
    requires SenderOk(c, x, sent, pings) && opCode in {OP_PING, OP_PONG} && |payload| <= MAX_CONTROL <= c.maxFrame
    requires y == Write(e, x, true, opCode, payload).(processor := y.processor)
    requires AsPongs(Select(IsPing, y.processor.log))
          == AsPongs(Select(IsPing, x.processor.log)) + if opCode == OP_PONG then [PongReceived(payload)] else []
    ensures SenderOk(c, y, sent, pings + if opCode == OP_PING then [PingReceived(payload)] else [])
  {
    var f := Frame(true, opCode, NextKey(e, x), payload);
    var ev := if opCode == OP_PING then PingReceived(payload) else PongReceived(payload);
    var ideal := Handled(FRESH, x.out, c);
    HandledOne(ideal, f, c);
    SelectOne(IsMessage, ev);
    SelectOne(IsPing, ev);
    SelectOne(IsPong, ev);
    SenderWrites(c, x, y, [f], [ev], sent, pings);
    assert sent + [] == sent && pings + [] == pings;
  }

  lemma {:induction false} FragmentsAllLegal(e: Env, x: Session, opCode: OpCode, data: seq<byte>, limit: nat)
    requires e.frameSize > 0 && opCode in {OP_CONTINUE, OP_TEXT, OP_BINARY}
    requires Min(e.frameSize, |data|) <= Min(limit, MAX_PAYLOAD_LENGTH)
    ensures AllLegal(Fragments(e, x, opCode, data), limit)
  {
    var fs := Fragments(e, x, opCode, data);
    SplitConserves(e, x, opCode, data);
    forall i | 0 <= i < |fs| ensures fs[i].Legal(limit) {
      assert FragmentOk(e, x, opCode, fs[i], i, |fs|, |data|);
    }
  }

  lemma {:induction false} SenderSends(me: Env, peer: Env, x: Session, isBinary: bool, data: seq<byte>,
                                       sent: seq<Event>, pings: seq<Event>)
    requires SenderOk(peer.config, x, sent, pings) && me.frameSize > 0 && NeverLengthens(peer.config.lib)
    requires |data| <= peer.config.maxMessage && Min(me.frameSize, |data|) <= Min(peer.config.maxFrame, MAX_PAYLOAD_LENGTH)
    requires !isBinary ==> DecodeChunks(data, me.frameSize, peer.config.lib).Some?
    ensures var y := WriteMessage(me, x, if isBinary then OP_BINARY else OP_TEXT, data);
      SenderOk(peer.config, y, sent + [Expected(me, peer, isBinary, data)], pings)
  {
    var c, kind := peer.config, if isBinary then OP_BINARY else OP_TEXT;
    var m := Expected(me, peer, isBinary, data);
    WriteMessageFrames(me, x, kind, data);
    FragmentsAllLegal(me, x, kind, data, c.maxFrame);
    var ideal := Handled(FRESH, x.out, c);
    MessageDelivered(me, x, ideal, kind, kind, data, c);
    var events := Signals(Fragments(me, x, kind, data), kind, c.lib);
    assert [] + data == data;
    assert !isBinary ==> [] + m.text == m.text;
    assert ideal.log + events + [m] == ideal.log + (events + [m]);
    MessageOnly(events, m);
    SenderWrites(c, x, WriteMessage(me, x, kind, data), Fragments(me, x, kind, data), events + [m], sent, pings);
    assert pings + [] == pings;
  }

  lemma {:induction false} MessageOnly(events: seq<Event>, m: Event)
    requires AllFragments(events) && IsMessage(m)
    ensures Select(IsMessage, events + [m]) == [m] && Select(IsPing, events + [m]) == Select(IsPong, events + [m]) == []
    ensures NoClosing(events + [m])
  {
    assert Select(IsMessage, events + [m]) == [m] by { SelectLast(IsMessage, events, m); }
    assert Select(IsPing, events + [m]) == [] by { SelectLast(IsPing, events, m); }
    assert Select(IsPong, events + [m]) == [] by { SelectLast(IsPong, events, m); }
  }

  // ----- receiving -----

  predicate Quiet(events: seq<Event>) {
    forall i :: 0 <= i < |events| ==> IsFragment(events[i]) || IsMessage(events[i]) || IsPong(events[i])
  }

  lemma {:induction false} ReactQuiet(e: Env, x: Session, events: seq<Event>)
    requires Quiet(events)
    ensures ReactAll(e, x, events) == x
    decreases events
  {
    if events != [] {
      ReactQuiet(e, x, events[1..]);
    }
  }

  lemma {:induction false} QuietSilent(events: seq<Event>)
    requires Quiet(events)
    ensures Select(IsPing, events) == []
  {
    if events != [] {
      QuietSilent(events[..|events| - 1]);
    }
  }

  /** A finished frame gives rise to one ping, to one closing event, or to events that need no answer. */
  lemma {:induction false} EventKinds(a: Assembly, s: FrameState, c: Config)
    requires s.Done() && Sound(s)
    ensures Kind(Handle(a, s, c).events)
  {
  }

  lemma {:induction false} ReactOne(e: Env, x: Session, ev: Event)
    ensures ReactAll(e, x, [ev]) == React(e, x, ev)
  {
    assert [ev][1..] == [];
  }

  lemma {:induction false} StaysClosed(e: Env, x: Session, events: seq<Event>)
    requires x.closed
    ensures ReactAll(e, x, events).closed
    decreases events
  {
    if events != [] {
      StaysClosed(e, React(e, x, events[0]), events[1..]);
    }
  }

  predicate Kind(events: seq<Event>) {
    || (|events| == 1 && IsPing(events[0]) && |events[0].data| <= MAX_CONTROL)
    || (|events| == 1 && events[0].Closing())
    || Quiet(events)
  }

  lemma {:induction false} SenderSame(c: Config, x: Session, y: Session, sent: seq<Event>, pings: seq<Event>)
    requires SenderOk(c, x, sent, pings) && y.out == x.out && !y.closed && !y.closeSent
    requires Select(IsPing, y.processor.log) == Select(IsPing, x.processor.log)
    ensures SenderOk(c, y, sent, pings)
  {
  }

  lemma {:induction false} EventsAnswered(e: Env, c: Config, x: Session, p: Processor, events: seq<Event>,
                                          sent: seq<Event>, pings: seq<Event>)
    requires Kind(events) && MAX_CONTROL <= c.maxFrame && p.log == x.processor.log + events
    requires SenderOk(c, x, sent, pings)
    ensures var y := ReactAll(e, x.(processor := p), events); y.closed || SenderOk(c, y, sent, pings)
  {
    if |events| == 1 && IsPing(events[0]) {
      assert events == [events[0]];
      ReactOne(e, x.(processor := p), events[0]);
      PingAnswered(e, c, x, p, events[0].data, sent, pings);
    } else if |events| == 1 && events[0].Closing() {
      assert events == [events[0]];
      ReactOne(e, x.(processor := p), events[0]);
    } else {
      QuietAnswered(e, c, x, p, events, sent, pings);
    }
  }

  lemma {:induction false} QuietAnswered(e: Env, c: Config, x: Session, p: Processor, events: seq<Event>,
                                         sent: seq<Event>, pings: seq<Event>)
    requires Quiet(events) && p.log == x.processor.log + events && SenderOk(c, x, sent, pings)
    ensures SenderOk(c, ReactAll(e, x.(processor := p), events), sent, pings)
  {
    var x1 := x.(processor := p);
    SelectConcat(IsPing, x.processor.log, events);
    ReactQuiet(e, x1, events);
    QuietSilent(events);
    SenderSame(c, x, x1, sent, pings);
  }

  lemma {:induction false} PingAnswered(e: Env, c: Config, x: Session, p: Processor, data: seq<byte>,
                                        sent: seq<Event>, pings: seq<Event>)
    requires SenderOk(c, x, sent, pings) && |data| <= MAX_CONTROL <= c.maxFrame
    requires p.log == x.processor.log + [PingReceived(data)]
    ensures SenderOk(c, React(e, x.(processor := p), PingReceived(data)), sent, pings)
  {
    var ping, before := PingReceived(data), Select(IsPing, x.processor.log);
    SelectConcat(IsPing, x.processor.log, [ping]);
    SelectOne(IsPing, ping);
    assert AsPongs(before + [ping]) == AsPongs(before) + [PongReceived(data)];
    SenderProbes(e, c, x, React(e, x.(processor := p), ping), OP_PONG, data, sent, pings);
    assert pings + [] == pings;
  }

  /** Handling a received frame writes exactly the answers to the pings. */
  lemma {:induction false} AnswersKept(e: Env, c: Config, x: Session, s: FrameState, sent: seq<Event>, pings: seq<Event>)
    requires s.Done() && Sound(s) && MAX_CONTROL <= c.maxFrame
    requires x.closed || SenderOk(c, x, sent, pings)
    ensures var y := OnSession(e, x, s); y.closed || SenderOk(c, y, sent, pings)
  {
    var step := Handle(x.processor.asm, s, e.config);
    var p := Processor(step.next, x.processor.log + step.events);
    if x.closed {
      StaysClosed(e, x.(processor := p), step.events);
    } else {
      EventKinds(x.processor.asm, s, e.config);
      EventsAnswered(e, c, x, p, step.events, sent, pings);
    }
  }

  lemma {:induction false} LogGrows(c: Config, s: FrameState, p: Processor, buf: seq<byte>)
    requires Sound(s)
    ensures var o := Feed(Processing(c), c.maxFrame, s, p, buf); p.log <= o.state.log && !o.halted
  {
    FeedPreserves(Processing(c), (q: Processor) => p.log <= q.log, c.maxFrame, s, p, buf);
    FeedHalts(Processing(c), (_: Processor) => false, c.maxFrame, s, p, buf);
  }

  /** As long as nothing closes, an endpoint's processor is just the processor. */
  lemma {:induction false} Projection(e: Env, s: FrameState, x: Session, buf: seq<byte>)
    requires Sound(s) && !x.closed
    requires NoClosing(Feed(Processing(e.config), e.config.maxFrame, s, x.processor, buf).state.log)
    ensures var u := Feed(Processing(e.config), e.config.maxFrame, s, x.processor, buf);
      var o := Feed(Answering(e), e.config.maxFrame, s, x, buf);
      !o.halted && o.frame == u.frame && o.rest == u.rest && o.state.processor == u.state && !o.state.closed
    decreases Weight(s, buf)
  {
    if buf != [] {
      var (t, rest) := Run(s, buf, e.config.maxFrame);
      RunSound(s, buf, e.config.maxFrame);
      if t.Done() {
        FinishingDescends(s, buf, e.config.maxFrame);
        var p := OnDone(x.processor, t, e.config).0;
        LogGrows(e.config, AtHeader, p, rest);
        OpenAfterFrame(e, x, t);
        Projection(e, AtHeader, OnSession(e, x, t), rest);
      }
    }
  }

  lemma {:induction false} OpenAfterFrame(e: Env, x: Session, t: FrameState)
    requires t.Done() && Sound(t) && !x.closed && NoClosing(OnDone(x.processor, t, e.config).0.log)
    ensures var y := OnSession(e, x, t); y.processor == OnDone(x.processor, t, e.config).0 && !y.closed
  {
    var step := Handle(x.processor.asm, t, e.config);
    var x1 := x.(processor := Processor(step.next, x.processor.log + step.events));
    EventKinds(x.processor.asm, t, e.config);
    if Quiet(step.events) {
      ReactQuiet(e, x1, step.events);
    } else {
      assert (x.processor.log + step.events)[|x.processor.log|] == step.events[0];
      assert step.events == [step.events[0]];
      ReactOne(e, x1, step.events[0]);
    }
  }

  /** After any part of the stream the log is a beginning of what the whole stream leads to. */
  lemma {:induction false} PartOfIdeal(c: Config, fs: seq<Frame>, n: nat)
    requires AllLegal(fs, c.maxFrame) && n <= |EncodeAll(fs)|
    ensures var u := Feed(Processing(c), c.maxFrame, AtHeader, FRESH, EncodeAll(fs)[..n]);
      && u.state.log <= Handled(FRESH, fs, c).log && !u.halted && Sound(u.frame)
      && (n == |EncodeAll(fs)| ==> u.state == Handled(FRESH, fs, c))
  {
    var stream := EncodeAll(fs);
    assert stream == stream[..n] + stream[n..];
    StreamOfFrames(FRESH, fs, c);
    PartOfMore(c, stream[..n], stream[n..]);
    if n == |stream| {
      assert stream[..n] == stream;
    }
  }

  lemma {:induction false} PartOfMore(c: Config, part: seq<byte>, more: seq<byte>)
    ensures var u := Feed(Processing(c), c.maxFrame, AtHeader, FRESH, part);
      && u.state.log <= Feed(Processing(c), c.maxFrame, AtHeader, FRESH, part + more).state.log
      && !u.halted && Sound(u.frame)
  {
    var u := Feed(Processing(c), c.maxFrame, AtHeader, FRESH, part);
    FeedSplit(Processing(c), c.maxFrame, AtHeader, FRESH, part, more);
    LogGrows(c, AtHeader, FRESH, part);
    FeedPreserves(Processing(c), (_: Processor) => true, c.maxFrame, AtHeader, FRESH, part);
    LogGrows(c, u.frame, u.state, u.rest + more);
  }

  lemma {:induction false} PrefixNoClosing(log: seq<Event>, all: seq<Event>)
    requires log <= all && NoClosing(all)
    ensures NoClosing(log)
  {
    forall i | 0 <= i < |log| ensures !log[i].Closing() {
      assert log[i] == all[i];
    }
  }

  /** The receiver advances along the stream. */
  lemma {:induction false} Receives(e: Env, r: Conn, fs: seq<Frame>, seen: nat, n: nat)
    requires AllLegal(fs, e.config.maxFrame) && NoClosing(Handled(FRESH, fs, e.config).log)
    requires seen + n <= |EncodeAll(fs)| && ReceiverOk(e, r, EncodeAll(fs)[..seen]) && !r.session.closed
    ensures var r' := Arrive(e, r, EncodeAll(fs)[seen..seen + n]);
      ReceiverOk(e, r', EncodeAll(fs)[..seen + n]) && !r'.session.closed && Sound(r.frame)
  {
    var stream := EncodeAll(fs);
    ReceiverSound(e, r, stream[..seen]);
    NothingCloses(e.config, fs, seen + n);
    Joins(stream, seen, n);
    StaysInStep(e, r, stream[..seen], stream[seen..seen + n]);
  }

  lemma {:induction false} ReceiverSound(e: Env, r: Conn, got: seq<byte>)
    requires ReceiverOk(e, r, got)
    ensures Sound(r.frame)
  {
    PartOfMore(e.config, got, []);
  }

  lemma {:induction false} Joins(s: seq<byte>, i: nat, n: nat)
    requires i + n <= |s|
    ensures s[..i] + s[i..i + n] == s[..i + n]
  {
  }

  lemma {:induction false} NothingCloses(c: Config, fs: seq<Frame>, n: nat)
    requires AllLegal(fs, c.maxFrame) && NoClosing(Handled(FRESH, fs, c).log) && n <= |EncodeAll(fs)|
    ensures NoClosing(Feed(Processing(c), c.maxFrame, AtHeader, FRESH, EncodeAll(fs)[..n]).state.log)
  {
    PartOfIdeal(c, fs, n);
    var u := Feed(Processing(c), c.maxFrame, AtHeader, FRESH, EncodeAll(fs)[..n]);
    PrefixNoClosing(u.state.log, Handled(FRESH, fs, c).log);
  }

  lemma {:induction false} StaysInStep(e: Env, r: Conn, got: seq<byte>, more: seq<byte>)
    requires ReceiverOk(e, r, got) && !r.session.closed
    requires NoClosing(Feed(Processing(e.config), e.config.maxFrame, AtHeader, FRESH, got + more).state.log)
    ensures var r' := Arrive(e, r, more); ReceiverOk(e, r', got + more) && !r'.session.closed
  {
    PartOfMore(e.config, got, more);
    FeedSplit(Processing(e.config), e.config.maxFrame, AtHeader, FRESH, got, more);
    Projection(e, r.frame, r.session, r.rx + more);
  }

  /** What the receiver writes meanwhile are answers. */
  lemma {:induction false} Answers(me: Env, c: Config, r: Conn, more: seq<byte>, sent: seq<Event>, pings: seq<Event>)
    requires Sound(r.frame) && MAX_CONTROL <= c.maxFrame && SenderOk(c, r.session, sent, pings)
    ensures var y := Arrive(me, r, more).session; y.closed || SenderOk(c, y, sent, pings)
  {
    var inv := (y: Session) => y.closed || SenderOk(c, y, sent, pings);
    forall y: Session, t: FrameState | inv(y) && t.Done() && Sound(t) ensures inv(Answering(me)(y, t).0) {
      AnswersKept(me, c, y, t, sent, pings);
    }
    FeedPreserves(Answering(me), inv, me.config.maxFrame, r.frame, r.session, r.rx + more);
  }

  /** Delivery of n more bytes, at the receiving end. */
  lemma {:induction false} DeliverReceives(me: Env, a: Side, b: Side, n: nat)
    requires Half(me, b, a) && !a.conn.session.closed && a.seen + n <= |Stream(b)|
    ensures var more := Stream(b)[a.seen..a.seen + n];
      var a' := a.(conn := Arrive(me, a.conn, more), seen := a.seen + n);
      Half(me, b, a') && !a'.conn.session.closed && Sound(a.conn.frame)
  {
    Receives(me, a.conn, b.conn.session.out, a.seen, n);
  }

  /** The same step, for the stream in the other direction. */
  lemma {:induction false} DeliverAnswers(me: Env, peer: Env, a: Side, b: Side, more: seq<byte>, seen: nat)
    requires Half(peer, a, b) && Roomy(peer) && Sound(a.conn.frame)
    requires !Arrive(me, a.conn, more).session.closed
    ensures Half(peer, a.(conn := Arrive(me, a.conn, more), seen := seen), b)
  {
    Answers(me, peer.config, a.conn, more, a.sent, a.pings);
    OutGrows(me, a.conn.frame, a.conn.session, a.conn.rx + more);
    StreamGrows(a.conn.session.out, Arrive(me, a.conn, more).session.out, b.seen);
  }

  lemma {:induction false} WriteGrows(e: Env, x: Session, events: seq<Event>)
    ensures x.out <= ReactAll(e, x, events).out
    decreases events
  {
    if events != [] {
      WriteGrows(e, React(e, x, events[0]), events[1..]);
    }
  }

  lemma {:induction false} OutGrows(e: Env, s: FrameState, x: Session, buf: seq<byte>)
    requires Sound(s)
    ensures x.out <= Feed(Answering(e), e.config.maxFrame, s, x, buf).state.out
  {
    var h, inv := Answering(e), (y: Session) => x.out <= y.out;
    forall y: Session, t: FrameState | inv(y) && t.Done() && Sound(t) ensures inv(h(y, t).0) {
      var step := Handle(y.processor.asm, t, e.config);
      WriteGrows(e, y.(processor := Processor(step.next, y.processor.log + step.events)), step.events);
    }
    FeedPreserves(h, inv, e.config.maxFrame, s, x, buf);
  }

  lemma {:induction false} StreamGrows(fs: seq<Frame>, gs: seq<Frame>, n: nat)
    requires fs <= gs && n <= |EncodeAll(fs)|
    ensures n <= |EncodeAll(gs)| && EncodeAll(gs)[..n] == EncodeAll(fs)[..n]
  {
    EncodeAllConcat(fs, gs[|fs|..]);
    assert gs == fs + gs[|fs|..];
  }

  /** The user of a writes: what a has received is as before, and its stream grows. */
  lemma {:induction false} WritingKeeps(me: Env, peer: Env, a: Side, b: Side, y: Session,
                                          sent: seq<Event>, pings: seq<Event>)
    requires Half(me, b, a) && Half(peer, a, b)
    requires SenderOk(peer.config, y, sent, pings) && a.conn.session.out <= y.out && y.processor == a.conn.session.processor
    ensures var a' := a.(conn := a.conn.(session := y), sent := sent, pings := pings); Half(me, b, a') && Half(peer, a', b)
  {
    StreamGrows(a.conn.session.out, y.out, b.seen);
  }

  lemma {:induction false} SendKeeps(me: Env, peer: Env, a: Side, b: Side, isBinary: bool, data: seq<byte>)
    requires Half(me, b, a) && Half(peer, a, b) && NeverLengthens(peer.config.lib)
    requires Allowed(me, peer, a, b, Send(isBinary, data))
    ensures var a' := Next(me, peer, a, b, Send(isBinary, data)); Half(me, b, a') && Half(peer, a', b)
  {
    var x, kind := a.conn.session, if isBinary then OP_BINARY else OP_TEXT;
    SenderSends(me, peer, x, isBinary, data, a.sent, a.pings);
    WriteMessageFrames(me, x, kind, data);
    WritingKeeps(me, peer, a, b, WriteMessage(me, x, kind, data), a.sent + [Expected(me, peer, isBinary, data)], a.pings);
  }

  lemma {:induction false} PingKeeps(me: Env, peer: Env, a: Side, b: Side, payload: seq<byte>)
    requires Half(me, b, a) && Half(peer, a, b) && Roomy(me) && Roomy(peer)
    ensures var a' := Next(me, peer, a, b, Ping(payload)); Half(me, b, a') && Half(peer, a', b)
  {
    var x, p := a.conn.session, Left(payload, MAX_CONTROL);
    var y := Write(me, x, true, OP_PING, p);
    assert AsPongs(Select(IsPing, x.processor.log)) + [] == AsPongs(Select(IsPing, x.processor.log));
    SenderProbes(me, peer.config, x, y, OP_PING, p, a.sent, a.pings);
    WritingKeeps(me, peer, a, b, y, a.sent, a.pings + [PingReceived(p)]);
  }

  lemma {:induction false} DeliverKeeps(me: Env, peer: Env, a: Side, b: Side, n: nat)
    requires Half(me, b, a) && Half(peer, a, b) && Roomy(me) && Roomy(peer) && Allowed(me, peer, a, b, Deliver(n))
    ensures var a' := Next(me, peer, a, b, Deliver(n)); Half(me, b, a') && Half(peer, a', b)
  {
    DeliverReceives(me, a, b, n);
    DeliverAnswers(me, peer, a, b, Stream(b)[a.seen..a.seen + n], a.seen + n);
  }

  lemma {:induction false} StepKeeps(me: Env, peer: Env, a: Side, b: Side, step: Move)
    requires Half(me, b, a) && Half(peer, a, b) && Roomy(me) && Roomy(peer) && NeverLengthens(peer.config.lib)
    ensures var a' := Next(me, peer, a, b, step); Half(me, b, a') && Half(peer, a', b)
  {
    if Allowed(me, peer, a, b, step) {
      match step
      case Send(isBinary, data) => SendKeeps(me, peer, a, b, isBinary, data);
      case Ping(payload) => PingKeeps(me, peer, a, b, payload);
      case Deliver(n) => DeliverKeeps(me, peer, a, b, n);
    }
  }

  // ----- the results -----

  lemma {:induction false} SelectPrefix(f: Event -> bool, log: seq<Event>, all: seq<Event>)
    requires log <= all
    ensures Select(f, log) <= Select(f, all)
  {
    SelectConcat(f, log, all[|log|..]);
    assert all == log + all[|log|..];
  }

  /** Messages in one direction, and the echo of the pings sent in this direction. */
  predicate Delivered(a: Side, b: Side) {
    && Select(IsMessage, Log(b)) <= a.sent
    && (b.seen == |Stream(a)| ==> Select(IsMessage, Log(b)) == a.sent)
    && Select(IsPong, Log(a)) <= AsPongs(a.pings)
    && (b.seen == |Stream(a)| && a.seen == |Stream(b)| ==> Select(IsPong, Log(a)) == AsPongs(a.pings))
    && NoClosing(Log(b)) && !b.conn.session.closed
  }

  lemma {:induction false} HalfDelivers(eA: Env, eB: Env, a: Side, b: Side)
    requires Half(eB, a, b) && Half(eA, b, a)
    ensures Delivered(a, b)
  {
    var toB, toA := Handled(FRESH, a.conn.session.out, eB.config), Handled(FRESH, b.conn.session.out, eA.config);
    PartOfIdeal(eB.config, a.conn.session.out, b.seen);
    PartOfIdeal(eA.config, b.conn.session.out, a.seen);
    PrefixNoClosing(Log(b), toB.log);
    SelectPrefix(IsMessage, Log(b), toB.log);
    SelectPrefix(IsPing, Log(b), toB.log);
    SelectPrefix(IsPong, Log(a), toA.log);
  }

  predicate Connected(s: Side) {
    && s.conn.frame == AtHeader && s.conn.rx == [] && s.seen == 0 && s.sent == [] && s.pings == []
    && s.conn.session.processor == FRESH && s.conn.session.out == []
    && !s.conn.session.closed && !s.conn.session.closeSent
  }

  lemma {:induction false} InitialHalf(e: Env, a: Side, b: Side)
    requires Connected(a) && Connected(b)
    ensures Half(e, a, b)
  {
    assert Stream(a)[..0] == [];
  }

  lemma {:induction false} ExecuteKeeps(eA: Env, eB: Env, a: Side, b: Side, steps: seq<(bool, Move)>)
    requires Half(eB, a, b) && Half(eA, b, a) && Roomy(eA) && Roomy(eB)
    requires NeverLengthens(eA.config.lib) && NeverLengthens(eB.config.lib)
    ensures var (a', b') := Execute(eA, eB, a, b, steps); Half(eB, a', b') && Half(eA, b', a')
    decreases steps
  {
    if steps != [] {
      if steps[0].0 {
        StepKeeps(eA, eB, a, b, steps[0].1);
        ExecuteKeeps(eA, eB, Next(eA, eB, a, b, steps[0].1), b, steps[1..]);
      } else {
        StepKeeps(eB, eA, b, a, steps[0].1);
        ExecuteKeeps(eA, eB, a, Next(eB, eA, b, a, steps[0].1), steps[1..]);
      }
    }
  }

  /** In every state of every run, what one end has read is a part of what the other has written, in both directions. */
  lemma {:induction false} RunsInStep(eA: Env, eB: Env, a: Side, b: Side, steps: seq<(bool, Move)>)
    requires Connected(a) && Connected(b) && Roomy(eA) && Roomy(eB)
    requires NeverLengthens(eA.config.lib) && NeverLengthens(eB.config.lib)
    ensures var (a', b') := Execute(eA, eB, a, b, steps); Half(eB, a', b') && Half(eA, b', a')
  {
    InitialHalf(eB, a, b);
    InitialHalf(eA, b, a);
    ExecuteKeeps(eA, eB, a, b, steps);
  }

  /**
   * Delivery in both directions over every run: at every moment the messages delivered are a beginning of those sent,
   * and all of them once all bytes have arrived; pongs come back in the order of the pings with their first 125
   * bytes; no error is raised and nobody closes.
   */
  lemma {:induction false} EndToEnd(eA: Env, eB: Env, a: Side, b: Side, steps: seq<(bool, Move)>)
    requires Connected(a) && Connected(b) && Roomy(eA) && Roomy(eB)
    requires NeverLengthens(eA.config.lib) && NeverLengthens(eB.config.lib)
    ensures var (a', b') := Execute(eA, eB, a, b, steps); Delivered(a', b') && Delivered(b', a')
  {
    RunsInStep(eA, eB, a, b, steps);
    var (a', b') := Execute(eA, eB, a, b, steps);
    HalfDelivers(eA, eB, a', b');
    HalfDelivers(eB, eA, b', a');
  }
}
