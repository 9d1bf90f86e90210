/** The closing handshake between two endpoints (sections 5.5.1 and 7.1 of RFC 6455). */
module Closing {
  import opened Bytes
  import opened Protocol
  import opened Frames
  import opened Reader
  import opened Feeder
  import opened Assembler
  import opened Messages
  import opened Endpoint
  import opened Delivery
  import opened Duplex

  /** One whole frame arriving between frames. */
  lemma {:induction false} ArriveFrame(e: Env, c: Conn, f: Frame)
    requires c.frame == AtHeader && c.rx == [] && !Dead(e, c.session) && f.Legal(e.config.maxFrame)
    ensures Arrive(e, c, Encode(f)) == Conn(AtHeader, [], OnSession(e, c.session, Complete(f)))
  {
    var h := Answering(e);
    FoldOne(h, c.session, f);
    FeedFrames(h, e.config.maxFrame, c.session, [f], []);
    EncodeAllOne(f);
    assert EncodeAll([f]) + [] == Encode(f) && c.rx + Encode(f) == Encode(f);
  }

  /** The code that the other end records for a Close frame with this code and these bytes of the reason. */
  function HeardCode(code: int, reasonUtf8: seq<byte>, lib: TextLib): int {
    if !IsCloseCodeValid(code % 0x1_0000) then CLOSE_PROTOCOL_ERROR
    else if reasonUtf8 != [] && lib.decode(reasonUtf8) == None then CLOSE_WRONG_DATATYPE
    else code % 0x1_0000
  }

  function HeardReason(code: int, reasonUtf8: seq<byte>, lib: TextLib): Text {
    if !IsCloseCodeValid(code % 0x1_0000) then lib.tr(CloseCodeInvalid)
    else if reasonUtf8 == [] then []
    else match lib.decode(reasonUtf8)
      case Some(t) => t
      case None => lib.tr(InvalidUtf8)
  }

  lemma {:induction false} PayloadParts(code: int, reasonUtf8: seq<byte>)
    ensures var payload := ClosePayload(code, reasonUtf8);
      |payload| == 2 + |reasonUtf8| && FromBigEndian(payload[..2]) == code % 0x1_0000 && payload[2..] == reasonUtf8
  {
    Widths();
    BigEndianRoundTrip(code % 0x1_0000, 2);
    assert ClosePayload(code, reasonUtf8)[..2] == ToBigEndian(code % 0x1_0000, 2);
  }

  lemma {:induction false} CloseHeard(code: int, reasonUtf8: seq<byte>, lib: TextLib)
    ensures CloseEvent(ClosePayload(code, reasonUtf8), lib)
         == CloseReceived(HeardCode(code, reasonUtf8, lib), HeardReason(code, reasonUtf8, lib))
  {
    PayloadParts(code, reasonUtf8);
  }

  function SentReason(e: Env, reason: Text): seq<byte> {
    Left(e.config.lib.toUtf8(reason), MAX_REASON)
  }

  /** What one end does on the other's Close frame. */
  lemma {:induction false} CloseAnswered(e: Env, x: Session, f: Frame, code: int, reasonUtf8: seq<byte>)
    returns (p: Processor)
    requires f.opCode == OP_CLOSE && f.payload == ClosePayload(code, reasonUtf8)
    ensures p == Processor(x.processor.asm, x.processor.log + [CloseEvent(f.payload, e.config.lib)])
    ensures OnSession(e, x, Complete(f))
         == Close(e, x.(closeReceived := true, processor := p),
                  HeardCode(code, reasonUtf8, e.config.lib), HeardReason(code, reasonUtf8, e.config.lib))
  {
    CloseHeard(code, reasonUtf8, e.config.lib);
    var ev := CloseEvent(f.payload, e.config.lib);
    p := Processor(x.processor.asm, x.processor.log + [ev]);
    assert Handle(x.processor.asm, Complete(f), e.config) == Step(x.processor.asm, [ev], true);
    assert ReactAll(e, x.(processor := p), [ev]) == ReactAll(e, React(e, x.(processor := p), ev), []);
  }

  /** The Close frame of a user who closes first: the code and at most 123 bytes of the reason. */
  function CloseFrame(e: Env, x: Session, code: int, reason: Text): Frame {
    Frame(true, OP_CLOSE, NextKey(e, x), ClosePayload(code, SentReason(e, reason)))
  }

  lemma {:induction false} CloseStarted(e: Env, c: Conn, code: int, reason: Text)
    requires !c.session.closed && !c.session.closeSent
    ensures var x, f := Perform(e, c, UserClose(code, reason)).session, CloseFrame(e, c.session, code, reason);
      && x == c.session.(out := c.session.out + [f], drawn := Drawn(c.session), closed := true, closeSent := true,
                         closeCode := code, closeReason := e.config.lib.fromUtf8(SentReason(e, reason)))
      && f.Legal(MAX_CONTROL)
  {
    PayloadParts(code, SentReason(e, reason));
  }

  lemma {:induction false} SameCode(code: int, r: seq<byte>, lib: TextLib)
    requires 0 <= code < 0x1_0000
    ensures HeardCode(code, r, lib) == code
       <==> IsCloseCodeValid(code) && (r == [] || lib.decode(r).Some? || code == CLOSE_WRONG_DATATYPE)
  {
  }

  // ----- closing while messages are under way -----

  lemma {:induction false} WholeStream(e: Env, r: Conn, fs: seq<Frame>)
    requires AllLegal(fs, e.config.maxFrame) && ReceiverOk(e, r, EncodeAll(fs))
    ensures r.frame == AtHeader && r.rx == [] && r.session.processor == Handled(FRESH, fs, e.config)
  {
    StreamOfFrames(FRESH, fs, e.config);
  }

  /** Everything that was written before has arrived. */
  lemma {:induction false} CaughtUp(e: Env, a: Side, b: Side)
    requires Half(e, a, b) && b.seen == |Stream(a)|
    ensures b.conn.frame == AtHeader && b.conn.rx == []
    ensures b.conn.session.processor == Handled(FRESH, a.conn.session.out, e.config)
    ensures Select(IsMessage, Log(b)) == a.sent && Select(IsPing, Log(b)) == a.pings
  {
    assert Stream(a)[..b.seen] == Stream(a);
    WholeStream(e, b.conn, a.conn.session.out);
  }

  /** The peer with all the bytes that were written before the Close frame. */
  function UpToClose(eB: Env, a: Side, b: Side): Side
    requires b.seen <= |Stream(a)|
  {
    b.(conn := Arrive(eB, b.conn, Stream(a)[b.seen..]), seen := |Stream(a)|)
  }

  lemma {:induction false} StaysHalf(eA: Env, eB: Env, a: Side, b: Side)
    requires Half(eB, a, b) && Half(eA, b, a) && Roomy(eA)
    ensures Half(eB, a, UpToClose(eB, a, b)) && Half(eA, UpToClose(eB, a, b), a)
  {
    var n := |Stream(a)| - b.seen;
    ToTheEnd(Stream(a), b.seen);
    DeliverReceives(eB, b, a, n);
    DeliverAnswers(eB, eA, b, a, Stream(a)[b.seen..], |Stream(a)|);
  }

  lemma {:induction false} ToTheEnd(s: seq<byte>, n: nat)
    requires n <= |s|
    ensures s[n..n + (|s| - n)] == s[n..]
  {
  }

  lemma {:induction false} ReachesClose(eA: Env, eB: Env, a: Side, b: Side)
    requires Half(eB, a, b) && Half(eA, b, a) && Roomy(eA) && Roomy(eB)
    ensures var b0 := UpToClose(eB, a, b);
      && Half(eB, a, b0) && Half(eA, b0, a) && b0.conn.frame == AtHeader && b0.conn.rx == []
      && b0.conn == Arrive(eB, b.conn, Stream(a)[b.seen..]) && b0.seen == |Stream(a)| && b0.sent == b.sent
  {
    StaysHalf(eA, eB, a, b);
    CaughtUp(eB, a, UpToClose(eB, a, b));
  }

  /** The bytes that have arrived, and the chunks still to come, are everything that was written. */
  predicate Arriving(got: seq<byte>, chunks: seq<seq<byte>>, out: seq<Frame>) {
    got + Flatten(chunks) == EncodeAll(out)
  }

  /** The same, with the frame that is written last. */
  predicate Completes(fs: seq<Frame>, f: Frame, seen: nat, chunks: seq<seq<byte>>) {
    seen <= |EncodeAll(fs)| && EncodeAll(fs)[..seen] + Flatten(chunks) == EncodeAll(fs + [f])
  }

  lemma {:induction false} LastComes(fs: seq<Frame>, f: Frame, seen: nat, chunks: seq<seq<byte>>)
    requires Completes(fs, f, seen, chunks)
    ensures chunks != [] && Flatten(chunks) == EncodeAll(fs)[seen..] + Encode(f)
  {
    var stream := EncodeAll(fs);
    EncodeAllConcat(fs, [f]);
    EncodeAllOne(f);
    CutAt(stream, Encode(f), seen);
    Cancel(stream[..seen], Flatten(chunks), stream[seen..] + Encode(f));
    EncodeNotEmpty(f);
  }

  lemma {:induction false} CutAt(s: seq<byte>, more: seq<byte>, n: nat)
    requires n <= |s|
    ensures s + more == s[..n] + (s[n..] + more)
  {
  }

  lemma {:induction false} EncodeNotEmpty(f: Frame)
    ensures Encode(f) != []
  {
  }

  lemma {:induction false} ArriveChunks(e: Env, c: Conn, chunks: seq<seq<byte>>, before: seq<byte>, f: Frame)
    requires chunks != [] && Flatten(chunks) == before + Encode(f) && f.Legal(e.config.maxFrame)
    requires var d := Arrive(e, c, before); d.frame == AtHeader && d.rx == [] && !Dead(e, d.session)
    ensures ArriveAll(e, c, chunks) == Conn(AtHeader, [], OnSession(e, Arrive(e, c, before).session, Complete(f)))
  {
    Segmentation(e, c, chunks);
    ArriveTwice(e, c, before, Encode(f));
    ArriveFrame(e, Arrive(e, c, before), f);
  }

  /** The rest of the stream and the Close frame, in any chunks. */
  lemma {:induction false} CloseArrives(eA: Env, eB: Env, a: Side, b: Side, f: Frame, chunks: seq<seq<byte>>)
    requires Half(eB, a, b) && Half(eA, b, a) && Roomy(eA) && Roomy(eB) && f.Legal(MAX_CONTROL)
    requires Completes(a.conn.session.out, f, b.seen, chunks)
    ensures var b0 := UpToClose(eB, a, b);
      ArriveAll(eB, b.conn, chunks) == Conn(AtHeader, [], OnSession(eB, b0.conn.session, Complete(f)))
  {
    LastComes(a.conn.session.out, f, b.seen, chunks);
    ReachesClose(eA, eB, a, b);
    ArriveChunks(eB, b.conn, chunks, Stream(a)[b.seen..], f);
  }

  /** Open, and with everything that was sent. */
  predicate Informed(x: Session, a: Side) {
    && !x.closed && !x.closeSent
    && Select(IsMessage, x.processor.log) == a.sent && Select(IsPing, x.processor.log) == a.pings
  }

  lemma {:induction false} InformedAtClose(eA: Env, eB: Env, a: Side, b: Side)
    requires Half(eB, a, b) && Half(eA, b, a) && Roomy(eA) && Roomy(eB)
    ensures Informed(UpToClose(eB, a, b).conn.session, a)
  {
    ReachesClose(eA, eB, a, b);
    CaughtUp(eB, a, UpToClose(eB, a, b));
  }

  /** How the peer takes the Close frame. */
  lemma {:induction false} InformedHears(e: Env, x: Session, a: Side, f: Frame, code: int, r: seq<byte>)
    requires Informed(x, a) && f.opCode == OP_CLOSE && f.payload == ClosePayload(code, r)
    ensures var y := OnSession(e, x, Complete(f));
      && Select(IsMessage, y.processor.log) == a.sent && Select(IsPing, y.processor.log) == a.pings
      && y.closeReceived && y.closeSent && y.closed && y.closeCode == HeardCode(code, r, e.config.lib)
  {
    var p := CloseAnswered(e, x, f, code, r);
    OneEventMore(x.processor.log, CloseEvent(f.payload, e.config.lib));
  }

  lemma {:induction false} OneEventMore(log: seq<Event>, ev: Event)
    requires ev.Closing()
    ensures Select(IsMessage, log + [ev]) == Select(IsMessage, log) && Select(IsPing, log + [ev]) == Select(IsPing, log)
  {
    SelectNext(IsMessage, log, ev);
    SelectNext(IsPing, log, ev);
  }

  /** Any Close frame behind everything that was written. */
  lemma {:induction false} CloseHeardLast(eA: Env, eB: Env, a: Side, b: Side, f: Frame, code: int, r: seq<byte>,
                                          chunks: seq<seq<byte>>)
    requires Half(eB, a, b) && Half(eA, b, a) && Roomy(eA) && Roomy(eB)
    requires f.opCode == OP_CLOSE && f.payload == ClosePayload(code, r) && f.Legal(MAX_CONTROL)
    requires Completes(a.conn.session.out, f, b.seen, chunks)
    ensures var y := ArriveAll(eB, b.conn, chunks).session;
      && Select(IsMessage, y.processor.log) == a.sent && Select(IsPing, y.processor.log) == a.pings
      && y.closeReceived && y.closeSent && y.closed && y.closeCode == HeardCode(code, r, eB.config.lib)
  {
    CloseArrives(eA, eB, a, b, f, chunks);
    InformedAtClose(eA, eB, a, b);
    InformedHears(eB, UpToClose(eB, a, b).conn.session, a, f, code, r);
  }

  /**
   * What the peer of a user who closes has received and records, for every code and reason and with any traffic under
   * way: all messages and pings sent before. The two ends record the same code exactly when the code may be sent and
   * the reason is decodable after it was cut to 123 bytes; cutting may split a character.
   */
  lemma {:induction false} CloseRecorded(eA: Env, eB: Env, a: Side, b: Side, code: int, reason: Text, chunks: seq<seq<byte>>)
    requires Half(eB, a, b) && Half(eA, b, a) && Roomy(eA) && Roomy(eB)
    requires Arriving(Stream(a)[..b.seen], chunks, Perform(eA, a.conn, UserClose(code, reason)).session.out)
    ensures var y := ArriveAll(eB, b.conn, chunks).session;
      && Select(IsMessage, y.processor.log) == a.sent && Select(IsPing, y.processor.log) == a.pings
      && y.closeReceived && y.closeSent && y.closed
      && y.closeCode == HeardCode(code, SentReason(eA, reason), eB.config.lib)
    ensures var y, r := ArriveAll(eB, b.conn, chunks).session, SentReason(eA, reason);
      0 <= code < 0x1_0000 ==>
      (y.closeCode == code
       <==> IsCloseCodeValid(code) && (r == [] || eB.config.lib.decode(r).Some? || code == CLOSE_WRONG_DATATYPE))
  {
    var r := SentReason(eA, reason);
    CloseStarted(eA, a.conn, code, reason);
    CloseHeardLast(eA, eB, a, b, CloseFrame(eA, a.conn.session, code, reason), code, r, chunks);
    if 0 <= code < 0x1_0000 {
      SameCode(code, r, eB.config.lib);
    }
  }

  /** The reason survives the way there and back in the peer's library. */
  predicate Faithful(r: seq<byte>, lib: TextLib) {
    if r == [] then lib.toUtf8([]) == [] else lib.decode(r).Some? && lib.toUtf8(lib.decode(r).value) == r
  }

  /** A valid code and a faithful reason are echoed as they came. */
  lemma {:induction false} CloseEchoed(e: Env, x: Session, f: Frame, code: int, r: seq<byte>)
    returns (p: Processor, g: Frame)
    requires f.opCode == OP_CLOSE && f.payload == ClosePayload(code, r) && !x.closed && !x.closeSent
    requires IsCloseCodeValid(code) && Faithful(r, e.config.lib) && |r| <= MAX_REASON
    ensures var y := OnSession(e, x, Complete(f));
      y == x.(processor := p, closeReceived := true, drawn := Drawn(x), out := x.out + [g],
              closed := true, closeSent := true, closeCode := code, closeReason := e.config.lib.fromUtf8(r))
    ensures g == Frame(true, OP_CLOSE, g.key, f.payload)
    ensures p == Processor(x.processor.asm, x.processor.log + [CloseEvent(f.payload, e.config.lib)])
  {
    p := CloseAnswered(e, x, f, code, r);
    g := Frame(true, OP_CLOSE, NextKey(e, x), f.payload);
    FaithfullyHeard(code, r, e.config.lib);
    ClosesOnce(e, x.(closeReceived := true, processor := p), code, HeardReason(code, r, e.config.lib), r);
  }

  lemma {:induction false} FaithfullyHeard(code: int, r: seq<byte>, lib: TextLib)
    requires IsCloseCodeValid(code) && Faithful(r, lib) && |r| <= MAX_REASON
    ensures HeardCode(code, r, lib) == code && Left(lib.toUtf8(HeardReason(code, r, lib)), MAX_REASON) == r
  {
  }

  lemma {:induction false} ClosesOnce(e: Env, x: Session, code: int, reason: Text, r: seq<byte>)
    requires !x.closed && !x.closeSent && Left(e.config.lib.toUtf8(reason), MAX_REASON) == r
    ensures Close(e, x, code, reason)
         == x.(drawn := Drawn(x), out := x.out + [Frame(true, OP_CLOSE, NextKey(e, x), ClosePayload(code, r))],
               closed := true, closeSent := true, closeCode := code, closeReason := e.config.lib.fromUtf8(r))
  {
  }

  /** A Close frame that comes back to an endpoint that has closed: it is noted as received, and that is all. */
  lemma {:induction false} EchoIgnored(e: Env, x: Session, g: Frame)
    requires x.closed && x.closeSent && g.opCode == OP_CLOSE
    ensures var y := OnSession(e, x, Complete(g)); y == x.(processor := y.processor, closeReceived := true)
    ensures OnSession(e, x, Complete(g)).processor
         == Processor(x.processor.asm, x.processor.log + [CloseEvent(g.payload, e.config.lib)])
  {
    var ev := CloseEvent(g.payload, e.config.lib);
    assert Handle(x.processor.asm, Complete(g), e.config) == Step(x.processor.asm, [ev], true);
    ReactOne(e, x.(processor := Processor(x.processor.asm, x.processor.log + [ev])), ev);
  }

  lemma {:induction false} SameProcessor(e: Env, x: Session, events: seq<Event>)
    ensures ReactAll(e, x, events).processor == x.processor
    decreases events
  {
    if events != [] {
      SameProcessor(e, React(e, x, events[0]), events[1..]);
    }
  }

  /** On a socket that goes on after it was closed, the processor of an endpoint is just the processor. */
  lemma {:induction false} GoesOnReading(e: Env, s: FrameState, x: Session, buf: seq<byte>)
    requires !e.deaf
    ensures var u := Feed(Processing(e.config), e.config.maxFrame, s, x.processor, buf);
      var o := Feed(Answering(e), e.config.maxFrame, s, x, buf);
      !o.halted && o.frame == u.frame && o.rest == u.rest && o.state.processor == u.state
    decreases Weight(s, buf)
  {
    if buf != [] {
      var (t, rest) := Run(s, buf, e.config.maxFrame);
      if t.Done() {
        FinishingDescends(s, buf, e.config.maxFrame);
        var step := Handle(x.processor.asm, t, e.config);
        SameProcessor(e, x.(processor := Processor(step.next, x.processor.log + step.events)), step.events);
        GoesOnReading(e, AtHeader, OnSession(e, x, t), rest);
      }
    }
  }

  lemma {:induction false} ReadsOn(e: Env, r: Conn, got: seq<byte>, more: seq<byte>)
    requires !e.deaf && ReceiverOk(e, r, got)
    ensures ReceiverOk(e, Arrive(e, r, more), got + more)
  {
    PartOfMore(e.config, got, more);
    FeedSplit(Processing(e.config), e.config.maxFrame, AtHeader, FRESH, got, more);
    GoesOnReading(e, r.frame, r.session, r.rx + more);
  }

  /** The rest of the peer's stream, read by an endpoint that has closed. */
  lemma {:induction false} RestRead(e: Env, b: Side, r: Conn, seen: nat)
    requires !e.deaf && SenderOk(e.config, b.conn.session, b.sent, b.pings)
    requires seen <= |Stream(b)| && ReceiverOk(e, r, Stream(b)[..seen])
    ensures var d := Arrive(e, r, Stream(b)[seen..]);
      && d.frame == AtHeader && d.rx == [] && Select(IsMessage, d.session.processor.log) == b.sent
  {
    assert Stream(b)[..seen] + Stream(b)[seen..] == Stream(b);
    ReadsOn(e, r, Stream(b)[..seen], Stream(b)[seen..]);
    WholeStream(e, Arrive(e, r, Stream(b)[seen..]), b.conn.session.out);
  }

  /** Once closed: the record stays, and nothing but answers to pings is written. */
  predicate OnlyPongs(x: Session, y: Session) {
    && y.closed && y.closeSent && y.closeCode == x.closeCode && y.closeReason == x.closeReason
    && x.out <= y.out && forall i :: |x.out| <= i < |y.out| ==> y.out[i].opCode == OP_PONG
  }

  lemma {:induction false} ReactionsPong(e: Env, x: Session, y: Session, events: seq<Event>)
    requires OnlyPongs(x, y)
    ensures OnlyPongs(x, ReactAll(e, y, events))
    decreases events
  {
    if events != [] {
      ReactionsPong(e, x, React(e, y, events[0]), events[1..]);
    }
  }

  lemma {:induction false} ArrivalPongs(e: Env, c: Conn, b: seq<byte>)
    requires c.session.closed && c.session.closeSent && Sound(c.frame)
    ensures OnlyPongs(c.session, Arrive(e, c, b).session)
  {
    var h, inv := Answering(e), (y: Session) => OnlyPongs(c.session, y);
    forall y: Session, t: FrameState | inv(y) && t.Done() && Sound(t) ensures inv(h(y, t).0) {
      var step := Handle(y.processor.asm, t, e.config);
      ReactionsPong(e, c.session, y.(processor := Processor(step.next, y.processor.log + step.events)), step.events);
    }
    FeedPreserves(h, inv, e.config.maxFrame, c.frame, c.session, c.rx + b);
  }

  /**
   * The initiator after the rest of the peer's stream and the echo, in any chunks. A deaf socket takes nothing more.
   * Otherwise all messages of the peer are delivered, pings are still answered, and compared with the moment before
   * the echo nothing has changed but that a Close frame was received.
   */
  lemma {:induction false} EchoReturns(e: Env, b: Side, c: Conn, seen: nat, g: Frame, chunks: seq<seq<byte>>)
    requires c.session.closed && c.session.closeSent && Roomy(e)
    requires SenderOk(e.config, b.conn.session, b.sent, b.pings) && g.opCode == OP_CLOSE && g.Legal(MAX_CONTROL)
    requires Completes(b.conn.session.out, g, seen, chunks)
    requires !e.deaf ==> ReceiverOk(e, c, Stream(b)[..seen])
    ensures e.deaf ==> ArriveAll(e, c, chunks) == c
    ensures !e.deaf ==>
      var d, d' := Arrive(e, c, Stream(b)[seen..]), ArriveAll(e, c, chunks);
      && d' == d.(session := d.session.(processor := d'.session.processor, closeReceived := true))
      && Select(IsMessage, d'.session.processor.log) == b.sent && OnlyPongs(c.session, d'.session)
  {
    LastComes(b.conn.session.out, g, seen, chunks);
    if e.deaf {
      Segmentation(e, c, chunks);
    } else {
      var d := Arrive(e, c, Stream(b)[seen..]);
      RestRead(e, b, c, seen);
      PartOfMore(e.config, Stream(b)[..seen], []);
      ArrivalPongs(e, c, Stream(b)[seen..]);
      ArriveChunks(e, c, chunks, Stream(b)[seen..], g);
      EchoIgnored(e, d.session, g);
      OneEventMore(d.session.processor.log, CloseEvent(g.payload, e.config.lib));
    }
  }

  /** The peer's answer: all that was sent before is delivered, the record is the same, and the last frame is the echo. */
  lemma {:induction false} CloseEchoedLast(eA: Env, eB: Env, a: Side, b: Side, code: int, reason: Text,
                                           chunks: seq<seq<byte>>) returns (g: Frame)
    requires Half(eB, a, b) && Half(eA, b, a) && Roomy(eA) && Roomy(eB)
    requires IsCloseCodeValid(code) && Faithful(SentReason(eA, reason), eB.config.lib)
    requires Completes(a.conn.session.out, CloseFrame(eA, a.conn.session, code, reason), b.seen, chunks)
    ensures var x, y := UpToClose(eB, a, b).conn.session, ArriveAll(eB, b.conn, chunks).session;
      && y == x.(processor := y.processor, closeReceived := true, drawn := Drawn(x), out := x.out + [g], closed := true,
                 closeSent := true, closeCode := code, closeReason := eB.config.lib.fromUtf8(SentReason(eA, reason)))
      && Select(IsMessage, y.processor.log) == a.sent && Select(IsPing, y.processor.log) == a.pings
    ensures g == Frame(true, OP_CLOSE, g.key, CloseFrame(eA, a.conn.session, code, reason).payload)
  {
    var f, r := CloseFrame(eA, a.conn.session, code, reason), SentReason(eA, reason);
    CloseStarted(eA, a.conn, code, reason);
    CloseArrives(eA, eB, a, b, f, chunks);
    InformedAtClose(eA, eB, a, b);
    InformedHears(eB, UpToClose(eB, a, b).conn.session, a, f, code, r);
    var p: Processor;
    p, g := CloseEchoed(eB, UpToClose(eB, a, b).conn.session, f, code, r);
  }

  // ----- a reason that is cut inside a character -----

  /** n times the two bytes of one accented letter. */
  function Accents(n: nat): (b: seq<byte>)
    ensures |b| == 2 * n
  {
    if n == 0 then [] else Accents(n - 1) + [0xC3, 0xA9]
  }

  function AccentText(n: nat): Text {
    seq(n, _ => 0xE9)
  }

  /** 61 of them are 122 bytes; one more does not fit, and its first byte is kept. */
  lemma {:induction false} AccentsCut(e: Env, n: nat)
    requires 2 * n + 1 == MAX_REASON
    requires e.config.lib.toUtf8(AccentText(n)) == Accents(n) && e.config.lib.toUtf8(AccentText(n + 1)) == Accents(n + 1)
    ensures SentReason(e, AccentText(n)) == Accents(n) && SentReason(e, AccentText(n + 1)) == Accents(n) + [0xC3]
  {
    assert Accents(n + 1) == Accents(n) + [0xC3] + [0xA9];
  }

  /** The sender's conversion of these reasons, and the receiver's of what is left after cutting. */
  predicate Accented(sender: TextLib, receiver: TextLib, n: nat) {
    && sender.toUtf8(AccentText(n)) == receiver.toUtf8(AccentText(n)) == Accents(n)
    && sender.toUtf8(AccentText(n + 1)) == Accents(n + 1)
    && receiver.fromUtf8(Accents(n)) == AccentText(n) && receiver.decode(Accents(n)) == Some(AccentText(n))
    && receiver.decode(Accents(n) + [0xC3]) == None
  }

  /**
   * A reason of 62 two-byte characters takes 124 bytes and is cut inside the last one: whatever the valid code was,
   * the peer records 1007.
   */
  lemma {:induction false} SplitReasonMisheard(eA: Env, eB: Env, a: Side, b: Side, code: int, n: nat, chunks: seq<seq<byte>>)
    requires Half(eB, a, b) && Half(eA, b, a) && Roomy(eA) && Roomy(eB) && IsCloseCodeValid(code)
    requires 2 * n + 1 == MAX_REASON && Accented(eA.config.lib, eB.config.lib, n)
    requires Arriving(Stream(a)[..b.seen], chunks, Perform(eA, a.conn, UserClose(code, AccentText(n + 1))).session.out)
    ensures n + 1 == 62 && ArriveAll(eB, b.conn, chunks).session.closeCode == CLOSE_WRONG_DATATYPE
  {
    AccentsCut(eA, n);
    UndecodableHeard(code, Accents(n) + [0xC3], eB.config.lib);
    CloseRecorded(eA, eB, a, b, code, AccentText(n + 1), chunks);
  }

  lemma {:induction false} UndecodableHeard(code: int, r: seq<byte>, lib: TextLib)
    requires IsCloseCodeValid(code) && r != [] && lib.decode(r) == None
    ensures HeardCode(code, r, lib) == CLOSE_WRONG_DATATYPE
  {
  }

  /** With one character less the peer records the code and the reason as they are. */
  lemma {:induction false} ShorterReasonHeard(eA: Env, eB: Env, a: Side, b: Side, code: int, n: nat, chunks: seq<seq<byte>>)
    requires Half(eB, a, b) && Half(eA, b, a) && Roomy(eA) && Roomy(eB) && IsCloseCodeValid(code)
    requires 2 * n + 1 == MAX_REASON && Accented(eA.config.lib, eB.config.lib, n)
    requires Arriving(Stream(a)[..b.seen], chunks, Perform(eA, a.conn, UserClose(code, AccentText(n))).session.out)
    ensures var y := ArriveAll(eB, b.conn, chunks).session; y.closeCode == code && y.closeReason == AccentText(n)
  {
    AccentsCut(eA, n);
    CloseStarted(eA, a.conn, code, AccentText(n));
    var g := CloseEchoedLast(eA, eB, a, b, code, AccentText(n), chunks);
  }

  // ----- agreement -----

  /** Answering does not change what was written before. */
  lemma {:induction false} SeenStays(eA: Env, eB: Env, a: Side, b: Side)
    requires Half(eB, a, b) && Half(eA, b, a)
    ensures var b0 := UpToClose(eB, a, b); a.seen <= |Stream(b0)| && Stream(b0)[..a.seen] == Stream(b)[..a.seen]
  {
    DeliverReceives(eB, b, a, |Stream(a)| - b.seen);
    WrittenStays(eB, b.conn, Stream(a)[b.seen..], a.seen);
  }

  lemma {:induction false} WrittenStays(e: Env, c: Conn, more: seq<byte>, n: nat)
    requires Sound(c.frame) && n <= |EncodeAll(c.session.out)|
    ensures var stream := EncodeAll(Arrive(e, c, more).session.out);
      n <= |stream| && stream[..n] == EncodeAll(c.session.out)[..n]
  {
    OutGrows(e, c.frame, c.session, c.rx + more);
    StreamGrows(c.session.out, Arrive(e, c, more).session.out, n);
  }

  /**
   * How closing ends. The peer has all messages and pings that were sent before, records the same code and what its
   * library makes of the same reason, and the last that it writes is the echo, with the payload of the Close frame.
   * Whatever was under way in the other direction, the initiator keeps its record and writes nothing but answers to
   * pings. If its socket still delivers, it gets all messages, and compared with the moment before the echo nothing
   * has changed but that a Close frame was received.
   */
  predicate Agreed(eA: Env, eB: Env, a: Side, b: Side, code: int, reason: seq<byte>, a1: Conn, b1: Conn, a2: Conn) {
    var x, y, n := a1.session, b1.session, |b1.session.out| - 1;
    && x.out == a.conn.session.out + [Frame(true, OP_CLOSE, NextKey(eA, a.conn.session), ClosePayload(code, reason))]
    && x.closeCode == y.closeCode == code
    && x.closeReason == eA.config.lib.fromUtf8(reason) && y.closeReason == eB.config.lib.fromUtf8(reason)
    && Select(IsMessage, y.processor.log) == a.sent && Select(IsPing, y.processor.log) == a.pings
    && n >= 0 && y.out[n] == Frame(true, OP_CLOSE, y.out[n].key, ClosePayload(code, reason))
    && y.closed && y.closeSent && y.closeReceived
    && a.seen <= |EncodeAll(y.out[..n])|
    && if eA.deaf then a2 == a1 else
         && EchoHarmless(eA, a1, EncodeAll(y.out[..n])[a.seen..], a2)
         && Select(IsMessage, a2.session.processor.log) == b.sent && OnlyPongs(x, a2.session)
  }

  /** Arriving after the other bytes, the echo only leaves a note. */
  predicate EchoHarmless(e: Env, c: Conn, others: seq<byte>, d: Conn) {
    var before := Arrive(e, c, others);
    d == before.(session := before.session.(processor := d.session.processor, closeReceived := true))
  }

  /**
   * Close agreement. The user of the first endpoint closes with a valid code, and with a reason that the peer's library
   * takes and gives back, while anything may be under way in both directions; then everything that was written arrives,
   * in any chunks, first at the peer and then what it wrote at the initiator.
   */
  lemma {:induction false} CloseAgreement(eA: Env, eB: Env, a: Side, b: Side, code: int, reason: Text,
                                          there: seq<seq<byte>>, back: seq<seq<byte>>)
    requires Half(eB, a, b) && Half(eA, b, a) && Roomy(eA) && Roomy(eB)
    requires IsCloseCodeValid(code) && Faithful(SentReason(eA, reason), eB.config.lib)
    requires var a1, b1 := Perform(eA, a.conn, UserClose(code, reason)), ArriveAll(eB, b.conn, there);
      && Arriving(Stream(a)[..b.seen], there, a1.session.out) && Arriving(Stream(b)[..a.seen], back, b1.session.out)
    ensures var a1, b1 := Perform(eA, a.conn, UserClose(code, reason)), ArriveAll(eB, b.conn, there);
      Agreed(eA, eB, a, b, code, SentReason(eA, reason), a1, b1, ArriveAll(eA, a1, back))
  {
    var a1, b0 := Perform(eA, a.conn, UserClose(code, reason)), UpToClose(eB, a, b);
    CloseStarted(eA, a.conn, code, reason);
    var g := CloseEchoedLast(eA, eB, a, b, code, reason, there);
    ReachesClose(eA, eB, a, b);
    SeenStays(eA, eB, a, b);
    PayloadParts(code, SentReason(eA, reason));
    var out := b0.conn.session.out;
    assert (out + [g])[..|out|] == out;
    EchoReturns(eA, b0, a1, a.seen, g, back);
  }

  /** The same in every run: when the first user closes at its end, whatever the two ends have done before. */
  lemma {:induction false} CloseAfterRun(eA: Env, eB: Env, a: Side, b: Side, steps: seq<(bool, Move)>,
                                         code: int, reason: Text, there: seq<seq<byte>>, back: seq<seq<byte>>)
    requires Connected(a) && Connected(b) && Roomy(eA) && Roomy(eB)
    requires NeverLengthens(eA.config.lib) && NeverLengthens(eB.config.lib)
    requires IsCloseCodeValid(code) && Faithful(SentReason(eA, reason), eB.config.lib)
    ensures var (a', b') := Execute(eA, eB, a, b, steps);
      var a1, b1 := Perform(eA, a'.conn, UserClose(code, reason)), ArriveAll(eB, b'.conn, there);
      && b'.seen <= |Stream(a')| && a'.seen <= |Stream(b')|
      && (Arriving(Stream(a')[..b'.seen], there, a1.session.out) && Arriving(Stream(b')[..a'.seen], back, b1.session.out)
          ==> Agreed(eA, eB, a', b', code, SentReason(eA, reason), a1, b1, ArriveAll(eA, a1, back)))
  {
    RunsInStep(eA, eB, a, b, steps);
    var (a', b') := Execute(eA, eB, a, b, steps);
    var a1, b1 := Perform(eA, a'.conn, UserClose(code, reason)), ArriveAll(eB, b'.conn, there);
    if Arriving(Stream(a')[..b'.seen], there, a1.session.out) && Arriving(Stream(b')[..a'.seen], back, b1.session.out) {
      CloseAgreement(eA, eB, a', b', code, reason, there, back);
    }
  }
}
