/** One end of a connection: what it answers to the events of its processor, and what its user makes it send. */
module Endpoint {
  import opened Bytes
  import opened Protocol
  import opened Frames
  import opened Reader
  import opened Feeder
  import opened Assembler
  import opened Messages

  /** What stays fixed: limits and texts, the mask generator, the outgoing frame size, and how a closed socket behaves. */
  datatype Env = Env(config: Config, masks: nat -> u32, frameSize: nat, deaf: bool)

  /** The connection apart from the bytes that wait to be read; out are the frames written to the current socket. */
  datatype Session = Session(
    processor: Processor,
    mustMask: bool,
    drawn: nat,
    out: seq<Frame>,
    closed: bool,
    closeSent: bool,
    closeReceived: bool,
    closeCode: int,
    closeReason: Text)

  datatype Conn = Conn(frame: FrameState, rx: seq<byte>, session: Session)

  predicate Dead(e: Env, x: Session) {
    x.closed && e.deaf
  }

  /** The key of the next frame; 0 stands for no key. */
  function NextKey(e: Env, x: Session): u32 {
    if x.mustMask then e.masks(x.drawn) else 0
  }

  function Drawn(x: Session): nat {
    if x.mustMask then x.drawn + 1 else x.drawn
  }

  /** A key is drawn also when the socket takes nothing any more. */
  function Write(e: Env, x: Session, fin: bool, opCode: OpCode, payload: seq<byte>): Session {
    x.(out := if Dead(e, x) then x.out else x.out + [Frame(fin, opCode, NextKey(e, x), payload)], drawn := Drawn(x))
  }

  const MAX_REASON: nat := 123
  const MAX_CONTROL: nat := 125

  function ClosePayload(code: int, reasonUtf8: seq<byte>): seq<byte> {
    ToBigEndian(code % 0x1_0000, 2) + reasonUtf8
  }

  function Close(e: Env, x: Session, code: int, reason: Text): Session {
    if x.closeSent then x.(closed := true)
    else
      var reasonUtf8 := Left(e.config.lib.toUtf8(reason), MAX_REASON);
      Write(e, x, true, OP_CLOSE, ClosePayload(code, reasonUtf8)).(
        closed := true, closeSent := true, closeCode := code, closeReason := e.config.lib.fromUtf8(reasonUtf8))
  }

  /** Pings are answered, errors and Close frames close, everything else goes to the user. */
  function React(e: Env, x: Session, ev: Event): Session {
    match ev
    case PingReceived(data) => Write(e, x, true, OP_PONG, data)
    case CloseReceived(code, reason) => Close(e, x.(closeReceived := true), code, reason)
    case ErrorEncountered(code, reason) => Close(e, x, code, reason)
    case _ => x
  }

  function ReactAll(e: Env, x: Session, events: seq<Event>): Session
    decreases events
  {
    if events == [] then x else ReactAll(e, React(e, x, events[0]), events[1..])
  }

  function OnSession(e: Env, x: Session, s: FrameState): Session
    requires s.Done()
  {
    var step := Handle(x.processor.asm, s, e.config);
    ReactAll(e, x.(processor := Processor(step.next, x.processor.log + step.events)), step.events)
  }

  function Answering(e: Env): Consumer<Session> {
    (x: Session, s: FrameState) => if s.Done() then (OnSession(e, x, s), Dead(e, OnSession(e, x, s))) else (x, true)
  }

  /** Works through the unread bytes; closing a deaf socket throws the rest away. */
  function Pump(e: Env, c: Conn): Conn {
    var o := Feed(Answering(e), e.config.maxFrame, c.frame, c.session, c.rx);
    Conn(o.frame, if o.halted then [] else o.rest, o.state)
  }

  lemma {:induction false} PumpNothing(e: Env, c: Conn)
    ensures c.rx == [] ==> Pump(e, c) == c
  {
  }

  function Arrive(e: Env, c: Conn, b: seq<byte>): Conn {
    if Dead(e, c.session) then c else Pump(e, c.(rx := c.rx + b))
  }

  function ArriveAll(e: Env, c: Conn, chunks: seq<seq<byte>>): Conn
    decreases chunks
  {
    if chunks == [] then c else ArriveAll(e, Arrive(e, c, chunks[0]), chunks[1..])
  }

  lemma {:induction false} PumpHalts(e: Env, c: Conn)
    requires !Dead(e, c.session)
    ensures var o := Feed(Answering(e), e.config.maxFrame, c.frame, c.session, c.rx); o.halted == Dead(e, o.state)
  {
    FeedHalts(Answering(e), x => Dead(e, x), e.config.maxFrame, c.frame, c.session, c.rx);
  }

  /** Two arrivals have the effect of one, answers and closing included. */
  lemma {:induction false} ArriveTwice(e: Env, c: Conn, a: seq<byte>, b: seq<byte>)
    ensures Arrive(e, Arrive(e, c, a), b) == Arrive(e, c, a + b)
  {
    if !Dead(e, c.session) {
      var c1 := c.(rx := c.rx + a);
      PumpHalts(e, c1);
      FeedSplit(Answering(e), e.config.maxFrame, c.frame, c.session, c.rx + a, b);
      assert c.rx + a + b == c.rx + (a + b);
    }
  }

  /** Segmentation independence of the whole endpoint: only the bytes count, not how they are cut. */
  lemma {:induction false} Segmentation(e: Env, c: Conn, chunks: seq<seq<byte>>)
    requires chunks != []
    ensures ArriveAll(e, c, chunks) == Arrive(e, c, Flatten(chunks))
    decreases chunks
  {
    var next := Arrive(e, c, chunks[0]);
    if chunks[1..] == [] {
      assert ArriveAll(e, next, chunks[1..]) == next;
      assert chunks[0] + [] == chunks[0];
    } else {
      Segmentation(e, next, chunks[1..]);
      ArriveTwice(e, c, chunks[0], Flatten(chunks[1..]));
    }
  }

  lemma {:induction false} ReactAllConcat(e: Env, x: Session, events: seq<Event>, more: seq<Event>)
    ensures ReactAll(e, x, events + more) == ReactAll(e, ReactAll(e, x, events), more)
    decreases events
  {
    if events == [] {
      assert events + more == more;
    } else {
      assert (events + more)[1..] == events[1..] + more;
      ReactAllConcat(e, React(e, x, events[0]), events[1..], more);
    }
  }

  /** The session after the processor's reactions to the events that one call of the processor adds. */
  function Reacted(e: Env, x: Session, p: Processor): Session
    requires x.processor.log <= p.log
  {
    ReactAll(e, x.(processor := p), p.log[|x.processor.log|..])
  }

  lemma {:induction false} GoesOn(a: Assembly, s: FrameState, e: Env, x: Session)
    requires s.Done() && !Handle(a, s, e.config).stop
    ensures ReactAll(e, x, Handle(a, s, e.config).events) == x
  {
    var events := Handle(a, s, e.config).events;
    assert |events| == 1 && ReactAll(e, x, events[1..]) == x;
  }

  /** What follows one call of the processor: nothing, or more calls, unless the connection is dead. */
  function AfterCall(e: Env, x: Session, call: Outcome<Processor>): Outcome<Session>
    requires x.processor.log <= call.state.log
  {
    var y := Reacted(e, x, call.state);
    if !call.halted then Outcome(call.frame, y, call.rest, false)
    else if Dead(e, y) then Outcome(AtHeader, y, call.rest, true)
    else Feed(Answering(e), e.config.maxFrame, AtHeader, y, call.rest)
  }

  /** A frame after which the processor goes on by itself leaves nothing to react to. */
  lemma {:induction false} SilentFrame(e: Env, x: Session, t: FrameState)
    requires t.Done() && !Dead(e, x) && !Handle(x.processor.asm, t, e.config).stop
    ensures var p := OnDone(x.processor, t, e.config).0;
      && OnSession(e, x, t) == x.(processor := p) && !Dead(e, x.(processor := p))
      && forall q: Processor {:trigger x.(processor := q)} ::
           ReactAll(e, x.(processor := q), Handle(x.processor.asm, t, e.config).events) == x.(processor := q)
  {
    forall q: Processor ensures
      ReactAll(e, x.(processor := q), Handle(x.processor.asm, t, e.config).events) == x.(processor := q)
    {
      GoesOn(x.processor.asm, t, e, x.(processor := q));
    }
  }

  lemma {:induction false} StoppingCall(e: Env, x: Session, t: FrameState, rest: seq<byte>)
    requires t.Done() && Handle(x.processor.asm, t, e.config).stop
    ensures var p := OnDone(x.processor, t, e.config).0;
      && x.processor.log <= p.log
      && Dispatch(Answering(e), e.config.maxFrame, x, t, rest) == AfterCall(e, x, Outcome(AtHeader, p, rest, true))
  {
    var step := Handle(x.processor.asm, t, e.config);
    assert (x.processor.log + step.events)[|x.processor.log|..] == step.events;
  }

  /** Calling the processor and reacting to its signals afterwards is the same as reacting frame by frame. */
  lemma {:induction false} CallThenReact(e: Env, s: FrameState, x: Session, buf: seq<byte>)
    requires !Dead(e, x)
    ensures var call := Feed(Assembling(e.config), e.config.maxFrame, s, x.processor, buf);
      && x.processor.log <= call.state.log
      && Feed(Answering(e), e.config.maxFrame, s, x, buf) == AfterCall(e, x, call)
    decreases Weight(s, buf)
  {
    var h, g, limit := Assembling(e.config), Answering(e), e.config.maxFrame;
    if buf == [] {
      assert x.(processor := x.processor) == x;
    } else {
      var (t, rest) := Run(s, buf, limit);
      FeedStep(h, limit, s, x.processor, buf);
      FeedStep(g, limit, s, x, buf);
      if !t.Done() {
        assert x.(processor := x.processor) == x;
      } else if Handle(x.processor.asm, t, e.config).stop {
        StoppingCall(e, x, t, rest);
      } else {
        FinishingDescends(s, buf, limit);
        SilentFrame(e, x, t);
        var y := x.(processor := OnDone(x.processor, t, e.config).0);
        CallThenReact(e, AtHeader, y, rest);
        var call := Feed(h, limit, AtHeader, y.processor, rest);
        assert Feed(h, limit, s, x.processor, buf) == call;
        assert Feed(g, limit, s, x, buf) == Feed(g, limit, AtHeader, y, rest);
        ReactionsJoin(e, x, y, call.state, Handle(x.processor.asm, t, e.config).events);
      }
    }
  }

  lemma {:induction false} ReactionsJoin(e: Env, x: Session, y: Session, q: Processor, events: seq<Event>)
    requires y == x.(processor := y.processor) && y.processor.log == x.processor.log + events && y.processor.log <= q.log
    requires ReactAll(e, x.(processor := q), events) == x.(processor := q)
    ensures Reacted(e, x, q) == Reacted(e, y, q)
  {
    var more := q.log[|y.processor.log|..];
    assert q.log[|x.processor.log|..] == events + more;
    ReactAllConcat(e, x.(processor := q), events, more);
  }

  // ----- the user's operations -----

  /** Frames of at most size bytes; keys are drawn one after the other. */
  function WriteMessage(e: Env, x: Session, opCode: OpCode, data: seq<byte>): Session
    requires e.frameSize > 0
    decreases |data|
  {
    if |data| <= e.frameSize then Write(e, x, true, opCode, data)
    else WriteMessage(e, Write(e, x, false, opCode, data[..e.frameSize]), OP_CONTINUE, data[e.frameSize..])
  }

  datatype Action =
    | Arrival(bytes: seq<byte>)
    | SendMessage(isBinary: bool, data: seq<byte>)
    | SendPing(payload: seq<byte>)
    | UserClose(code: int, reason: Text)
    | Timeout
    | Reopen(mask: bool)

  function Silence(e: Env, c: Conn): Conn {
    if Dead(e, c.session) then c.(rx := []) else c
  }

  /** A message can be split as long as frames may hold a byte. */
  predicate Possible(e: Env, a: Action) {
    a.SendMessage? ==> e.frameSize > 0
  }

  predicate AllPossible(e: Env, actions: seq<Action>) {
    forall i :: 0 <= i < |actions| ==> Possible(e, actions[i])
  }

  /** A new socket, and a new start for the processor and the flags; the record of the last closing stays. */
  function Reopened(c: Conn, mask: bool): Conn {
    Conn(AtHeader, [], c.session.(
      processor := Processor(IDLE, c.session.processor.log), mustMask := mask, out := [],
      closed := false, closeSent := false, closeReceived := false))
  }

  function Perform(e: Env, c: Conn, a: Action): Conn
    requires Possible(e, a)
  {
    match a
    case Arrival(b) => Arrive(e, c, b)
    case SendMessage(isBinary, data) =>
      if c.session.closed then c
      else c.(session := WriteMessage(e, c.session, if isBinary then OP_BINARY else OP_TEXT, data))
    case SendPing(payload) => c.(session := Write(e, c.session, true, OP_PING, Left(payload, MAX_CONTROL)))
    case UserClose(code, reason) => Silence(e, c.(session := Close(e, c.session, code, reason)))
    case Timeout =>
      var p := TimedOut(c.session.processor, e.config.lib);
      Silence(e, Conn(AtHeader, c.rx, React(e, c.session.(processor := p), p.log[|p.log| - 1])))
    case Reopen(mask) => Reopened(c, mask)
  }

  function PerformAll(e: Env, c: Conn, actions: seq<Action>): Conn
    requires AllPossible(e, actions)
    decreases actions
  {
    if actions == [] then c else PerformAll(e, Perform(e, c, actions[0]), actions[1..])
  }

  // ----- at most one Close frame -----

  predicate NoClose(fs: seq<Frame>) {
    forall i :: 0 <= i < |fs| ==> fs[i].opCode != OP_CLOSE
  }

  predicate OnlyProbes(fs: seq<Frame>) {
    forall i :: 0 <= i < |fs| ==> fs[i].opCode == 0x9 || fs[i].opCode == 0xA
  }

  /**
   * Before closing there is no Close frame; afterwards one, with what is recorded, and only pings and pongs behind it;
   * nothing at all when the socket is deaf.
   */
  predicate CloseOk(e: Env, x: Session) {
    && (x.closeSent ==> x.closed)
    && if !x.closeSent then NoClose(x.out) && !x.closed
       else exists i :: 0 <= i < |x.out| && CloseAt(e, x, i)
  }

  predicate CloseAt(e: Env, x: Session, i: nat)
    requires i < |x.out|
  {
    var f := x.out[i];
    && NoClose(x.out[..i]) && OnlyProbes(x.out[i + 1..]) && (e.deaf ==> i + 1 == |x.out|)
    && f.opCode == OP_CLOSE && f.fin && 2 <= |f.payload| <= MAX_CONTROL
    && f.payload[..2] == ToBigEndian(x.closeCode % 0x1_0000, 2)
    && x.closeReason == e.config.lib.fromUtf8(f.payload[2..])
  }

  lemma {:induction false} WriteKeeps(e: Env, x: Session, fin: bool, opCode: OpCode, payload: seq<byte>)
    requires CloseOk(e, x) && if x.closeSent then opCode in {OP_PING, OP_PONG} else opCode != OP_CLOSE
    ensures CloseOk(e, Write(e, x, fin, opCode, payload))
  {
    var y := Write(e, x, fin, opCode, payload);
    if x.closeSent {
      var i :| 0 <= i < |x.out| && CloseAt(e, x, i);
      assert y.out[..i] == x.out[..i];
      assert !e.deaf ==> y.out[i + 1..] == x.out[i + 1..] + [y.out[|x.out|]];
      assert CloseAt(e, y, i);
    }
  }

  lemma {:induction false} CloseKeeps(e: Env, x: Session, code: int, reason: Text)
    requires CloseOk(e, x)
    ensures CloseOk(e, Close(e, x, code, reason)) && Close(e, x, code, reason).closeSent
  {
    var y := Close(e, x, code, reason);
    if x.closeSent {
      assert y == x;
    } else {
      var i := |x.out|;
      assert y.out[..i] == x.out && y.out[i + 1..] == [];
      var reasonUtf8 := Left(e.config.lib.toUtf8(reason), MAX_REASON);
      assert y.out[i].payload[..2] == ToBigEndian(code % 0x1_0000, 2) && y.out[i].payload[2..] == reasonUtf8;
      assert CloseAt(e, y, i);
    }
  }

  /** Once closed, the recorded code and reason stay. */
  predicate Recorded(x: Session, y: Session) {
    x.closeSent ==> y.closeSent && y.closeCode == x.closeCode && y.closeReason == x.closeReason
  }

  lemma {:induction false} ReactKeeps(e: Env, x: Session, events: seq<Event>)
    requires CloseOk(e, x)
    ensures var y := ReactAll(e, x, events); CloseOk(e, y) && Recorded(x, y)
    decreases events
  {
    if events != [] {
      match events[0] {
        case PingReceived(data) => WriteKeeps(e, x, true, OP_PONG, data);
        case CloseReceived(code, reason) =>
          CloseOkIgnores(e, x, x.(closeReceived := true));
          CloseKeeps(e, x.(closeReceived := true), code, reason);
        case ErrorEncountered(code, reason) => CloseKeeps(e, x, code, reason);
        case _ =>
      }
      ReactKeeps(e, React(e, x, events[0]), events[1..]);
    }
  }

  lemma {:induction false} CloseOkIgnores(e: Env, x: Session, y: Session)
    requires CloseOk(e, x) && y == x.(processor := y.processor, closeReceived := y.closeReceived)
    ensures CloseOk(e, y)
  {
    if x.closeSent {
      var i :| 0 <= i < |x.out| && CloseAt(e, x, i);
      assert CloseAt(e, y, i);
    }
  }

  lemma {:induction false} SessionKeeps(e: Env, x: Session, s: FrameState)
    requires CloseOk(e, x) && s.Done()
    ensures var y := OnSession(e, x, s); CloseOk(e, y) && Recorded(x, y)
  {
    var step := Handle(x.processor.asm, s, e.config);
    var x1 := x.(processor := Processor(step.next, x.processor.log + step.events));
    CloseOkIgnores(e, x, x1);
    ReactKeeps(e, x1, step.events);
  }

  lemma {:induction false} ArriveKeeps(e: Env, c: Conn, b: seq<byte>)
    requires CloseOk(e, c.session) && Sound(c.frame)
    ensures var d := Arrive(e, c, b); CloseOk(e, d.session) && Sound(d.frame) && Recorded(c.session, d.session)
  {
    if !Dead(e, c.session) {
      var h, inv := Answering(e), (y: Session) => CloseOk(e, y) && Recorded(c.session, y);
      forall y: Session, t: FrameState | inv(y) && t.Done() && Sound(t) ensures inv(h(y, t).0) {
        SessionKeeps(e, y, t);
      }
      FeedPreserves(h, inv, e.config.maxFrame, c.frame, c.session, c.rx + b);
    }
  }

  lemma {:induction false} MessageKeeps(e: Env, x: Session, opCode: OpCode, data: seq<byte>)
    requires e.frameSize > 0 && CloseOk(e, x) && !x.closeSent && opCode != OP_CLOSE
    ensures var y := WriteMessage(e, x, opCode, data); CloseOk(e, y) && Recorded(x, y)
    decreases |data|
  {
    if |data| <= e.frameSize {
      WriteKeeps(e, x, true, opCode, data);
    } else {
      WriteKeeps(e, x, false, opCode, data[..e.frameSize]);
      MessageKeeps(e, Write(e, x, false, opCode, data[..e.frameSize]), OP_CONTINUE, data[e.frameSize..]);
    }
  }

  lemma {:induction false} ExpiryKeeps(e: Env, x: Session)
    requires CloseOk(e, x)
    ensures var p := TimedOut(x.processor, e.config.lib);
      var y := React(e, x.(processor := p), p.log[|p.log| - 1]);
      CloseOk(e, y) && Recorded(x, y)
  {
    var p := TimedOut(x.processor, e.config.lib);
    CloseOkIgnores(e, x, x.(processor := p));
    CloseKeeps(e, x.(processor := p), CLOSE_GOING_AWAY, e.config.lib.tr(ReadTimeout));
  }

  lemma {:induction false} PerformKeeps(e: Env, c: Conn, a: Action)
    requires Possible(e, a) && CloseOk(e, c.session) && Sound(c.frame)
    ensures var d := Perform(e, c, a);
      CloseOk(e, d.session) && Sound(d.frame) && (!a.Reopen? ==> Recorded(c.session, d.session))
  {
    var x := c.session;
    match a
    case Arrival(b) => ArriveKeeps(e, c, b);
    case SendMessage(isBinary, data) =>
      if !x.closed {
        MessageKeeps(e, x, if isBinary then OP_BINARY else OP_TEXT, data);
      }
    case SendPing(payload) => WriteKeeps(e, x, true, OP_PING, Left(payload, MAX_CONTROL));
    case UserClose(code, reason) => CloseKeeps(e, x, code, reason);
    case Timeout => ExpiryKeeps(e, x);
    case Reopen(_) =>
  }

  /**
   * Over every interleaving of arrivals, sends, pings, closes, timeouts and reopenings: at most one Close frame is
   * written to a socket, it fits a control frame, it carries the recorded code and reason, and no data follows it.
   */
  lemma {:induction false} AtMostOneClose(e: Env, c: Conn, actions: seq<Action>)
    requires AllPossible(e, actions) && CloseOk(e, c.session) && Sound(c.frame)
    ensures var d := PerformAll(e, c, actions);
      && CloseOk(e, d.session)
      && ((forall a :: a in actions ==> !a.Reopen?) ==> Recorded(c.session, d.session))
      && forall i, j :: 0 <= i < j < |d.session.out| ==>
           d.session.out[i].opCode != OP_CLOSE || d.session.out[j].opCode != OP_CLOSE
    decreases actions
  {
    if actions == [] {
      OnlyOne(e, c.session);
    } else {
      PerformKeeps(e, c, actions[0]);
      AtMostOneClose(e, Perform(e, c, actions[0]), actions[1..]);
    }
  }

  lemma {:induction false} OnlyOne(e: Env, x: Session)
    requires CloseOk(e, x)
    ensures forall i, j :: 0 <= i < j < |x.out| ==> x.out[i].opCode != OP_CLOSE || x.out[j].opCode != OP_CLOSE
  {
    if x.closeSent {
      var k :| 0 <= k < |x.out| && CloseAt(e, x, k);
      forall i | 0 <= i < |x.out| && i != k ensures x.out[i].opCode != OP_CLOSE {
        if i < k {
          assert x.out[i] == x.out[..k][i];
        } else {
          assert x.out[i] == x.out[k + 1..][i - k - 1];
        }
      }
    }
  }
}
