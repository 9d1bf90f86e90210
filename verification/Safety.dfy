/** Invariants over every run of the processor and of an endpoint. */
module Safety {
  import opened Bytes
  import opened Protocol
  import opened Frames
  import opened Reader
  import opened Feeder
  import opened Assembler
  import opened Messages
  import opened Endpoint

  // ----- the processor: data under limits that may change between frames, and timeouts -----

  datatype Input = Data(config: Config, bytes: seq<byte>) | Expired(lib: TextLib)

  datatype Machine = Machine(frame: FrameState, processor: Processor, rest: seq<byte>)

  const START := Machine(AtHeader, Processor(IDLE, []), [])

  function Take(m: Machine, i: Input): Machine {
    match i
    case Data(c, b) =>
      var o := Feed(Processing(c), c.maxFrame, m.frame, m.processor, m.rest + b);
      Machine(o.frame, o.state, o.rest)
    case Expired(lib) => Machine(AtHeader, TimedOut(m.processor, lib), m.rest)
  }

  function After(inputs: seq<Input>): Machine {
    if inputs == [] then START else Take(After(inputs[..|inputs| - 1]), inputs[|inputs| - 1])
  }

  ghost predicate Decodes(i: Input) {
    i.Data? ==> NeverLengthens(i.config.lib)
  }

  /**
   * In every run the processor keeps its invariant: the open buffers are what was signalled since the last message or
   * error, every message is the concatenation of its signalled fragments, every code is valid; and the messages that
   * the last input completes are within its limit.
   */
  lemma {:induction false} EveryRun(inputs: seq<Input>)
    requires forall i :: 0 <= i < |inputs| ==> Decodes(inputs[i])
    ensures var m := After(inputs); Sound(m.frame) && RunOk(m.processor, |m.processor.log|, 0)
    ensures var n := |inputs|;
      n > 0 && inputs[n - 1].Data? ==>
        RunOk(After(inputs).processor, |After(inputs[..n - 1]).processor.log|, inputs[n - 1].config.maxMessage)
    decreases |inputs|
  {
    if inputs != [] {
      var before, last := inputs[..|inputs| - 1], inputs[|inputs| - 1];
      EveryRun(before);
      var m := After(before);
      match last {
        case Data(c, b) => StreamSafety(c, m.frame, m.processor, m.rest + b);
        case Expired(lib) => TimeoutKeeps(m.processor, Config(0, 0, lib), |m.processor.log|);
      }
    }
  }

  // ----- the endpoint: codes that it closes with -----

  predicate CodesOk(log: seq<Event>) {
    forall i :: 0 <= i < |log| ==> CodeOk(log[i])
  }

  predicate CodeOk(e: Event) {
    match e
    case CloseReceived(code, _) => IsCloseCodeValid(code)
    case ErrorEncountered(code, _) => IsCloseCodeValid(code)
    case _ => true
  }

  /** All codes handed on may be sent; the code of the Close frame may be sent, or the user chose it. */
  predicate ReactiveOk(x: Session, chosen: set<int>) {
    CodesOk(x.processor.log) && (x.closeSent ==> IsCloseCodeValid(x.closeCode) || x.closeCode in chosen)
  }

  function UserCodes(actions: seq<Action>): set<int> {
    set a | a in actions && a.UserClose? :: a.code
  }

  lemma {:induction false} FrameCodes(a: Assembly, s: FrameState, c: Config)
    requires s.Done() && Sound(s)
    ensures CodesOk(Handle(a, s, c).events)
  {
    match s
    case Refused(_) =>
    case Complete(f) =>
      if IsControl(f.opCode) {
        CloseEventOk(f.payload, c.lib, []);
      }
  }

  lemma {:induction false} ReactionsOk(e: Env, x: Session, events: seq<Event>, chosen: set<int>)
    requires ReactiveOk(x, chosen) && CodesOk(events)
    ensures var y := ReactAll(e, x, events); ReactiveOk(y, chosen) && y.processor == x.processor
    decreases events
  {
    if events != [] {
      assert CodeOk(events[0]);
      ReactionsOk(e, React(e, x, events[0]), events[1..], chosen);
    }
  }

  lemma {:induction false} SessionOk(e: Env, x: Session, s: FrameState, chosen: set<int>)
    requires ReactiveOk(x, chosen) && s.Done() && Sound(s)
    ensures ReactiveOk(OnSession(e, x, s), chosen)
  {
    var step := Handle(x.processor.asm, s, e.config);
    FrameCodes(x.processor.asm, s, e.config);
    ReactionsOk(e, x.(processor := Processor(step.next, x.processor.log + step.events)), step.events, chosen);
  }

  lemma {:induction false} MessageIgnoresCodes(e: Env, x: Session, opCode: OpCode, data: seq<byte>, chosen: set<int>)
    requires e.frameSize > 0 && ReactiveOk(x, chosen)
    ensures ReactiveOk(WriteMessage(e, x, opCode, data), chosen)
    decreases |data|
  {
    if |data| > e.frameSize {
      MessageIgnoresCodes(e, Write(e, x, false, opCode, data[..e.frameSize]), OP_CONTINUE, data[e.frameSize..], chosen);
    }
  }

  lemma {:induction false} ActionOk(e: Env, c: Conn, a: Action, chosen: set<int>)
    requires Possible(e, a) && ReactiveOk(c.session, chosen) && Sound(c.frame)
    requires a.UserClose? ==> a.code in chosen
    ensures var d := Perform(e, c, a); ReactiveOk(d.session, chosen) && Sound(d.frame)
  {
    var x := c.session;
    match a
    case Arrival(b) =>
      var inv := (y: Session) => ReactiveOk(y, chosen);
      forall y: Session, t: FrameState | inv(y) && t.Done() && Sound(t) ensures inv(Answering(e)(y, t).0) {
        SessionOk(e, y, t, chosen);
      }
      FeedPreserves(Answering(e), inv, e.config.maxFrame, c.frame, x, c.rx + b);
    case SendMessage(isBinary, data) => MessageIgnoresCodes(e, x, if isBinary then OP_BINARY else OP_TEXT, data, chosen);
    case Timeout =>
      var p := TimedOut(x.processor, e.config.lib);
      assert CodesOk(p.log);
    case _ =>
  }

  lemma {:induction false} ActionsOk(e: Env, c: Conn, actions: seq<Action>, chosen: set<int>)
    requires AllPossible(e, actions) && ReactiveOk(c.session, chosen) && Sound(c.frame)
    requires UserCodes(actions) <= chosen
    ensures ReactiveOk(PerformAll(e, c, actions).session, chosen)
    decreases actions
  {
    if actions != [] {
      assert actions[0].UserClose? ==> actions[0].code in UserCodes(actions);
      assert forall a :: a in actions[1..] ==> a in actions;
      ActionOk(e, c, actions[0], chosen);
      ActionsOk(e, Perform(e, c, actions[0]), actions[1..], chosen);
    }
  }

  /**
   * Over every interleaving of arrivals, sends, timeouts, reopenings and closes: every code that the processor hands
   * on is valid, and the code of the Close frame is valid or one that the user closed with.
   */
  lemma {:induction false} CloseCodesLegal(e: Env, c: Conn, actions: seq<Action>)
    requires AllPossible(e, actions) && CodesOk(c.session.processor.log) && Sound(c.frame)
    ensures var d := PerformAll(e, c, actions).session;
      && CodesOk(d.processor.log)
      && ((c.session.closeSent ==> IsCloseCodeValid(c.session.closeCode)) && d.closeSent ==>
            IsCloseCodeValid(d.closeCode) || d.closeCode in UserCodes(actions))
  {
    ActionsOk(e, c, actions, UserCodes(actions) + {c.session.closeCode});
    if c.session.closeSent ==> IsCloseCodeValid(c.session.closeCode) {
      ActionsOk(e, c, actions, UserCodes(actions));
    }
  }

  // ----- the endpoint: every frame has its own key -----

  /** Frame i of the current socket has key number first + i, or none; no key is left out while the socket takes frames. */
  predicate KeysOk(e: Env, x: Session, first: nat) {
    if x.mustMask then
      && first + |x.out| <= x.drawn && (!Dead(e, x) ==> first + |x.out| == x.drawn)
      && forall i :: 0 <= i < |x.out| ==> x.out[i].key == e.masks(first + i)
    else
      forall i :: 0 <= i < |x.out| ==> x.out[i].key == 0
  }

  lemma {:induction false} WriteKeys(e: Env, x: Session, fin: bool, opCode: OpCode, payload: seq<byte>, first: nat)
    requires KeysOk(e, x, first)
    ensures KeysOk(e, Write(e, x, fin, opCode, payload), first)
  {
  }

  lemma {:induction false} CloseKeys(e: Env, x: Session, code: int, reason: Text, first: nat)
    requires KeysOk(e, x, first)
    ensures KeysOk(e, Close(e, x, code, reason), first)
  {
    WriteKeys(e, x, true, OP_CLOSE, ClosePayload(code, Left(e.config.lib.toUtf8(reason), MAX_REASON)), first);
  }

  lemma {:induction false} ReactionKeys(e: Env, x: Session, events: seq<Event>, first: nat)
    requires KeysOk(e, x, first)
    ensures KeysOk(e, ReactAll(e, x, events), first)
    decreases events
  {
    if events != [] {
      match events[0] {
        case PingReceived(data) => WriteKeys(e, x, true, OP_PONG, data, first);
        case CloseReceived(code, reason) => CloseKeys(e, x.(closeReceived := true), code, reason, first);
        case ErrorEncountered(code, reason) => CloseKeys(e, x, code, reason, first);
        case _ =>
      }
      ReactionKeys(e, React(e, x, events[0]), events[1..], first);
    }
  }

  lemma {:induction false} ArrivalKeys(e: Env, c: Conn, b: seq<byte>, first: nat)
    requires KeysOk(e, c.session, first) && Sound(c.frame)
    ensures KeysOk(e, Arrive(e, c, b).session, first)
  {
    var inv := (y: Session) => KeysOk(e, y, first);
    forall y: Session, t: FrameState | inv(y) && t.Done() && Sound(t) ensures inv(Answering(e)(y, t).0) {
      var step := Handle(y.processor.asm, t, e.config);
      ReactionKeys(e, y.(processor := Processor(step.next, y.processor.log + step.events)), step.events, first);
    }
    FeedPreserves(Answering(e), inv, e.config.maxFrame, c.frame, c.session, c.rx + b);
  }

  lemma {:induction false} MessageKeys(e: Env, x: Session, opCode: OpCode, data: seq<byte>, first: nat)
    requires e.frameSize > 0 && KeysOk(e, x, first)
    ensures KeysOk(e, WriteMessage(e, x, opCode, data), first)
    decreases |data|
  {
    if |data| <= e.frameSize {
      WriteKeys(e, x, true, opCode, data, first);
    } else {
      WriteKeys(e, x, false, opCode, data[..e.frameSize], first);
      MessageKeys(e, Write(e, x, false, opCode, data[..e.frameSize]), OP_CONTINUE, data[e.frameSize..], first);
    }
  }

  lemma {:induction false} ActionKeys(e: Env, c: Conn, a: Action, first: nat) returns (next: nat)
    requires Possible(e, a) && KeysOk(e, c.session, first) && Sound(c.frame)
    ensures KeysOk(e, Perform(e, c, a).session, next) && Sound(Perform(e, c, a).frame)
    ensures !a.Reopen? ==> next == first
  {
    var x := c.session;
    next := first;
    match a
    case Arrival(b) =>
      ArrivalKeys(e, c, b, first);
      ArrivalSound(e, c, b);
    case SendMessage(isBinary, data) => MessageKeys(e, x, if isBinary then OP_BINARY else OP_TEXT, data, first);
    case SendPing(payload) => WriteKeys(e, x, true, OP_PING, Left(payload, MAX_CONTROL), first);
    case UserClose(code, reason) => CloseKeys(e, x, code, reason, first);
    case Timeout =>
      var p := TimedOut(x.processor, e.config.lib);
      CloseKeys(e, x.(processor := p), CLOSE_GOING_AWAY, e.config.lib.tr(ReadTimeout), first);
    case Reopen(_) => next := x.drawn;
  }

  lemma {:induction false} ArrivalSound(e: Env, c: Conn, b: seq<byte>)
    requires Sound(c.frame)
    ensures Sound(Arrive(e, c, b).frame)
  {
    FeedPreserves(Answering(e), (_: Session) => true, e.config.maxFrame, c.frame, c.session, c.rx + b);
  }

  /**
   * Over every run: each frame on a socket, whatever caused it, has a key of its own, the next of the generator; an
   * endpoint that does not mask sends none.
   */
  lemma {:induction false} OwnKeys(e: Env, c: Conn, actions: seq<Action>, first: nat) returns (last: nat)
    requires AllPossible(e, actions) && KeysOk(e, c.session, first) && Sound(c.frame)
    ensures KeysOk(e, PerformAll(e, c, actions).session, last)
    ensures (forall a :: a in actions ==> !a.Reopen?) ==> last == first
    decreases actions
  {
    if actions == [] {
      last := first;
    } else {
      var next := ActionKeys(e, c, actions[0], first);
      last := OwnKeys(e, Perform(e, c, actions[0]), actions[1..], next);
    }
  }

  // ----- single actions -----

  /** After opening again nothing of the old connection is left but the log, the record and the place in the key sequence. */
  lemma {:induction false} ReopenedFresh(e: Env, c: Conn, mask: bool)
    ensures var d := Perform(e, c, Reopen(mask));
      && d.frame == AtHeader && d.rx == [] && d.session.out == [] && d.session.mustMask == mask
      && !d.session.closed && !d.session.closeSent && !d.session.closeReceived
      && !d.session.processor.asm.fragmented && d.session.processor.asm.binary == [] && d.session.processor.asm.text == []
      && d.session.processor.log == c.session.processor.log && d.session.drawn == c.session.drawn
      && d.session.closeCode == c.session.closeCode && d.session.closeReason == c.session.closeReason
  {
  }

  /** A ping carries the first 125 bytes of its payload, and the next key; nothing else changes. */
  lemma {:induction false} PingWritten(e: Env, c: Conn, payload: seq<byte>)
    requires !Dead(e, c.session)
    ensures var d, key := Perform(e, c, SendPing(payload)), if c.session.mustMask then e.masks(c.session.drawn) else 0;
      && d.session.out == c.session.out + [Frame(true, 0x9, key, if |payload| <= 125 then payload else payload[..125])]
      && d == c.(session := c.session.(out := d.session.out, drawn := d.session.drawn))
  {
    assert |payload| <= 125 ==> Left(payload, MAX_CONTROL) == payload;
  }
}
