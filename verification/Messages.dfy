/** What holds of the assembled messages over whole runs. */
module Messages {
  import opened Bytes
  import opened Protocol
  import opened Frames
  import opened Reader
  import opened Feeder
  import opened Assembler

  // ----- every byte stream -----

  /** The binary fragments signalled since the last message or error. */
  function OpenBinary(log: seq<Event>): seq<byte> {
    if log == [] then []
    else
      var before := log[..|log| - 1];
      match log[|log| - 1]
      case BinaryFrameReceived(data, _) => OpenBinary(before) + data
      case TextMessageReceived(_) => []
      case BinaryMessageReceived(_) => []
      case ErrorEncountered(_, _) => []
      case _ => OpenBinary(before)
  }

  /** The text fragments signalled since the last message or error. */
  function OpenText(log: seq<Event>): Text {
    if log == [] then []
    else
      var before := log[..|log| - 1];
      match log[|log| - 1]
      case TextFrameReceived(text, _) => OpenText(before) + text
      case TextMessageReceived(_) => []
      case BinaryMessageReceived(_) => []
      case ErrorEncountered(_, _) => []
      case _ => OpenText(before)
  }

  /** A message is what was signalled as its fragments; a code handed on for closing may be sent. */
  predicate EventOk(before: seq<Event>, e: Event) {
    match e
    case BinaryMessageReceived(data) => data == OpenBinary(before)
    case TextMessageReceived(text) => text == OpenText(before)
    case CloseReceived(code, _) => IsCloseCodeValid(code)
    case ErrorEncountered(code, _) => IsCloseCodeValid(code)
    case _ => true
  }

  predicate SizeOk(e: Event, limit: nat) {
    && (e.BinaryMessageReceived? ==> |e.data| <= limit)
    && (e.TextMessageReceived? ==> |e.text| <= limit)
  }

  predicate AssemblyOk(a: Assembly) {
    if a.fragmented then (a.opCode == OP_TEXT && a.binary == []) || (a.opCode == OP_BINARY && a.text == [])
    else a.binary == [] && a.text == []
  }

  /** Sizes are checked from the event number start on. */
  predicate LogOk(log: seq<Event>, start: nat, limit: nat) {
    && (forall i :: 0 <= i < |log| ==> EventOk(log[..i], log[i]))
    && start <= |log|
    && (forall i :: start <= i < |log| ==> SizeOk(log[i], limit))
  }

  /** The invariant of the processor. */
  predicate RunOk(p: Processor, start: nat, limit: nat) {
    AssemblyOk(p.asm) && p.asm.binary == OpenBinary(p.log) && p.asm.text == OpenText(p.log) && LogOk(p.log, start, limit)
  }

  ghost predicate NeverLengthens(lib: TextLib) {
    forall b :: lib.decode(b).Some? ==> |lib.decode(b).value| <= |b|
  }

  lemma {:induction false} Extend(log: seq<Event>, e: Event, start: nat, limit: nat)
    requires LogOk(log, start, limit) && EventOk(log, e) && SizeOk(e, limit)
    ensures LogOk(log + [e], start, limit)
    ensures (log + [e])[..|log|] == log
  {
    var after := log + [e];
    forall i | 0 <= i < |after| ensures EventOk(after[..i], after[i]) {
      assert after[..i] == log[..i];
    }
  }

  lemma {:induction false} OpenAfter(log: seq<Event>, e: Event)
    ensures OpenBinary(log + [e])
         == if IsMessage(e) || IsError(e) then [] else OpenBinary(log) + if e.BinaryFrameReceived? then e.data else []
    ensures OpenText(log + [e])
         == if IsMessage(e) || IsError(e) then [] else OpenText(log) + if e.TextFrameReceived? then e.text else []
  {
    assert (log + [e])[..|log|] == log;
  }

  lemma {:induction false} CloseEventOk(payload: seq<byte>, lib: TextLib, log: seq<Event>)
    ensures EventOk(log, CloseEvent(payload, lib))
  {
  }

  /** Signals that are neither fragments nor the end of a message. */
  lemma {:induction false} SignalKeeps(p: Processor, e: Event, start: nat, limit: nat)
    requires RunOk(p, start, limit) && EventOk(p.log, e) && (e.PingReceived? || e.PongReceived? || e.CloseReceived?)
    ensures RunOk(Processor(p.asm, p.log + [e]), start, limit)
  {
    Extend(p.log, e, start, limit);
    OpenAfter(p.log, e);
  }

  lemma {:induction false} ControlKeeps(p: Processor, f: Frame, c: Config, start: nat)
    requires RunOk(p, start, c.maxMessage) && IsControl(f.opCode)
    ensures RunOk(OnDone(p, Complete(f), c).0, start, c.maxMessage)
  {
    var events := ControlEvents(f.opCode, f.payload, c.lib);
    assert OnDone(p, Complete(f), c).0 == Processor(p.asm, p.log + events);
    CloseEventOk(f.payload, c.lib, p.log);
    EventsKeep(p, events, start, c.maxMessage);
  }

  lemma {:induction false} EventsKeep(p: Processor, events: seq<Event>, start: nat, limit: nat)
    requires RunOk(p, start, limit) && |events| <= 1
    requires forall e :: e in events ==> EventOk(p.log, e) && (e.PingReceived? || e.PongReceived? || e.CloseReceived?)
    ensures RunOk(Processor(p.asm, p.log + events), start, limit)
  {
    if events == [] {
      assert p.log + events == p.log;
    } else {
      SignalKeeps(p, events[0], start, limit);
      assert events == [events[0]];
    }
  }

  lemma {:induction false} FailureKeeps(p: Processor, code: int, reason: ErrorText, c: Config, start: nat)
    requires RunOk(p, start, c.maxMessage) && IsCloseCodeValid(code)
    ensures RunOk(Processor(IDLE, p.log + Failure(code, reason, c.lib).events), start, c.maxMessage)
  {
    Extend(p.log, ErrorEncountered(code, c.lib.tr(reason)), start, c.maxMessage);
  }

  function Extended(a: Assembly, e: Event): Assembly
    requires if a.opCode == OP_TEXT then e.TextFrameReceived? else e.BinaryFrameReceived?
  {
    if a.opCode == OP_TEXT then a.(text := a.text + e.text) else a.(binary := a.binary + e.data)
  }

  function Assembled(a: Assembly): Event {
    if a.opCode == OP_TEXT then TextMessageReceived(a.text) else BinaryMessageReceived(a.binary)
  }

  /** One fragment signalled, and the message if it is the last. */
  lemma {:induction false} FragmentKeeps(a: Assembly, log: seq<Event>, e: Event, last: bool, start: nat, limit: nat)
    requires RunOk(Processor(a, log), start, limit) && a.fragmented
    requires if a.opCode == OP_TEXT then e.TextFrameReceived? && |a.text + e.text| <= limit
             else e.BinaryFrameReceived? && |a.binary + e.data| <= limit
    ensures var b := Extended(a, e);
      RunOk(if last then Processor(IDLE, log + [e, Assembled(b)]) else Processor(b, log + [e]), start, limit)
  {
    Extend(log, e, start, limit);
    OpenAfter(log, e);
    if last {
      MessageKeeps(Extended(a, e), log + [e], start, limit);
      assert log + [e] + [Assembled(Extended(a, e))] == log + [e, Assembled(Extended(a, e))];
    }
  }

  lemma {:induction false} MessageKeeps(a: Assembly, log: seq<Event>, start: nat, limit: nat)
    requires RunOk(Processor(a, log), start, limit) && a.fragmented
    requires OpenLength(a) <= limit
    ensures RunOk(Processor(IDLE, log + [Assembled(a)]), start, limit)
  {
    Extend(log, Assembled(a), start, limit);
    OpenAfter(log, Assembled(a));
  }

  /** Opening and appending, when the frame is in its place. */
  lemma {:induction false} AppendKeeps(p: Processor, f: Frame, c: Config, start: nat)
    requires RunOk(p, start, c.maxMessage) && NeverLengthens(c.lib)
    requires f.opCode in {OP_CONTINUE, OP_TEXT, OP_BINARY} && (p.asm.fragmented <==> f.opCode == OP_CONTINUE)
    ensures RunOk(OnDone(p, Complete(f), c).0, start, c.maxMessage)
  {
    var a := Opened(p.asm, f);
    var step := Append(a, f, c);
    assert OnDone(p, Complete(f), c).0 == Processor(step.next, p.log + step.events);
    if step.events[0].ErrorEncountered? {
      var tooBig := OpenLength(a) + |f.payload| > c.maxMessage;
      FailureKeeps(p, if tooBig then CLOSE_TOO_MUCH_DATA else CLOSE_WRONG_DATATYPE,
                   if tooBig then MessageTooBig else InvalidUtf8, c, start);
    } else {
      FragmentKeeps(a.(fragmented := true), p.log, step.events[0], f.fin, start, c.maxMessage);
    }
  }

  lemma {:induction false} FrameKeeps(p: Processor, s: FrameState, c: Config, start: nat)
    requires RunOk(p, start, c.maxMessage) && NeverLengthens(c.lib) && s.Done() && Sound(s)
    ensures RunOk(OnDone(p, s, c).0, start, c.maxMessage)
  {
    match s
    case Refused(reason) => FailureKeeps(p, RefusalCode(reason), reason, c, start);
    case Complete(f) =>
      if IsControl(f.opCode) {
        ControlKeeps(p, f, c, start);
      } else if p.asm.fragmented == (f.opCode == OP_CONTINUE) {
        AppendKeeps(p, f, c, start);
      } else {
        var reason := if p.asm.fragmented then ContinuationExpected else NothingToContinue;
        FailureKeeps(p, CLOSE_PROTOCOL_ERROR, reason, c, start);
      }
  }

  /**
   * For every byte stream, however it is cut: the invariant is kept, every message is the concatenation of its
   * signalled fragments and within the limit in force, and every code handed on for closing is valid.
   */
  lemma {:induction false} StreamSafety(c: Config, s: FrameState, p: Processor, buf: seq<byte>)
    requires Sound(s) && NeverLengthens(c.lib) && RunOk(p, |p.log|, c.maxMessage)
    ensures var o := Feed(Processing(c), c.maxFrame, s, p, buf);
      Sound(o.frame) && RunOk(o.state, |p.log|, c.maxMessage)
  {
    var h, start := Processing(c), |p.log|;
    var inv := (q: Processor) => RunOk(q, start, c.maxMessage);
    forall q: Processor, t: FrameState | inv(q) && t.Done() && Sound(t) ensures inv(h(q, t).0) {
      FrameKeeps(q, t, c, start);
    }
    FeedPreserves(h, inv, c.maxFrame, s, p, buf);
  }

  /** The waiting time for the rest of a frame is over. */
  function TimedOut(p: Processor, lib: TextLib): Processor {
    Processor(IDLE, p.log + [ErrorEncountered(CLOSE_GOING_AWAY, lib.tr(ReadTimeout))])
  }

  lemma {:induction false} TimeoutKeeps(p: Processor, c: Config, start: nat)
    requires RunOk(p, start, c.maxMessage)
    ensures RunOk(TimedOut(p, c.lib), start, c.maxMessage)
  {
    FailureKeeps(p, CLOSE_GOING_AWAY, ReadTimeout, c, start);
  }

  // ----- the fragmentation grammar -----

  /** Where the message that frame i belongs to starts: after the last final frame. */
  function Start(d: seq<Frame>, i: nat): (k: nat)
    requires i < |d|
    ensures k <= i
  {
    if i == 0 || d[i - 1].fin then i else Start(d, i - 1)
  }

  function Payloads(d: seq<Frame>, i: nat, j: nat): seq<byte>
    requires j <= |d|
  {
    if j <= i then [] else Payloads(d, i, j - 1) + d[j - 1].payload
  }

  function Texts(d: seq<Frame>, i: nat, j: nat, lib: TextLib): Text
    requires j <= |d|
  {
    if j <= i then []
    else match lib.decode(d[j - 1].payload)
      case Some(t) => Texts(d, i, j - 1, lib) + t
      case None => Texts(d, i, j - 1, lib)
  }

  function Total(d: seq<Frame>, i: nat, j: nat, lib: TextLib): nat
    requires i < |d| && j <= |d|
  {
    if d[i].opCode == OP_TEXT then |Texts(d, i, j, lib)| else |Payloads(d, i, j)|
  }

  datatype Fault = Fault(code: int, reason: ErrorText)

  /** What is wrong with data frame i, seen from the whole sequence: its place, its message's size or its text. */
  function FaultAt(d: seq<Frame>, i: nat, c: Config): Option<Fault>
    requires i < |d|
  {
    var k := Start(d, i);
    if (k == i) == (d[i].opCode == OP_CONTINUE) then
      Some(Fault(CLOSE_PROTOCOL_ERROR, if k == i then NothingToContinue else ContinuationExpected))
    else if Total(d, k, i, c.lib) + |d[i].payload| > c.maxMessage then Some(Fault(CLOSE_TOO_MUCH_DATA, MessageTooBig))
    else if d[k].opCode == OP_TEXT && c.lib.decode(d[i].payload) == None then Some(Fault(CLOSE_WRONG_DATATYPE, InvalidUtf8))
    else None
  }

  function MessageOf(d: seq<Frame>, i: nat, j: nat, lib: TextLib): Event
    requires i < |d| && j <= |d|
  {
    if d[i].opCode == OP_TEXT then TextMessageReceived(Texts(d, i, j, lib)) else BinaryMessageReceived(Payloads(d, i, j))
  }

  /** One message for each final frame, under the opcode of its first frame. */
  function ExpectedMessages(d: seq<Frame>, n: nat, lib: TextLib): seq<Event>
    requires n <= |d|
  {
    if n == 0 then []
    else ExpectedMessages(d, n - 1, lib) + if d[n - 1].fin then [MessageOf(d, Start(d, n - 1), n, lib)] else []
  }

  function ExpectedAssembly(d: seq<Frame>, n: nat, lib: TextLib): Assembly
    requires n <= |d|
  {
    if n == 0 || d[n - 1].fin then IDLE
    else
      var k := Start(d, n - 1);
      if d[k].opCode == OP_TEXT then Assembly(true, OP_TEXT, [], Texts(d, k, n, lib))
      else Assembly(true, d[k].opCode, Payloads(d, k, n), [])
  }

  predicate IsMessage(e: Event) { e.TextMessageReceived? || e.BinaryMessageReceived? }

  /** The events of the log that satisfy f. */
  function Select(f: Event -> bool, log: seq<Event>): seq<Event> {
    if log == [] then []
    else Select(f, log[..|log| - 1]) + if f(log[|log| - 1]) then [log[|log| - 1]] else []
  }

  lemma {:induction false} SelectConcat(f: Event -> bool, log: seq<Event>, more: seq<Event>)
    ensures Select(f, log + more) == Select(f, log) + Select(f, more)
  {
    if more == [] {
      assert log + more == log;
    } else {
      SelectConcat(f, log, more[..|more| - 1]);
      assert (log + more)[..|log + more| - 1] == log + more[..|more| - 1];
    }
  }

  lemma {:induction false} SelectOne(f: Event -> bool, e: Event)
    ensures Select(f, [e]) == if f(e) then [e] else []
  {
    assert [e][..0] == [];
  }

  /** The processor after a sequence of frames. */
  function Handled(p: Processor, fs: seq<Frame>, c: Config): Processor {
    Fold(Processing(c), p, fs).0
  }

  lemma {:induction false} NeverHalts(p: Processor, fs: seq<Frame>, c: Config)
    ensures Fold(Processing(c), p, fs) == (Handled(p, fs, c), [], false)
    decreases fs
  {
    if fs != [] {
      NeverHalts(OnDone(p, Complete(fs[0]), c).0, fs[1..], c);
    }
  }

  lemma {:induction false} HandledConcat(p: Processor, fs: seq<Frame>, gs: seq<Frame>, c: Config)
    ensures Handled(p, fs + gs, c) == Handled(Handled(p, fs, c), gs, c)
  {
    NeverHalts(p, fs, c);
    FoldConcat(Processing(c), p, fs, gs);
  }

  lemma {:induction false} HandledOne(p: Processor, f: Frame, c: Config)
    ensures Handled(p, [f], c) == OnDone(p, Complete(f), c).0
  {
    FoldOne(Processing(c), p, f);
  }

  lemma {:induction false} HandledLast(d: seq<Frame>, n: nat, p: Processor, c: Config)
    requires n < |d|
    ensures Handled(p, d[..n + 1], c) == OnDone(Handled(p, d[..n], c), Complete(d[n]), c).0
  {
    assert d[..n + 1] == d[..n] + [d[n]];
    HandledConcat(p, d[..n], [d[n]], c);
    HandledOne(Handled(p, d[..n], c), d[n], c);
  }

  predicate DataFrames(d: seq<Frame>) {
    forall i :: 0 <= i < |d| ==> d[i].opCode in {OP_CONTINUE, OP_TEXT, OP_BINARY}
  }

  /** One more frame: a fault gives the error, anything else keeps to the expectation. */
  lemma {:induction false} GrammarStep(d: seq<Frame>, n: nat, c: Config)
    requires DataFrames(d) && n < |d|
    ensures var a, step := ExpectedAssembly(d, n, c.lib), OnFrame(ExpectedAssembly(d, n, c.lib), d[n], c);
      match FaultAt(d, n, c)
      case Some(fault) => step == Failure(fault.code, fault.reason, c.lib)
      case None =>
        && step.next == ExpectedAssembly(d, n + 1, c.lib)
        && |step.events| == (if d[n].fin then 2 else 1)
        && !IsMessage(step.events[0]) && !step.events[0].ErrorEncountered?
        && (d[n].fin ==> step.events[1] == MessageOf(d, Start(d, n), n + 1, c.lib))
  {
    var a, k, f := ExpectedAssembly(d, n, c.lib), Start(d, n), d[n];
    var b := Opened(a, f);
    if (k == n) != (f.opCode == OP_CONTINUE) {
      assert b.opCode == d[k].opCode && b.binary == (if d[k].opCode == OP_TEXT then [] else Payloads(d, k, n));
      assert b.text == if d[k].opCode == OP_TEXT then Texts(d, k, n, c.lib) else [];
    }
  }

  predicate IsError(e: Event) { e.ErrorEncountered? }

  lemma {:induction false} SelectStep(p: Processor, d: seq<Frame>, n: nat, c: Config)
    requires DataFrames(d) && n < |d| && FaultAt(d, n, c) == None && p.asm == ExpectedAssembly(d, n, c.lib)
    ensures var q := OnDone(p, Complete(d[n]), c).0;
      && Select(IsError, q.log) == Select(IsError, p.log)
      && Select(IsMessage, q.log)
      == Select(IsMessage, p.log) + if d[n].fin then [MessageOf(d, Start(d, n), n + 1, c.lib)] else []
  {
    GrammarStep(d, n, c);
    var events := OnFrame(p.asm, d[n], c).events;
    SelectFragment(IsMessage, p.log, events);
    SelectFragment(IsError, p.log, events);
  }

  /** A fragment and what may follow it. */
  lemma {:induction false} SelectFragment(f: Event -> bool, log: seq<Event>, events: seq<Event>)
    requires 1 <= |events| <= 2 && !f(events[0])
    ensures Select(f, log + events) == Select(f, log) + if |events| == 2 && f(events[1]) then [events[1]] else []
  {
    SelectNext(f, log, events[0]);
    if |events| == 2 {
      SelectNext(f, log + [events[0]], events[1]);
      assert log + [events[0]] + [events[1]] == log + events;
    } else {
      assert events == [events[0]];
    }
  }

  lemma {:induction false} SelectNext(f: Event -> bool, log: seq<Event>, e: Event)
    ensures Select(f, log + [e]) == Select(f, log) + if f(e) then [e] else []
  {
    assert (log + [e])[..|log|] == log;
  }

  /**
   * Refinement of the grammar "single | first continuation* last": up to the first faulty data frame the messages
   * are the expected ones and there is no error; that frame is answered with exactly its error and nothing else.
   */
  lemma {:induction false} FragmentationGrammar(d: seq<Frame>, n: nat, c: Config)
    requires DataFrames(d) && n <= |d|
    requires forall i :: 0 <= i < n ==> FaultAt(d, i, c) == None
    ensures var p := Handled(Processor(IDLE, []), d[..n], c);
      && p.asm == ExpectedAssembly(d, n, c.lib)
      && Select(IsMessage, p.log) == ExpectedMessages(d, n, c.lib)
      && Select(IsError, p.log) == []
    ensures n < |d| && FaultAt(d, n, c).Some? ==>
      var p, q := Handled(Processor(IDLE, []), d[..n], c), Handled(Processor(IDLE, []), d[..n + 1], c);
      var fault := FaultAt(d, n, c).value;
      q == Processor(IDLE, p.log + [ErrorEncountered(fault.code, c.lib.tr(fault.reason))])
    decreases n
  {
    var none := Processor(IDLE, []);
    if n == 0 {
      assert d[..0] == [];
    } else {
      FragmentationGrammar(d, n - 1, c);
      HandledLast(d, n - 1, none, c);
      GrammarStep(d, n - 1, c);
      SelectStep(Handled(none, d[..n - 1], c), d, n - 1, c);
    }
    if n < |d| {
      HandledLast(d, n, none, c);
      GrammarStep(d, n, c);
    }
  }

  // ----- control frames -----

  predicate IsProbe(f: Frame) { f.opCode == OP_PING || f.opCode == OP_PONG }

  predicate IsControlFrame(f: Frame) { IsControl(f.opCode) }

  function Without(drop: Frame -> bool, fs: seq<Frame>): seq<Frame> {
    if fs == [] then []
    else if drop(fs[0]) then Without(drop, fs[1..])
    else [fs[0]] + Without(drop, fs[1..])
  }

  /** Without pings and pongs. */
  function Erase(fs: seq<Frame>): seq<Frame> {
    Without(IsProbe, fs)
  }

  function DataPart(fs: seq<Frame>): seq<Frame> {
    Without(IsControlFrame, fs)
  }

  predicate NotProbe(e: Event) { !e.PingReceived? && !e.PongReceived? }

  predicate NotControl(e: Event) { NotProbe(e) && !e.CloseReceived? }

  /** The same assembly, and the same events as far as they are viewed. */
  predicate Alike(view: Event -> bool, p: Processor, q: Processor) {
    p.asm == q.asm && Select(view, p.log) == Select(view, q.log)
  }

  /** Frames that are dropped lead to no event that is viewed. */
  ghost predicate Hidden(drop: Frame -> bool, view: Event -> bool, lib: TextLib) {
    forall f :: drop(f) ==> IsControl(f.opCode) && Select(view, ControlEvents(f.opCode, f.payload, lib)) == []
  }

  lemma {:induction false} ProbesHidden(lib: TextLib)
    ensures Hidden(IsProbe, NotProbe, lib) && Hidden(IsControlFrame, NotControl, lib)
  {
    forall f: Frame | IsControl(f.opCode) ensures Select(NotControl, ControlEvents(f.opCode, f.payload, lib)) == [] {
      OneOrNone(NotControl, f, lib);
    }
    forall f | IsProbe(f) ensures Select(NotProbe, ControlEvents(f.opCode, f.payload, lib)) == [] {
      OneOrNone(NotProbe, f, lib);
    }
  }

  lemma {:induction false} OneOrNone(view: Event -> bool, f: Frame, lib: TextLib)
    ensures var events := ControlEvents(f.opCode, f.payload, lib);
      |events| <= 1 && Select(view, events) == if events != [] && view(events[0]) then events else []
  {
    var events := ControlEvents(f.opCode, f.payload, lib);
    if events != [] {
      SelectOne(view, events[0]);
      assert events == [events[0]];
    }
  }

  lemma {:induction false} FrameErased(drop: Frame -> bool, view: Event -> bool, p: Processor, f: Frame, c: Config)
    requires Hidden(drop, view, c.lib) && drop(f)
    ensures Alike(view, OnDone(p, Complete(f), c).0, p)
  {
    var events := ControlEvents(f.opCode, f.payload, c.lib);
    assert OnDone(p, Complete(f), c).0 == Processor(p.asm, p.log + events);
    SelectConcat(view, p.log, events);
    assert Select(view, p.log) + [] == Select(view, p.log);
  }

  lemma {:induction false} AlikeStep(view: Event -> bool, p: Processor, q: Processor, f: Frame, c: Config)
    requires Alike(view, p, q)
    ensures Alike(view, OnDone(p, Complete(f), c).0, OnDone(q, Complete(f), c).0)
  {
    var events := OnFrame(p.asm, f, c).events;
    SelectConcat(view, p.log, events);
    SelectConcat(view, q.log, events);
  }

  lemma {:induction false} Erasure(drop: Frame -> bool, view: Event -> bool, p: Processor, q: Processor, fs: seq<Frame>,
                                   c: Config)
    requires Hidden(drop, view, c.lib) && Alike(view, p, q)
    ensures Alike(view, Handled(p, fs, c), Handled(q, Without(drop, fs), c))
    decreases fs
  {
    if fs != [] {
      var f := fs[0];
      var p1 := OnDone(p, Complete(f), c).0;
      if drop(f) {
        FrameErased(drop, view, p, f, c);
        Erasure(drop, view, p1, q, fs[1..], c);
      } else {
        AlikeStep(view, p, q, f, c);
        Erasure(drop, view, p1, OnDone(q, Complete(f), c).0, fs[1..], c);
        assert Without(drop, fs)[1..] == Without(drop, fs[1..]);
      }
    }
  }

  /** Pings and pongs, also between the fragments of a message, leave everything else as it is. */
  lemma {:induction false} ControlErasure(p: Processor, q: Processor, fs: seq<Frame>, c: Config)
    requires Alike(NotProbe, p, q)
    ensures Alike(NotProbe, Handled(p, fs, c), Handled(q, Erase(fs), c))
  {
    ProbesHidden(c.lib);
    Erasure(IsProbe, NotProbe, p, q, fs, c);
  }

  /** On the wire: two streams of legal frames that differ only in pings and pongs give the same messages and errors. */
  lemma {:induction false} ErasureOnTheWire(fs: seq<Frame>, gs: seq<Frame>, c: Config)
    requires AllLegal(fs, c.maxFrame) && AllLegal(gs, c.maxFrame) && Erase(fs) == Erase(gs)
    ensures var p := Processor(IDLE, []);
      var o, u := Feed(Processing(c), c.maxFrame, AtHeader, p, EncodeAll(fs)),
                  Feed(Processing(c), c.maxFrame, AtHeader, p, EncodeAll(gs));
      && o.frame == u.frame == AtHeader && o.rest == u.rest == []
      && o.state.asm == u.state.asm
      && Select(NotProbe, o.state.log) == Select(NotProbe, u.state.log)
  {
    var p := Processor(IDLE, []);
    StreamOfFrames(p, fs, c);
    StreamOfFrames(p, gs, c);
    ControlErasure(p, p, fs, c);
    ControlErasure(p, p, gs, c);
  }

  lemma {:induction false} StreamOfFrames(p: Processor, fs: seq<Frame>, c: Config)
    requires AllLegal(fs, c.maxFrame)
    ensures Feed(Processing(c), c.maxFrame, AtHeader, p, EncodeAll(fs)) == Outcome(AtHeader, Handled(p, fs, c), [], false)
  {
    NeverHalts(p, fs, c);
    FeedFrames(Processing(c), c.maxFrame, p, fs, []);
    assert EncodeAll(fs) + [] == EncodeAll(fs);
  }

  // ----- the grammar on the wire -----

  lemma {:induction false} DataPartLegal(fs: seq<Frame>, limit: nat)
    requires AllLegal(fs, limit)
    ensures DataFrames(DataPart(fs))
    decreases fs
  {
    if fs != [] {
      assert fs[0].Legal(limit);
      assert forall i :: 0 <= i < |fs[1..]| ==> fs[1..][i] == fs[i + 1];
      DataPartLegal(fs[1..], limit);
    }
  }

  /** What is viewed in addition to something that is viewed. */
  lemma {:induction false} SelectTwice(f: Event -> bool, view: Event -> bool, log: seq<Event>)
    requires forall e :: f(e) ==> view(e)
    ensures Select(f, Select(view, log)) == Select(f, log)
  {
    if log != [] {
      var before, e := log[..|log| - 1], log[|log| - 1];
      SelectTwice(f, view, before);
      SelectNext(f, Select(view, before), e);
      assert Select(view, before) + [] == Select(view, before);
    }
  }

  predicate NoFault(d: seq<Frame>, n: nat, c: Config)
    requires n <= |d|
  {
    forall i :: 0 <= i < n ==> FaultAt(d, i, c) == None
  }

  function Fed(fs: seq<Frame>, c: Config): Outcome<Processor> {
    Feed(Processing(c), c.maxFrame, AtHeader, Processor(IDLE, []), EncodeAll(fs))
  }

  /** The processor after these frames, compared with the data frames alone. */
  lemma {:induction false} FedDataPart(fs: seq<Frame>, c: Config)
    requires AllLegal(fs, c.maxFrame)
    ensures var p, q := Fed(fs, c).state, Handled(Processor(IDLE, []), DataPart(fs), c);
      && p.asm == q.asm && Select(IsMessage, p.log) == Select(IsMessage, q.log)
      && Select(IsError, p.log) == Select(IsError, q.log)
      && p == Handled(Processor(IDLE, []), fs, c)
  {
    var none := Processor(IDLE, []);
    var p, q := Handled(none, fs, c), Handled(none, DataPart(fs), c);
    StreamOfFrames(none, fs, c);
    ProbesHidden(c.lib);
    Erasure(IsControlFrame, NotControl, none, none, fs, c);
    SelectTwice(IsMessage, NotControl, p.log);
    SelectTwice(IsMessage, NotControl, q.log);
    SelectTwice(IsError, NotControl, p.log);
    SelectTwice(IsError, NotControl, q.log);
  }

  /**
   * The grammar on the wire, with control frames anywhere: as long as the data frames have no fault, the bytes give the
   * expected messages and no error.
   */
  lemma {:induction false} GrammarOnTheWire(fs: seq<Frame>, c: Config)
    requires AllLegal(fs, c.maxFrame) && NoFault(DataPart(fs), |DataPart(fs)|, c)
    ensures var p, d := Fed(fs, c).state, DataPart(fs);
      && p.asm == ExpectedAssembly(d, |d|, c.lib)
      && Select(IsMessage, p.log) == ExpectedMessages(d, |d|, c.lib) && Select(IsError, p.log) == []
  {
    var d := DataPart(fs);
    DataPartLegal(fs, c.maxFrame);
    FedDataPart(fs, c);
    FragmentationGrammar(d, |d|, c);
    assert d[..|d|] == d;
  }

  /** The first data frame with a fault is answered at once with its error, and with nothing else. */
  lemma {:induction false} FaultOnTheWire(fs: seq<Frame>, f: Frame, c: Config)
    requires AllLegal(fs + [f], c.maxFrame) && !IsControl(f.opCode)
    requires var d := DataPart(fs) + [f]; NoFault(d, |d| - 1, c) && FaultAt(d, |d| - 1, c).Some?
    ensures var d := DataPart(fs) + [f];
      var p, fault := Fed(fs, c).state, FaultAt(d, |d| - 1, c).value;
      && Fed(fs + [f], c).state == Processor(IDLE, p.log + [ErrorEncountered(fault.code, c.lib.tr(fault.reason))])
      && Select(IsMessage, p.log) == ExpectedMessages(d, |d| - 1, c.lib) && Select(IsError, p.log) == []
  {
    var d, n := DataPart(fs) + [f], |DataPart(fs)|;
    LegalBefore(fs, f, c.maxFrame);
    DataPartLegal(fs, c.maxFrame);
    DataFramesMore(DataPart(fs), f, c.maxFrame);
    FedNext(fs, f, c);
    FedDataPart(fs, c);
    FragmentationGrammar(d, n, c);
    assert d[..n] == DataPart(fs);
    FaultAnswered(Fed(fs, c).state, d, n, c);
  }

  lemma {:induction false} LegalBefore(fs: seq<Frame>, f: Frame, limit: nat)
    requires AllLegal(fs + [f], limit)
    ensures AllLegal(fs, limit) && f.Legal(limit)
  {
    assert forall i :: 0 <= i < |fs| ==> (fs + [f])[i] == fs[i];
    assert (fs + [f])[|fs|] == f;
  }

  lemma {:induction false} DataFramesMore(d: seq<Frame>, f: Frame, limit: nat)
    requires DataFrames(d) && f.Legal(limit) && !IsControl(f.opCode)
    ensures DataFrames(d + [f])
  {
  }

  lemma {:induction false} FedNext(fs: seq<Frame>, f: Frame, c: Config)
    requires AllLegal(fs + [f], c.maxFrame) && AllLegal(fs, c.maxFrame)
    ensures Fed(fs + [f], c).state == OnDone(Fed(fs, c).state, Complete(f), c).0
  {
    var none := Processor(IDLE, []);
    StreamOfFrames(none, fs, c);
    StreamOfFrames(none, fs + [f], c);
    HandledConcat(none, fs, [f], c);
    HandledOne(Handled(none, fs, c), f, c);
  }

  lemma {:induction false} FaultAnswered(p: Processor, d: seq<Frame>, n: nat, c: Config)
    requires DataFrames(d) && n < |d| && p.asm == ExpectedAssembly(d, n, c.lib) && FaultAt(d, n, c).Some?
    ensures var fault := FaultAt(d, n, c).value;
      OnDone(p, Complete(d[n]), c).0 == Processor(IDLE, p.log + [ErrorEncountered(fault.code, c.lib.tr(fault.reason))])
  {
    GrammarStep(d, n, c);
  }
}
