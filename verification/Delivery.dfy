/** Splitting a message into frames, and what the other end makes of them. */
module Delivery {
  import opened Bytes
  import opened Protocol
  import opened Frames
  import opened Reader
  import opened Assembler
  import opened Messages
  import opened Endpoint

  const FRESH := Processor(IDLE, [])

  /** The frames that a message is split into, the first one under opCode. */
  function Fragments(e: Env, x: Session, opCode: OpCode, data: seq<byte>): seq<Frame>
    requires e.frameSize > 0
    decreases |data|
  {
    if |data| <= e.frameSize then [Frame(true, opCode, NextKey(e, x), data)]
    else [Frame(false, opCode, NextKey(e, x), data[..e.frameSize])]
         + Fragments(e, x.(drawn := Drawn(x)), OP_CONTINUE, data[e.frameSize..])
  }

  /** n bytes take max(1, ceil(n / size)) frames. */
  function FrameCount(n: nat, size: nat): nat
    requires size > 0
  {
    if n == 0 then 1 else n / size + if n % size != 0 then 1 else 0
  }

  lemma {:induction false} FrameCountStep(n: nat, size: nat)
    requires size > 0
    ensures n <= size ==> FrameCount(n, size) == 1
    ensures n > size ==> FrameCount(n, size) == FrameCount(n - size, size) + 1
  {
    if n < size {
      QuotientUnique(n, size, 0, n);
    } else if n == size {
      QuotientUnique(n, size, 1, 0);
    } else {
      var q, r := (n - size) / size, (n - size) % size;
      assert (q + 1) * size + r == q * size + r + size;
      QuotientUnique(n, size, q + 1, r);
      if q == 0 {
        QuotientUnique(n - size, size, q, r);
      }
    }
  }

  /** The same number, counted one frame at a time. */
  function Pieces(n: nat, size: nat): (p: nat)
    requires size > 0
    ensures p >= 1
  {
    if n <= size then 1 else Pieces(n - size, size) + 1
  }

  lemma {:induction false} PiecesCounted(n: nat, size: nat)
    requires size > 0
    ensures Pieces(n, size) == FrameCount(n, size)
  {
    FrameCountStep(n, size);
    if n > size {
      PiecesCounted(n - size, size);
    }
  }

  /** The shape of frame i out of n. */
  predicate FragmentOk(e: Env, x: Session, opCode: OpCode, f: Frame, i: nat, n: nat, total: nat) {
    && f.fin == (i == n - 1)
    && f.opCode == (if i == 0 then opCode else OP_CONTINUE)
    && (if i < n - 1 then |f.payload| == e.frameSize else |f.payload| <= e.frameSize)
    && |f.payload| <= total
    && f.key == (if x.mustMask then e.masks(x.drawn + i) else 0)
  }

  lemma {:induction false} FragmentShape(e: Env, x: Session, opCode: OpCode, data: seq<byte>, i: nat)
    requires e.frameSize > 0 && i < |Fragments(e, x, opCode, data)|
    ensures var fs := Fragments(e, x, opCode, data); FragmentOk(e, x, opCode, fs[i], i, |fs|, |data|)
    decreases |data|
  {
    if |data| > e.frameSize && i > 0 {
      FragmentShape(e, x.(drawn := Drawn(x)), OP_CONTINUE, data[e.frameSize..], i - 1);
    }
  }

  /**
   * Splitting conserves the message: the number of frames, the place of the FIN bit and of the opcode, the sizes,
   * the keys, and the payloads put together.
   */
  lemma {:induction false} SplitConserves(e: Env, x: Session, opCode: OpCode, data: seq<byte>)
    requires e.frameSize > 0
    ensures var fs := Fragments(e, x, opCode, data);
      && |fs| == FrameCount(|data|, e.frameSize)
      && Payloads(fs, 0, |fs|) == data
      && forall i :: 0 <= i < |fs| ==> FragmentOk(e, x, opCode, fs[i], i, |fs|, |data|)
    decreases |data|
  {
    var fs := Fragments(e, x, opCode, data);
    FrameCountStep(|data|, e.frameSize);
    forall i | 0 <= i < |fs| ensures FragmentOk(e, x, opCode, fs[i], i, |fs|, |data|) {
      FragmentShape(e, x, opCode, data, i);
    }
    if |data| <= e.frameSize {
      assert Payloads(fs, 0, 1) == Payloads(fs, 0, 0) + data;
    } else {
      var x', rest := x.(drawn := Drawn(x)), data[e.frameSize..];
      SplitConserves(e, x', OP_CONTINUE, rest);
      var more := Fragments(e, x', OP_CONTINUE, rest);
      PayloadsShift(fs[0], more, |more|);
      assert data == data[..e.frameSize] + rest;
    }
  }

  lemma {:induction false} PayloadsShift(f: Frame, fs: seq<Frame>, n: nat)
    requires n <= |fs|
    ensures Payloads([f] + fs, 0, n + 1) == f.payload + Payloads(fs, 0, n)
  {
    if n == 0 {
      assert Payloads([f] + fs, 0, 1) == Payloads([f] + fs, 0, 0) + f.payload;
    } else {
      PayloadsShift(f, fs, n - 1);
      assert ([f] + fs)[n] == fs[n - 1];
    }
  }

  /** Writing a message appends its frames. */
  lemma {:induction false} WriteMessageFrames(e: Env, x: Session, opCode: OpCode, data: seq<byte>)
    requires e.frameSize > 0 && !Dead(e, x)
    ensures var y := WriteMessage(e, x, opCode, data);
      y == x.(out := x.out + Fragments(e, x, opCode, data), drawn := y.drawn)
    decreases |data|
  {
    if |data| > e.frameSize {
      var x1 := Write(e, x, false, opCode, data[..e.frameSize]);
      WriteMessageFrames(e, x1, OP_CONTINUE, data[e.frameSize..]);
      FragmentsIgnore(e, x1, x.(drawn := Drawn(x)), OP_CONTINUE, data[e.frameSize..]);
    }
  }

  lemma {:induction false} FragmentsIgnore(e: Env, x: Session, y: Session, opCode: OpCode, data: seq<byte>)
    requires e.frameSize > 0 && x.mustMask == y.mustMask && x.drawn == y.drawn
    ensures Fragments(e, x, opCode, data) == Fragments(e, y, opCode, data)
    decreases |data|
  {
    if |data| > e.frameSize {
      FragmentsIgnore(e, x.(drawn := Drawn(x)), y.(drawn := Drawn(y)), OP_CONTINUE, data[e.frameSize..]);
    }
  }

  // ----- what arrives -----

  /** The receiver decodes every frame on its own. */
  function DecodeChunks(data: seq<byte>, size: nat, lib: TextLib): Option<Text>
    requires size > 0
    decreases |data|
  {
    if |data| <= size then lib.decode(data)
    else match lib.decode(data[..size])
      case None => None
      case Some(t) => match DecodeChunks(data[size..], size, lib)
        case None => None
        case Some(more) => Some(t + more)
  }

  predicate IsFragment(e: Event) { e.TextFrameReceived? || e.BinaryFrameReceived? }

  predicate AllFragments(events: seq<Event>) {
    forall i :: 0 <= i < |events| ==> IsFragment(events[i])
  }

  /** The signal for one frame of a message; a text frame that does not decode has none. */
  function Signal(f: Frame, kind: OpCode, lib: TextLib): Event {
    if kind != OP_TEXT then BinaryFrameReceived(f.payload, f.fin)
    else TextFrameReceived(match lib.decode(f.payload) case Some(t) => t case None => [], f.fin)
  }

  function Signals(fs: seq<Frame>, kind: OpCode, lib: TextLib): (events: seq<Event>)
    ensures |events| == |fs| && AllFragments(events)
    ensures forall i :: 0 <= i < |fs| ==> events[i] == Signal(fs[i], kind, lib)
  {
    if fs == [] then [] else [Signal(fs[0], kind, lib)] + Signals(fs[1..], kind, lib)
  }

  /** The data decodes piece by piece exactly when each of its frames decodes. */
  lemma {:induction false} EachDecodes(e: Env, x: Session, opCode: OpCode, data: seq<byte>, lib: TextLib)
    requires e.frameSize > 0
    ensures DecodeChunks(data, e.frameSize, lib).Some?
       <==> forall f :: f in Fragments(e, x, opCode, data) ==> lib.decode(f.payload).Some?
    decreases |data|
  {
    var fs := Fragments(e, x, opCode, data);
    assert fs[0] in fs;
    if |data| > e.frameSize {
      EachDecodes(e, x.(drawn := Drawn(x)), OP_CONTINUE, data[e.frameSize..], lib);
      assert forall f :: f in fs[1..] ==> f in fs;
    }
  }

  /** Ready for a frame with this opcode that belongs to a message of the given kind. */
  predicate Expecting(a: Assembly, opCode: OpCode, kind: OpCode) {
    && kind in {OP_TEXT, OP_BINARY} && AssemblyOk(a)
    && if a.fragmented then opCode == OP_CONTINUE && a.opCode == kind else opCode == kind
  }

  function Whole(a: Assembly, kind: OpCode, data: seq<byte>, size: nat, lib: TextLib): Event
    requires size > 0
    requires kind == OP_TEXT ==> DecodeChunks(data, size, lib).Some?
  {
    if kind == OP_TEXT then TextMessageReceived(a.text + DecodeChunks(data, size, lib).value)
    else BinaryMessageReceived(a.binary + data)
  }

  lemma {:induction false} WholeStep(a: Assembly, b: Assembly, kind: OpCode, data: seq<byte>, size: nat, lib: TextLib)
    requires 0 < size < |data|
    requires kind == OP_TEXT ==> DecodeChunks(data, size, lib).Some? && b.text == a.text + lib.decode(data[..size]).value
    requires kind != OP_TEXT ==> b.binary == a.binary + data[..size]
    ensures kind == OP_TEXT ==> DecodeChunks(data[size..], size, lib).Some?
    ensures Whole(b, kind, data[size..], size, lib) == Whole(a, kind, data, size, lib)
  {
    if kind == OP_TEXT {
      var t, more := lib.decode(data[..size]).value, DecodeChunks(data[size..], size, lib).value;
      assert a.text + t + more == a.text + (t + more);
    } else {
      assert a.binary + data[..size] + data[size..] == a.binary + data;
    }
  }

  lemma {:induction false} HandledFirst(p: Processor, fs: seq<Frame>, c: Config)
    requires fs != []
    ensures Handled(p, fs, c) == Handled(OnDone(p, Complete(fs[0]), c).0, fs[1..], c)
  {
  }

  /** One fragment that fits and decodes. */
  lemma {:induction false} FragmentTaken(p: Processor, f: Frame, kind: OpCode, c: Config)
    requires Expecting(p.asm, f.opCode, kind)
    requires (if kind == OP_TEXT then |p.asm.text| else |p.asm.binary|) + |f.payload| <= c.maxMessage
    requires kind == OP_TEXT ==> c.lib.decode(f.payload).Some?
    ensures var q, e := OnDone(p, Complete(f), c).0,
                        if kind == OP_TEXT then TextFrameReceived(c.lib.decode(f.payload).value, f.fin)
                        else BinaryFrameReceived(f.payload, f.fin);
      if f.fin then
        q == Processor(IDLE, p.log + [e, if kind == OP_TEXT then TextMessageReceived(p.asm.text + e.text)
                                         else BinaryMessageReceived(p.asm.binary + e.data)])
      else
        && q.log == p.log + [e] && Expecting(q.asm, OP_CONTINUE, kind)
        && (if kind == OP_TEXT then q.asm.text == p.asm.text + e.text else q.asm.binary == p.asm.binary + e.data)
  {
  }

  /** All frames of a message that fits and decodes frame by frame: one signal for each, then the message, nothing else. */
  lemma {:induction false} MessageDelivered(e: Env, x: Session, p: Processor, opCode: OpCode, kind: OpCode,
                                            data: seq<byte>, c: Config)
    requires e.frameSize > 0 && Expecting(p.asm, opCode, kind) && NeverLengthens(c.lib)
    requires (if kind == OP_TEXT then |p.asm.text| else |p.asm.binary|) + |data| <= c.maxMessage
    requires kind == OP_TEXT ==> DecodeChunks(data, e.frameSize, c.lib).Some?
    ensures var fs := Fragments(e, x, opCode, data);
      Handled(p, fs, c) == Processor(IDLE, p.log + Signals(fs, kind, c.lib) + [Whole(p.asm, kind, data, e.frameSize, c.lib)])
    decreases |data|
  {
    if |data| <= e.frameSize {
      LastFrame(e, x, p, opCode, kind, data, c);
    } else {
      var fs, rest := Fragments(e, x, opCode, data), data[e.frameSize..];
      var q, first, more := OnDone(p, Complete(fs[0]), c).0, Signal(fs[0], kind, c.lib), Signals(fs[1..], kind, c.lib);
      FragmentTaken(p, fs[0], kind, c);
      HandledFirst(p, fs, c);
      assert fs[1..] == Fragments(e, x.(drawn := Drawn(x)), OP_CONTINUE, rest);
      MessageDelivered(e, x.(drawn := Drawn(x)), q, OP_CONTINUE, kind, rest, c);
      WholeStep(p.asm, q.asm, kind, data, e.frameSize, c.lib);
      Regroup(p.log, first, more, Whole(p.asm, kind, data, e.frameSize, c.lib));
    }
  }

  lemma {:induction false} Regroup(log: seq<Event>, first: Event, more: seq<Event>, last: Event)
    ensures log + [first] + more + [last] == log + ([first] + more) + [last]
  {
  }

  lemma {:induction false} LastFrame(e: Env, x: Session, p: Processor, opCode: OpCode, kind: OpCode,
                                     data: seq<byte>, c: Config)
    requires e.frameSize >= |data| && e.frameSize > 0 && Expecting(p.asm, opCode, kind)
    requires (if kind == OP_TEXT then |p.asm.text| else |p.asm.binary|) + |data| <= c.maxMessage
    requires kind == OP_TEXT ==> c.lib.decode(data).Some?
    ensures var fs := Fragments(e, x, opCode, data);
      Handled(p, fs, c) == Processor(IDLE, p.log + Signals(fs, kind, c.lib) + [Whole(p.asm, kind, data, e.frameSize, c.lib)])
  {
    var fs := Fragments(e, x, opCode, data);
    FragmentTaken(p, fs[0], kind, c);
    HandledOne(p, fs[0], c);
    assert Signals(fs, kind, c.lib) == [Signal(fs[0], kind, c.lib)];
  }

  function Orphan(lib: TextLib): Event {
    ErrorEncountered(CLOSE_PROTOCOL_ERROR, lib.tr(NothingToContinue))
  }

  lemma {:induction false} OrphanRejected(p: Processor, f: Frame, c: Config)
    requires p.asm == IDLE && f.opCode == OP_CONTINUE
    ensures OnDone(p, Complete(f), c).0 == Processor(IDLE, p.log + [Orphan(c.lib)])
  {
  }

  lemma {:induction false} OrphansSilent(events: seq<Event>, lib: TextLib)
    requires forall i :: 0 <= i < |events| ==> events[i] == Orphan(lib)
    ensures Select(IsMessage, events) == []
  {
    if events != [] {
      OrphansSilent(events[..|events| - 1], lib);
    }
  }

  /** After a failure the remaining fragments of the message have nothing to continue. */
  lemma {:induction false} OrphansIgnored(e: Env, x: Session, p: Processor, data: seq<byte>, c: Config)
    returns (events: seq<Event>)
    requires e.frameSize > 0 && p.asm == IDLE
    ensures Handled(p, Fragments(e, x, OP_CONTINUE, data), c) == Processor(IDLE, p.log + events)
    ensures forall i :: 0 <= i < |events| ==> events[i] == Orphan(c.lib)
    decreases |data|
  {
    var fs, x', orphan := Fragments(e, x, OP_CONTINUE, data), x.(drawn := Drawn(x)), Orphan(c.lib);
    HandledFirst(p, fs, c);
    OrphanRejected(p, fs[0], c);
    if |data| <= e.frameSize {
      assert fs[1..] == [];
      events := [orphan];
    } else {
      assert fs[1..] == Fragments(e, x', OP_CONTINUE, data[e.frameSize..]);
      var more := OrphansIgnored(e, x', Processor(IDLE, p.log + [orphan]), data[e.frameSize..], c);
      events := [orphan] + more;
      assert p.log + [orphan] + more == p.log + events;
    }
  }

  lemma {:induction false} UndecodableFails(p: Processor, f: Frame, c: Config)
    requires Expecting(p.asm, f.opCode, OP_TEXT) && |p.asm.text| + |f.payload| <= c.maxMessage
    requires c.lib.decode(f.payload) == None
    ensures OnDone(p, Complete(f), c).0 == Processor(IDLE, p.log + [Undecodable(c.lib)])
  {
  }

  function Undecodable(lib: TextLib): Event {
    ErrorEncountered(CLOSE_WRONG_DATATYPE, lib.tr(InvalidUtf8))
  }

  /** A text message with a frame that does not decode: no message, and the first error is about the data type. */
  lemma {:induction false} TextLost(e: Env, x: Session, p: Processor, opCode: OpCode, data: seq<byte>, c: Config)
    returns (events: seq<Event>, rest: seq<Event>)
    requires e.frameSize > 0 && Expecting(p.asm, opCode, OP_TEXT) && NeverLengthens(c.lib)
    requires |p.asm.text| + |data| <= c.maxMessage
    requires DecodeChunks(data, e.frameSize, c.lib) == None
    ensures AllFragments(events) && Select(IsMessage, rest) == []
    ensures Handled(p, Fragments(e, x, opCode, data), c) == Processor(IDLE, p.log + events + [Undecodable(c.lib)] + rest)
    decreases |data|
  {
    var fs, error, x' := Fragments(e, x, opCode, data), Undecodable(c.lib), x.(drawn := Drawn(x));
    HandledFirst(p, fs, c);
    if |data| <= e.frameSize {
      assert fs[1..] == [];
      UndecodableFails(p, fs[0], c);
      events, rest := [], [];
      assert p.log + [error] == p.log + events + [error] + rest;
    } else {
      var tail := data[e.frameSize..];
      assert fs[1..] == Fragments(e, x', OP_CONTINUE, tail);
      if c.lib.decode(fs[0].payload) == None {
        UndecodableFails(p, fs[0], c);
        events := [];
        rest := OrphansIgnored(e, x', Processor(IDLE, p.log + [error]), tail, c);
        OrphansSilent(rest, c.lib);
        assert p.log + [error] + rest == p.log + events + [error] + rest;
      } else {
        FragmentTaken(p, fs[0], OP_TEXT, c);
        var q := OnDone(p, Complete(fs[0]), c).0;
        var more, orphans := TextLost(e, x', q, OP_CONTINUE, tail, c);
        events, rest := [TextFrameReceived(c.lib.decode(fs[0].payload).value, false)] + more, orphans;
        assert q.log + more + [error] + rest == p.log + events + [error] + rest;
      }
    }
  }

  lemma {:induction false} FragmentsSilent(f: Event -> bool, events: seq<Event>)
    requires forall e :: IsFragment(e) ==> !f(e)
    requires AllFragments(events)
    ensures Select(f, events) == []
  {
    if events != [] {
      FragmentsSilent(f, events[..|events| - 1]);
    }
  }

  lemma {:induction false} SelectLast(f: Event -> bool, events: seq<Event>, last: Event)
    requires forall e :: IsFragment(e) ==> !f(e)
    requires AllFragments(events)
    ensures Select(f, events + [last]) == if f(last) then [last] else []
  {
    FragmentsSilent(f, events);
    assert (events + [last])[..|events|] == events;
  }

  lemma {:induction false} SelectMessage(events: seq<Event>, m: Event, rest: seq<Event>)
    requires AllFragments(events) && Select(IsMessage, rest) == []
    ensures Select(IsMessage, events + [m] + rest) == if IsMessage(m) then [m] else []
  {
    SelectLast(IsMessage, events, m);
    SelectConcat(IsMessage, events + [m], rest);
  }

  /**
   * When a text message gets through: exactly when each of its frames decodes on its own. The writer cuts at byte
   * positions, so this is not implied by the message being decodable.
   */
  lemma {:induction false} TextDelivery(e: Env, x: Session, data: seq<byte>, c: Config)
    requires e.frameSize > 0 && |data| <= c.maxMessage && NeverLengthens(c.lib)
    ensures var q := Handled(FRESH, Fragments(e, x, OP_TEXT, data), c);
      Select(IsMessage, q.log)
      == match DecodeChunks(data, e.frameSize, c.lib) case Some(t) => [TextMessageReceived(t)] case None => []
  {
    match DecodeChunks(data, e.frameSize, c.lib) {
      case Some(t) =>
        MessageDelivered(e, x, FRESH, OP_TEXT, OP_TEXT, data, c);
        var events := Signals(Fragments(e, x, OP_TEXT, data), OP_TEXT, c.lib);
        var m := TextMessageReceived(t);
        assert [] + t == t;
        assert FRESH.log + events + [m] == events + [m] + [];
        SelectMessage(events, m, []);
      case None =>
        var events, rest := TextLost(e, x, FRESH, OP_TEXT, data, c);
        var error := Undecodable(c.lib);
        assert FRESH.log + events + [error] + rest == events + [error] + rest;
        SelectMessage(events, error, rest);
    }
  }

  /** A two-byte character cut in the middle: decodable as a whole, lost when sent in frames of one byte. */
  lemma {:induction false} SplitCharacterLost(e: Env, x: Session, c: Config)
    requires e.frameSize == 1 && c.maxMessage >= 2 && NeverLengthens(c.lib)
    requires c.lib.decode([0xC3, 0xA9]) == Some([0xE9]) && c.lib.decode([0xC3]) == None
    ensures Select(IsMessage, Handled(FRESH, Fragments(e.(frameSize := 2), x, OP_TEXT, [0xC3, 0xA9]), c).log)
         == [TextMessageReceived([0xE9])]
    ensures Select(IsMessage, Handled(FRESH, Fragments(e, x, OP_TEXT, [0xC3, 0xA9]), c).log) == []
  {
    TextDelivery(e.(frameSize := 2), x, [0xC3, 0xA9], c);
    assert [0xC3, 0xA9][..1] == [0xC3];
    TextDelivery(e, x, [0xC3, 0xA9], c);
  }
}
