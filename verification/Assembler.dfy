/** How frames become messages (section 5.4 of RFC 6455) and control events (section 5.5). */
module Assembler {
  import opened Bytes
  import opened Protocol
  import opened Frames
  import opened Reader
  import opened Feeder

  /** The text functions of the surrounding library: UTF-8 conversions and translated descriptions. */
  datatype TextLib = TextLib(
    decode: seq<byte> -> Option<Text>,
    toUtf8: Text -> seq<byte>,
    fromUtf8: seq<byte> -> Text,
    tr: ErrorText -> Text)

  datatype Config = Config(maxFrame: nat, maxMessage: nat, lib: TextLib)

  datatype Event =
    | PingReceived(data: seq<byte>)
    | PongReceived(data: seq<byte>)
    | CloseReceived(code: int, reason: Text)
    | TextFrameReceived(text: Text, last: bool)
    | BinaryFrameReceived(data: seq<byte>, last: bool)
    | TextMessageReceived(text: Text)
    | BinaryMessageReceived(data: seq<byte>)
    | ErrorEncountered(code: int, reason: Text)
  {
    /** The connection answers these events by closing. */
    predicate Closing() { CloseReceived? || ErrorEncountered? }
  }

  datatype Assembly = Assembly(fragmented: bool, opCode: OpCode, binary: seq<byte>, text: Text)

  const IDLE := Assembly(false, OP_CLOSE, [], [])

  /** The next assembly, the events in order, and whether the caller gets control back. */
  datatype Step = Step(next: Assembly, events: seq<Event>, stop: bool)

  function Failure(code: int, reason: ErrorText, lib: TextLib): Step {
    Step(IDLE, [ErrorEncountered(code, lib.tr(reason))], true)
  }

  function CloseEvent(payload: seq<byte>, lib: TextLib): Event {
    if |payload| == 0 then CloseReceived(CLOSE_NORMAL, [])
    else if |payload| == 1 then CloseReceived(CLOSE_PROTOCOL_ERROR, lib.tr(CloseTooSmall))
    else
      var code := FromBigEndian(payload[..2]);
      if !IsCloseCodeValid(code) then CloseReceived(CLOSE_PROTOCOL_ERROR, lib.tr(CloseCodeInvalid))
      else if |payload| == 2 then CloseReceived(code, [])
      else match lib.decode(payload[2..])
        case Some(reason) => CloseReceived(code, reason)
        case None => CloseReceived(CLOSE_WRONG_DATATYPE, lib.tr(InvalidUtf8))
  }

  function ControlEvents(opCode: OpCode, payload: seq<byte>, lib: TextLib): seq<Event> {
    if opCode == OP_PING then [PingReceived(payload)]
    else if opCode == OP_PONG then [PongReceived(payload)]
    else if opCode == OP_CLOSE then [CloseEvent(payload, lib)]
    else []
  }

  function Opened(a: Assembly, f: Frame): Assembly {
    if f.opCode == OP_CONTINUE then a else a.(opCode := f.opCode, fragmented := !f.fin)
  }

  function OpenLength(a: Assembly): nat {
    if a.opCode == OP_TEXT then |a.text| else |a.binary|
  }

  function Append(a: Assembly, f: Frame, c: Config): Step {
    if OpenLength(a) + |f.payload| > c.maxMessage then Failure(CLOSE_TOO_MUCH_DATA, MessageTooBig, c.lib)
    else if a.opCode == OP_TEXT then
      match c.lib.decode(f.payload)
      case None => Failure(CLOSE_WRONG_DATATYPE, InvalidUtf8, c.lib)
      case Some(t) =>
        var text := a.text + t;
        if f.fin then Step(IDLE, [TextFrameReceived(t, true), TextMessageReceived(text)], true)
        else Step(a.(text := text), [TextFrameReceived(t, false)], false)
    else
      var binary := a.binary + f.payload;
      if f.fin then Step(IDLE, [BinaryFrameReceived(f.payload, true), BinaryMessageReceived(binary)], true)
      else Step(a.(binary := binary), [BinaryFrameReceived(f.payload, false)], false)
  }

  function OnFrame(a: Assembly, f: Frame, c: Config): Step {
    if IsControl(f.opCode) then Step(a, ControlEvents(f.opCode, f.payload, c.lib), true)
    else if !a.fragmented && f.opCode == OP_CONTINUE then Failure(CLOSE_PROTOCOL_ERROR, NothingToContinue, c.lib)
    else if a.fragmented && f.opCode != OP_CONTINUE then Failure(CLOSE_PROTOCOL_ERROR, ContinuationExpected, c.lib)
    else Append(Opened(a, f), f, c)
  }

  function Handle(a: Assembly, s: FrameState, c: Config): Step
    requires s.Done()
  {
    match s
    case Complete(f) => OnFrame(a, f, c)
    case Refused(reason) => Failure(RefusalCode(reason), reason, c.lib)
  }

  // ----- the processor as a consumer of frames -----

  /** The assembly and every event so far. */
  datatype Processor = Processor(asm: Assembly, log: seq<Event>)

  function OnDone(p: Processor, s: FrameState, c: Config): (Processor, bool)
    requires s.Done()
  {
    var step := Handle(p.asm, s, c);
    (Processor(step.next, p.log + step.events), step.stop)
  }

  /** One call of the processor: it returns when a frame gives control back. */
  function Assembling(c: Config): Consumer<Processor> {
    (p: Processor, s: FrameState) => if s.Done() then OnDone(p, s, c) else (p, true)
  }

  /** The processor called again and again. */
  function Processing(c: Config): Consumer<Processor> {
    (p: Processor, s: FrameState) => if s.Done() then (OnDone(p, s, c).0, false) else (p, true)
  }
}
