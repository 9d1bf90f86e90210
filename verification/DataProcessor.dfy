/** The object that turns frames into signals. */
module DataProcessor {
  import opened Bytes
  import opened Protocol
  import opened Reader
  import opened Feeder
  import opened Assembler
  import opened Messages
  import opened FrameReader

  class WebSocketDataProcessor {
    var isFragmented: bool
    var opCode: OpCode
    var binaryMessage: seq<byte>
    var textMessage: Text
    var maxAllowedMessageSize: nat
    var signals: seq<Event>
    const frame: WebSocketFrame
    const lib: TextLib

    ghost function Model(): Processor
      reads this
    {
      Processor(Assembly(isFragmented, opCode, binaryMessage, textMessage), signals)
    }

    ghost function Limits(): Config
      reads this, frame
    {
      Config(frame.maxAllowedFrameSize, maxAllowedMessageSize, lib)
    }

    ghost predicate Valid()
      reads this, frame
    {
      frame.Valid() && !frame.IsDone()
    }

    constructor (lib: TextLib)
      ensures Valid() && fresh(frame) && Model() == Processor(IDLE, []) && frame.State() == AtHeader
      ensures Limits() == Config(MAX_SIZE_IN_BYTES, MAX_SIZE_IN_BYTES, lib)
    {
      frame := new WebSocketFrame();
      isFragmented, opCode, binaryMessage, textMessage := false, OP_CLOSE, [], [];
      maxAllowedMessageSize := MAX_SIZE_IN_BYTES;
      signals := [];
      this.lib := lib;
    }

    method SetMaxAllowedMessageSize(size: nat)
      modifies this`maxAllowedMessageSize
      ensures maxAllowedMessageSize == if size <= MAX_SIZE_IN_BYTES then size else old(maxAllowedMessageSize)
    {
      if size <= MAX_SIZE_IN_BYTES {
        maxAllowedMessageSize := size;
      }
    }

    method Emit(e: Event)
      modifies this`signals
      ensures signals == old(signals) + [e]
    {
      signals := signals + [e];
    }

    method Clear()
      modifies this, frame
      ensures Model() == Processor(IDLE, old(signals)) && frame.Cleared() && Limits() == old(Limits())
    {
      isFragmented := false;
      opCode := OP_CLOSE;
      binaryMessage := [];
      textMessage := [];
      frame.Clear();
    }

    /** The waiting time for the rest of a frame is over. */
    method Timeout()
      modifies this, frame
      ensures Model() == TimedOut(old(Model()), lib) && frame.Cleared() && Limits() == old(Limits())
    {
      Clear();
      Emit(ErrorEncountered(CLOSE_GOING_AWAY, lib.tr(ReadTimeout)));
    }

    /**
     * Handles frames until one gives control back; false means that it waits for more bytes. This is one run of the
     * specified consumer over the bytes of the device.
     */
    method Process(device: Socket) returns (done: bool)
      requires Valid() && device.rx != []
      modifies this, frame, device`rx
      ensures Valid() && Limits() == old(Limits())
      ensures Outcome(frame.State(), Model(), device.rx, done)
           == old(Feed(Assembling(Limits()), Limits().maxFrame, frame.State(), Model(), device.rx))
    {
      ghost var c := Limits();
      ghost var expected := Feed(Assembling(c), c.maxFrame, frame.State(), Model(), device.rx);
      var isDone := false;
      while !isDone
        invariant Valid() && Limits() == c
        invariant device.rx == [] ==> frame.State() == AtHeader
        invariant isDone ==> frame.State() == AtHeader && Outcome(AtHeader, Model(), device.rx, true) == expected
        invariant !isDone ==> Feed(Assembling(c), c.maxFrame, frame.State(), Model(), device.rx) == expected
        decreases !isDone, Weight(frame.State(), device.rx)
      {
        ghost var s, p, buf := frame.State(), Model(), device.rx;
        frame.ReadFrame(device);
        if buf != [] {
          FeedStep(Assembling(c), c.maxFrame, s, p, buf);
        }
        if !frame.IsDone() {
          return false;
        }
        FinishingDescends(s, buf, c.maxFrame);
        isDone := Dispatch();
      }
      return true;
    }

    /** One finished frame. */
    method Dispatch() returns (isDone: bool)
      requires frame.Valid() && frame.IsDone()
      modifies this, frame
      ensures frame.Cleared() && Limits() == old(Limits())
      ensures (Model(), isDone) == OnDone(old(Model()), old(frame.State()), old(Limits()))
    {
      if frame.isValid {
        if IsControl(frame.opCode) {
          isDone := ProcessControlFrame();
        } else {
          isDone := ProcessDataFrame();
        }
      } else {
        var code, reason := frame.closeCode, frame.closeReason;
        Emit(ErrorEncountered(code, lib.tr(reason)));
        Clear();
        isDone := true;
      }
      frame.Clear();
    }

    method Fail(code: int, reason: ErrorText)
      modifies this, frame
      ensures Model() == Processor(IDLE, old(signals) + Failure(code, reason, lib).events)
      ensures frame.Cleared() && Limits() == old(Limits())
    {
      Clear();
      Emit(ErrorEncountered(code, lib.tr(reason)));
    }

    /** A data frame: continuation, text or binary. */
    method ProcessDataFrame() returns (isDone: bool)
      requires frame.Valid() && frame.State().Complete? && !IsControl(frame.opCode)
      modifies this, frame
      ensures Limits() == old(Limits())
      ensures (Model(), isDone) == OnDone(old(Model()), old(frame.State()), old(Limits()))
    {
      if !isFragmented && frame.opCode == OP_CONTINUE {
        Fail(CLOSE_PROTOCOL_ERROR, NothingToContinue);
        return true;
      }
      if isFragmented && frame.opCode != OP_CONTINUE {
        Fail(CLOSE_PROTOCOL_ERROR, ContinuationExpected);
        return true;
      }
      if frame.opCode != OP_CONTINUE {
        opCode := frame.opCode;
        isFragmented := !frame.isFinalFrame;
      }
      isDone := AppendPayload();
    }

    method AppendPayload() returns (isDone: bool)
      requires frame.Valid() && frame.State().Complete?
      modifies this, frame
      ensures Limits() == old(Limits())
      ensures var step := old(Append(Model().asm, frame.State().frame, Limits()));
        Model() == Processor(step.next, old(signals) + step.events) && isDone == step.stop
    {
      var messageLength := if opCode == OP_TEXT then |textMessage| else |binaryMessage|;
      if messageLength + |frame.payload| > maxAllowedMessageSize {
        Fail(CLOSE_TOO_MUCH_DATA, MessageTooBig);
        return true;
      }
      var isFinalFrame, before := frame.isFinalFrame, signals;
      if opCode == OP_TEXT {
        match lib.decode(frame.payload) {
          case None =>
            Fail(CLOSE_WRONG_DATATYPE, InvalidUtf8);
            return true;
          case Some(frameText) =>
            textMessage := textMessage + frameText;
            frame.Clear();
            Emit(TextFrameReceived(frameText, isFinalFrame));
        }
      } else {
        var payload := frame.payload;
        binaryMessage := binaryMessage + payload;
        frame.Clear();
        Emit(BinaryFrameReceived(payload, isFinalFrame));
      }
      if isFinalFrame {
        var message := if opCode == OP_TEXT then TextMessageReceived(textMessage) else BinaryMessageReceived(binaryMessage);
        Clear();
        Emit(message);
        assert signals == before + [signals[|before|], message];
      }
      return isFinalFrame;
    }

    method ProcessControlFrame() returns (mustStop: bool)
      requires frame.Valid() && frame.State().Complete? && IsControl(frame.opCode)
      modifies this`signals
      ensures mustStop
      ensures signals == old(signals) + ControlEvents(frame.opCode, frame.payload, lib)
    {
      mustStop := true;
      match frame.opCode {
        case 0x9 => Emit(PingReceived(frame.payload));
        case 0xA => Emit(PongReceived(frame.payload));
        case 0x8 =>
          var closeCode: int, closeReason: Text := CLOSE_NORMAL, [];
          var payload := frame.payload;
          if |payload| == 1 {
            closeCode, closeReason := CLOSE_PROTOCOL_ERROR, lib.tr(CloseTooSmall);
          } else if |payload| > 1 {
            closeCode := FromBigEndian(payload[..2]);
            if !IsCloseCodeValid(closeCode) {
              closeCode, closeReason := CLOSE_PROTOCOL_ERROR, lib.tr(CloseCodeInvalid);
            } else if |payload| > 2 {
              match lib.decode(payload[2..]) {
                case Some(text) => closeReason := text;
                case None => closeCode, closeReason := CLOSE_WRONG_DATATYPE, lib.tr(InvalidUtf8);
              }
            }
          }
          Emit(CloseReceived(closeCode, closeReason));
        case _ =>
          assert false;  // reserved opcodes are refused by the reader
      }
    }
  }
}
