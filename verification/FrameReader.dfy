/** The socket and the object that reads one frame at a time from it. */
module FrameReader {
  import opened Bytes
  import opened Protocol
  import opened Frames
  import opened Reader

  /**
   * A connected socket: bytes that have arrived and have not been read, and bytes that have been written.
   * A closed socket that is deaf neither delivers nor accepts any more bytes.
   */
  class Socket {
    var rx: seq<byte>
    var tx: seq<byte>
    var isOpen: bool
    const deaf: bool

    constructor (deaf: bool)
      ensures rx == [] && tx == [] && isOpen && this.deaf == deaf
    {
      rx, tx, isOpen, this.deaf := [], [], true, deaf;
    }

    method Read(n: nat) returns (b: seq<byte>)
      modifies this`rx
      ensures b == Left(old(rx), n) && b + rx == old(rx)
    {
      b := Left(rx, n);
      rx := rx[|b|..];
    }

    method Write(b: seq<byte>)
      modifies this`tx
      ensures tx == if isOpen || !deaf then old(tx) + b else old(tx)
    {
      if isOpen || !deaf {
        tx := tx + b;
      }
    }

    method Close()
      modifies this`isOpen, this`rx
      ensures !isOpen && rx == if deaf then [] else old(rx)
    {
      isOpen := false;
      if deaf {
        rx := [];
      }
    }

    /** Gives up the connection; what was not read is lost. */
    method DisconnectFromHost()
      modifies this`rx
      ensures rx == []
    {
      rx := [];
    }

    /** The network step: bytes from the peer. */
    method Arrive(b: seq<byte>)
      modifies this`rx
      ensures rx == if isOpen || !deaf then old(rx) + b else old(rx)
    {
      if isOpen || !deaf {
        rx := rx + b;
      }
    }
  }

  datatype ProcessingState =
    | ReadHeader | ReadPayloadLength | ReadMask | ReadPayload | DispatchResult | WaitForMoreData

  class WebSocketFrame {
    var processingState: ProcessingState
    var isFinalFrame: bool
    var rsv1: bool
    var rsv2: bool
    var rsv3: bool
    var opCode: OpCode
    var mask: u32
    var length: nat
    var payload: seq<byte>
    var isValid: bool
    var closeCode: int
    var closeReason: ErrorText
    var maxAllowedFrameSize: nat

    /** What the fields mean when the frame is at the given stage. */
    ghost function StateAt(stage: ProcessingState): FrameState
      reads this
    {
      match stage
      case ReadHeader => AtHeader
      case ReadPayloadLength => AtLength(isFinalFrame, opCode, mask != 0, length)
      case ReadMask => AtMask(isFinalFrame, opCode, length)
      case ReadPayload => AtPayload(isFinalFrame, opCode, mask, length)
      case _ => if isValid then Complete(Frame(isFinalFrame, opCode, mask, payload)) else Refused(closeReason)
    }

    ghost predicate ValidAt(stage: ProcessingState)
      reads this
    {
      && Sound(StateAt(stage))
      && match stage
         case ReadHeader => Cleared()
         case DispatchResult => !isValid ==> closeCode == RefusalCode(closeReason)
         case WaitForMoreData => false
         case _ => isValid && payload == []
    }

    ghost predicate Cleared()
      reads this
    {
      && processingState == ReadHeader && isFinalFrame && !rsv1 && !rsv2 && !rsv3
      && opCode == OP_RESERVED_C && mask == 0 && length == 0 && payload == []
      && !isValid && closeCode == CLOSE_NORMAL && closeReason == NoText
    }

    ghost function State(): FrameState
      reads this
    {
      StateAt(processingState)
    }

    ghost predicate Valid()
      reads this
    {
      ValidAt(processingState)
    }

    /** What one stage does: it waits and changes nothing, or it absorbs its field and names the next stage. */
    twostate predicate Advanced(device: Socket, next: ProcessingState)
      reads this, device
    {
      && maxAllowedFrameSize == old(maxAllowedFrameSize)
      && var s, buf, n := old(State()), old(device.rx), Need(old(State()), maxAllowedFrameSize);
         if Blocked(s, buf, maxAllowedFrameSize) then
           next == WaitForMoreData && processingState == old(processingState) && Valid() && State() == s && device.rx == buf
         else
           ValidAt(next) && StateAt(next) == Absorb(s, buf[..n], maxAllowedFrameSize) && device.rx == buf[n..]
    }

    constructor ()
      ensures Cleared() && maxAllowedFrameSize == MAX_SIZE_IN_BYTES
    {
      processingState, isFinalFrame, rsv1, rsv2, rsv3 := ReadHeader, true, false, false, false;
      opCode, mask, length, payload := OP_RESERVED_C, 0, 0, [];
      isValid, closeCode, closeReason := false, CLOSE_NORMAL, NoText;
      maxAllowedFrameSize := MAX_SIZE_IN_BYTES;
    }

    method SetMaxAllowedFrameSize(size: nat)
      modifies this`maxAllowedFrameSize
      ensures maxAllowedFrameSize == if size <= 0x7FFF_FFFE then size else old(maxAllowedFrameSize)
    {
      if size <= MAX_SIZE_IN_BYTES {
        maxAllowedFrameSize := size;
      }
    }

    predicate IsDone()
      reads this
    {
      processingState == DispatchResult
    }

    method Clear()
      modifies this
      ensures Cleared() && maxAllowedFrameSize == old(maxAllowedFrameSize)
    {
      closeCode, closeReason := CLOSE_NORMAL, NoText;
      isFinalFrame := true;
      mask := 0;
      rsv1, rsv2, rsv3 := false, false, false;
      opCode := OP_RESERVED_C;
      length := 0;
      payload := [];
      isValid := false;
      processingState := ReadHeader;
    }

    method SetError(code: int, reason: ErrorText)
      modifies this
      ensures !isValid && closeCode == code && closeReason == reason
      ensures maxAllowedFrameSize == old(maxAllowedFrameSize)
    {
      Clear();
      closeCode := code;
      closeReason := reason;
      isValid := false;
    }

    /** Reads as much of a frame as has arrived. */
    method ReadFrame(device: Socket)
      requires Valid()
      modifies this, device`rx
      ensures Valid() && maxAllowedFrameSize == old(maxAllowedFrameSize)
      ensures (State(), device.rx) == Run(old(State()), old(device.rx), maxAllowedFrameSize)
    {
      var waiting := false;
      while !waiting && !IsDone()
        invariant Valid() && maxAllowedFrameSize == old(maxAllowedFrameSize)
        invariant Run(State(), device.rx, maxAllowedFrameSize)
               == Run(old(State()), old(device.rx), maxAllowedFrameSize)
        invariant waiting ==> Blocked(State(), device.rx, maxAllowedFrameSize)
        decreases !waiting, Rank(State())
      {
        RunAdvance(State(), device.rx, maxAllowedFrameSize);
        waiting := ReadStage(device);
      }
    }

    /** The stage readers; a stage that lacks bytes is taken up again later. */
    method ReadStage(device: Socket) returns (waiting: bool)
      requires Valid() && !IsDone()
      modifies this, device`rx
      ensures Valid() && maxAllowedFrameSize == old(maxAllowedFrameSize)
      ensures waiting == Blocked(old(State()), old(device.rx), maxAllowedFrameSize)
      ensures var n := Need(old(State()), maxAllowedFrameSize);
        (State(), device.rx)
        == if waiting then (old(State()), old(device.rx))
           else (Absorb(old(State()), old(device.rx[..n]), maxAllowedFrameSize), old(device.rx[n..]))
    {
      var stage := processingState;
      match stage {
        case ReadHeader => processingState := ReadFrameHeader(device);
        case ReadPayloadLength => processingState := ReadFramePayloadLength(device);
        case ReadMask => processingState := ReadFrameMask(device);
        case ReadPayload => processingState := ReadFramePayload(device);
        case _ => assert false;  // the stage is never left at waiting
      }
      waiting := processingState == WaitForMoreData;
      if waiting {
        processingState := stage;
      }
    }

    method ReadFrameHeader(device: Socket) returns (next: ProcessingState)
      requires Valid() && processingState == ReadHeader
      modifies this, device`rx
      ensures Advanced(device, next)
    {
      if |device.rx| >= 2 {
        var header := device.Read(2);
        if |header| < 2 {
          assert false;  // reading from the network failed
        }
        SetFields(header[0], header[1]);
        var ok := CheckValidity();
        if !ok {
          return DispatchResult;
        }
        if length == 126 || length == 127 {
          return ReadPayloadLength;
        }
        return if mask != 0 then ReadMask else ReadPayload;
      }
      return WaitForMoreData;
    }

    method SetFields(b0: byte, b1: byte)
      modifies this`isFinalFrame, this`rsv1, this`rsv2, this`rsv3, this`opCode, this`mask, this`length
      ensures isFinalFrame == Fin(b0) && opCode == OpCodeOf(b0) && (rsv1 || rsv2 || rsv3 <==> Rsv(b0))
      ensures length == Field(b1) < 128 && mask == if MaskBit(b1) then 0x80 else 0
    {
      isFinalFrame := Fin(b0);
      rsv1, rsv2, rsv3 := BitSet(b0, 0x40), BitSet(b0, 0x20), BitSet(b0, 0x10);
      opCode := OpCodeOf(b0);
      // a mask that is not zero means that there is a mask to read
      mask := if MaskBit(b1) then 0x80 else 0;
      length := Field(b1);
      RsvBits(b0);
    }

    method ReadFramePayloadLength(device: Socket) returns (next: ProcessingState)
      requires Valid() && processingState == ReadPayloadLength
      modifies this, device`rx
      ensures Advanced(device, next)
    {
      match length {
        case 126 => next := ReadLength16(device);
        case 127 => next := ReadLength64(device);
        case _ => assert false;
      }
    }

    method ReadLength16(device: Socket) returns (next: ProcessingState)
      requires Valid() && processingState == ReadPayloadLength && length == 126
      modifies this, device`rx
      ensures Advanced(device, next)
    {
      if |device.rx| >= 2 {
        var bytes := device.Read(2);
        if |bytes| < 2 {
          assert false;  // reading from the network failed
        }
        length := FromBigEndian(bytes);
        if length < 126 {
          SetError(CLOSE_PROTOCOL_ERROR, Length16NotMinimal);
          return DispatchResult;
        }
        return if mask != 0 then ReadMask else ReadPayload;
      }
      return WaitForMoreData;
    }

    method ReadLength64(device: Socket) returns (next: ProcessingState)
      requires Valid() && processingState == ReadPayloadLength && length == 127
      modifies this, device`rx
      ensures Advanced(device, next)
    {
      if |device.rx| >= 8 {
        var bytes := device.Read(8);
        if |bytes| < 8 {
          assert false;  // the first place that would report an abnormal disconnection
        }
        Widths();
        length := FromBigEndian(bytes);
        if length / 0x8000_0000_0000_0000 % 2 == 1 {
          SetError(CLOSE_PROTOCOL_ERROR, LengthHighBit);
          return DispatchResult;
        }
        if length <= 0xFFFF {
          SetError(CLOSE_PROTOCOL_ERROR, Length64NotMinimal);
          return DispatchResult;
        }
        return if mask != 0 then ReadMask else ReadPayload;
      }
      return WaitForMoreData;
    }

    method ReadFrameMask(device: Socket) returns (next: ProcessingState)
      requires Valid() && processingState == ReadMask
      modifies this, device`rx
      ensures Advanced(device, next)
    {
      if |device.rx| >= 4 {
        var bytes := device.Read(4);
        if |bytes| < 4 {
          assert false;  // reading from the network failed
        }
        Widths();
        mask := FromBigEndian(bytes);
        return ReadPayload;
      }
      return WaitForMoreData;
    }

    method ReadFramePayload(device: Socket) returns (next: ProcessingState)
      requires Valid() && processingState == ReadPayload
      modifies this, device`rx
      ensures Advanced(device, next)
    {
      if length == 0 {
        assert device.rx[0..] == device.rx;
        return DispatchResult;
      }
      if length > maxAllowedFrameSize {
        assert device.rx[0..] == device.rx;
        SetError(CLOSE_TOO_MUCH_DATA, FrameTooLarge);
        return DispatchResult;
      }
      if |device.rx| >= length {
        var bytes := device.Read(length);
        MaskZero(bytes);
        if |bytes| != length {
          assert false;  // the second place that would report an abnormal disconnection
        } else if mask != 0 {
          bytes := Masked(bytes, mask);
        }
        payload := bytes;
        return DispatchResult;
      }
      return WaitForMoreData;
    }

    method CheckValidity() returns (ok: bool)
      requires !isValid
      modifies this
      ensures var objection := old(Objection(rsv1 || rsv2 || rsv3, isFinalFrame, opCode, length));
        && ok == isValid == (objection == NoText)
        && (ok ==> unchanged(`isFinalFrame, `opCode, `mask, `length, `payload))
        && (!ok ==> closeReason == objection && closeCode == CLOSE_PROTOCOL_ERROR)
      ensures maxAllowedFrameSize == old(maxAllowedFrameSize)
    {
      if rsv1 || rsv2 || rsv3 {
        SetError(CLOSE_PROTOCOL_ERROR, RsvNonZero);
      } else if IsOpCodeReserved(opCode) {
        SetError(CLOSE_PROTOCOL_ERROR, ReservedOpCode);
      } else if IsControl(opCode) {
        if length > 125 {
          SetError(CLOSE_PROTOCOL_ERROR, ControlTooLarge);
        } else if !isFinalFrame {
          SetError(CLOSE_PROTOCOL_ERROR, ControlFragmented);
        } else {
          isValid := true;
        }
      } else {
        isValid := true;
      }
      return isValid;
    }
  }

  predicate BitSet(b: byte, weight: nat)
    requires weight > 0
  {
    b / weight % 2 == 1
  }

  lemma {:induction false} RsvBits(b: byte)
    ensures Rsv(b) <==> BitSet(b, 0x40) || BitSet(b, 0x20) || BitSet(b, 0x10)
  {
    var x := b / 0x10;
    assert b / 0x20 == x / 2 && b / 0x40 == x / 4;
    assert x % 8 == x / 4 % 2 * 4 + x / 2 % 2 * 2 + x % 2;
  }
}
