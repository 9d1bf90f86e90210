/** The connection object: it writes frames, answers the processor's signals and passes incoming bytes on. */
module WebSocketConnection {
  import opened Bytes
  import opened Protocol
  import opened Frames
  import opened Reader
  import opened Feeder
  import opened Assembler
  import opened FrameReader
  import opened DataProcessor
  import opened Endpoint
  import opened Delivery
  import opened Handshake

  /** Where to connect: only a reachable target leads to a new socket. */
  datatype Target = InvalidUrl | InvalidResource | UnsupportedScheme | Reachable

  datatype SocketState = Unconnected | ConnectingState | ConnectedState | ClosingState

  class WebSocket {
    var socket: Socket?
    var state: SocketState
    var mustMask: bool
    var isClosingHandshakeSent: bool
    var isClosingHandshakeReceived: bool
    var closeCode: int
    var closeReason: Text
    var outgoingFrameSize: nat
    var drawn: nat
    var bytesToSkipBeforeNewResponse: int
    const processor: WebSocketDataProcessor
    const masks: nat -> u32
    const http: Http

    ghost var out: seq<Frame>      // the frames written to the current socket
    ghost var uses: seq<Use>       // what the bytes of the handshake were used for
    ghost var requests: nat        // handshake requests sent again with credentials

    ghost predicate Valid()
      reads this, socket, processor, processor.frame
    {
      processor.Valid() && outgoingFrameSize <= MAX_SIZE_IN_BYTES && (socket != null ==> SocketOk())
    }

    /** The socket has got exactly the frames on record. */
    ghost predicate SocketOk()
      requires socket != null
      reads this, socket
    {
      && socket.tx == EncodeAll(out) && (state == ConnectedState ==> socket.isOpen)
      && (!socket.isOpen && socket.deaf ==> socket.rx == [])
    }

    predicate Accepting()
      requires socket != null
      reads this, socket
    {
      socket.isOpen || !socket.deaf
    }

    ghost function Environment(): Env
      requires socket != null
      reads this, socket, processor, processor.frame
    {
      Env(processor.Limits(), masks, outgoingFrameSize, socket.deaf)
    }

    ghost function Current(): Session
      requires socket != null
      reads this, socket, processor
    {
      Session(processor.Model(), mustMask, drawn, out, !socket.isOpen,
              isClosingHandshakeSent, isClosingHandshakeReceived, closeCode, closeReason)
    }

    ghost function Connection(): Conn
      requires socket != null
      reads this, socket, processor, processor.frame
    {
      Conn(processor.frame.State(), socket.rx, Current())
    }

    ghost function AsClient(): Client
      requires socket != null
      reads this, socket, processor, processor.frame
    {
      var phase := if state == ConnectingState then Connecting
                   else if state == Unconnected then Disconnecting
                   else Connected;
      Client(phase, bytesToSkipBeforeNewResponse, requests, uses, Connection())
    }

    constructor (lib: TextLib, masks: nat -> u32, http: Http)
      ensures Valid() && socket == null && state == Unconnected
      ensures fresh(processor) && fresh(processor.frame)
    {
      socket, state, mustMask := null, Unconnected, true;
      isClosingHandshakeSent, isClosingHandshakeReceived := false, false;
      closeCode, closeReason := CLOSE_NORMAL, [];
      outgoingFrameSize, drawn, bytesToSkipBeforeNewResponse := 512 * 512 * 2, 0, 0;
      processor := new WebSocketDataProcessor(lib);
      this.masks, this.http := masks, http;
      out, uses, requests := [], [], 0;
    }

    method SetOutgoingFrameSize(size: nat)
      modifies this`outgoingFrameSize
      ensures outgoingFrameSize == if size <= 0x7FFF_FFFE then size else old(outgoingFrameSize)
    {
      if size <= MAX_SIZE_IN_BYTES {
        outgoingFrameSize := size;
      }
    }

    /**
     * Opening gives up the old socket, except for an address that is not valid. A new socket comes with a new start
     * for the processor and the flags; what is still to be skipped stays.
     */
    method Open(target: Target, mask: bool, deaf: bool)
      requires Valid()
      modifies this, processor, processor.frame
      ensures target == InvalidUrl ==> unchanged(this) && unchanged(processor) && unchanged(processor.frame)
      ensures target != InvalidUrl ==>
        && Valid() && (socket != null <==> target == Reachable)
        && processor.frame.State() == AtHeader && processor.Model() == Processor(IDLE, old(processor.signals))
        && !isClosingHandshakeSent && !isClosingHandshakeReceived
        && mustMask == (if target == InvalidResource then old(mustMask) else mask)
        && state == if target == Reachable then ConnectingState else old(state)
      ensures target == Reachable ==> fresh(socket) && socket.deaf == deaf && socket.rx == [] && socket.isOpen && out == []
      ensures target == Reachable && old(socket) != null ==> AsClient() == Handshake.OpenAgain(old(AsClient()), mask)
      ensures processor.Limits() == old(processor.Limits()) && outgoingFrameSize == old(outgoingFrameSize)
      ensures closeCode == old(closeCode) && closeReason == old(closeReason) && drawn == old(drawn)
      ensures bytesToSkipBeforeNewResponse == old(bytesToSkipBeforeNewResponse)
      ensures uses == old(uses) && requests == old(requests)
    {
      if target == InvalidUrl {
        return;
      }
      Disown();
      if target == InvalidResource {
        return;
      }
      mustMask := mask;
      if target == Reachable {
        Connect(deaf);
      }
    }

    method Disown()
      requires processor.Valid()
      modifies this`socket, this`isClosingHandshakeReceived, this`isClosingHandshakeSent, processor, processor.frame
      ensures socket == null && !isClosingHandshakeReceived && !isClosingHandshakeSent
      ensures processor.Valid() && processor.frame.State() == AtHeader
      ensures processor.Model() == Processor(IDLE, old(processor.signals)) && processor.Limits() == old(processor.Limits())
    {
      socket := null;
      processor.Clear();
      isClosingHandshakeReceived := false;
      isClosingHandshakeSent := false;
    }

    method Connect(deaf: bool)
      modifies this`socket, this`out, this`state
      ensures fresh(socket) && socket.deaf == deaf && socket.rx == [] && socket.isOpen && out == [] && SocketOk()
      ensures state == ConnectingState
    {
      socket := new Socket(deaf);
      out := [];
      state := ConnectingState;
    }

    /** Frame header of section 5.2; nothing for a payload whose length cannot be expressed. */
    method GetFrameHeader(opCode: OpCode, payloadLength: nat, maskingKey: u32, lastFrame: bool) returns (header: seq<byte>)
      ensures payloadLength <= MAX_PAYLOAD_LENGTH ==>
        header == HeaderBytes(lastFrame, opCode, maskingKey != 0, maskingKey, payloadLength)
      ensures payloadLength > MAX_PAYLOAD_LENGTH ==> header == []
    {
      header := [];
      if payloadLength <= MAX_PAYLOAD_LENGTH {
        header := header + [opCode + if lastFrame then 0x80 else 0x00];
        var maskBit := if maskingKey != 0 then 0x80 else 0x00;
        if payloadLength <= 125 {
          header := header + [maskBit + payloadLength];
        } else if payloadLength <= 0xFFFF {
          header := header + [maskBit + 126];
          header := header + ToBigEndian(payloadLength, 2);
        } else {
          header := header + [maskBit + 127];
          header := header + ToBigEndian(payloadLength, 8);
        }
        if maskingKey != 0 {
          header := header + ToBigEndian(maskingKey, 4);
        }
      }
    }

    method GenerateMaskingKey() returns (key: u32)
      modifies this`drawn
      ensures key == masks(old(drawn)) && drawn == old(drawn) + 1
    {
      key := masks(drawn);
      drawn := drawn + 1;
    }

    /** The key of the next frame; 0 stands for no key. */
    function KeyNow(): u32
      reads this
    {
      if mustMask then masks(drawn) else 0
    }

    /** One more frame on record, if the socket accepts it, and one more key drawn, if frames are masked. */
    twostate predicate Wrote(fin: bool, opCode: OpCode, payload: seq<byte>)
      requires old(socket) != null
      reads this
    {
      && out == old(out) + (if old(Accepting()) then [Frame(fin, opCode, old(KeyNow()), payload)] else [])
      && drawn == old(drawn) + if old(mustMask) then 1 else 0
    }

    method DrawKey() returns (key: u32)
      modifies this`drawn
      ensures key == old(KeyNow()) && drawn == old(drawn) + if mustMask then 1 else 0
    {
      key := 0;
      if mustMask {
        key := GenerateMaskingKey();
      }
    }

    /** Header and masked payload go to the socket one after the other. */
    method WritePieces(header: seq<byte>, masked: seq<byte>, ghost f: Frame)
      requires socket != null && SocketOk()
      requires header == HeaderBytes(f.fin, f.opCode, f.key != 0, f.key, |f.payload|) && masked == Mask(f.payload, f.key)
      modifies this`out, socket`tx
      ensures SocketOk() && out == old(out) + if Accepting() then [f] else []
    {
      Written(out, f, header, masked);
      socket.Write(header);
      if |masked| > 0 {
        socket.Write(masked);
      }
      if Accepting() {
        out := out + [f];
      }
    }

    method WriteFrame(opCode: OpCode, fin: bool, maskingKey: u32, payload: seq<byte>)
      requires socket != null && SocketOk() && |payload| <= MAX_PAYLOAD_LENGTH && (!mustMask ==> maskingKey == 0)
      modifies this`out, socket`tx
      ensures SocketOk() && out == old(out) + if Accepting() then [Frame(fin, opCode, maskingKey, payload)] else []
    {
      var header := GetFrameHeader(opCode, |payload|, maskingKey, fin);
      MaskZero(payload);
      var masked := payload;
      if mustMask {
        masked := Masked(payload, maskingKey);
      }
      WritePieces(header, masked, Frame(fin, opCode, maskingKey, payload));
    }

    method Ping(payload: seq<byte>)
      requires socket != null ==> SocketOk()
      modifies this`drawn, this`out
      modifies if socket != null then {socket} else {}
      ensures if socket == null then unchanged(`out) else
        && SocketOk() && unchanged(socket`rx, socket`isOpen)
        && Current() == Write(old(Environment()), old(Current()), true, OP_PING, Left(payload, MAX_CONTROL))
    {
      var payloadTruncated := Left(payload, MAX_CONTROL);
      var maskingKey := DrawKey();
      if socket != null {
        WriteFrame(OP_PING, true, maskingKey, payloadTruncated);
      }
    }

    method ProcessPing(data: seq<byte>)
      requires socket != null && SocketOk() && |data| <= MAX_PAYLOAD_LENGTH
      modifies this`drawn, this`out, socket`tx
      ensures SocketOk() && Wrote(true, OP_PONG, data)
    {
      var maskingKey := DrawKey();
      WriteFrame(OP_PONG, true, maskingKey, data);
    }

    /** A Close frame is written the first time only. */
    method CloseWith(code: int, reason: Text)
      requires socket != null ==> SocketOk()
      modifies this`drawn, this`out, this`isClosingHandshakeSent, this`closeCode, this`closeReason, this`state
      modifies if socket != null then {socket} else {}
      ensures if socket == null then unchanged(this) else
        && SocketOk() && Current() == Close(old(Environment()), old(Current()), code, reason)
        && socket.rx == (if socket.deaf then [] else old(socket.rx)) && !socket.isOpen
        && state == (if old(state) == ConnectedState then ClosingState else old(state))
    {
      if socket == null {
        return;
      }
      if !isClosingHandshakeSent {
        SendClose(code, reason);
      }
      socket.Close();
      if state == ConnectedState {
        state := ClosingState;
      }
    }

    /** The code and at most 123 bytes of the reason. */
    method SendClose(code: int, reason: Text)
      requires socket != null && SocketOk() && !isClosingHandshakeSent
      modifies this`drawn, this`out, this`isClosingHandshakeSent, this`closeCode, this`closeReason, socket`tx
      ensures var reasonUtf8 := Left(processor.lib.toUtf8(reason), MAX_REASON);
        && SocketOk() && Wrote(true, OP_CLOSE, ClosePayload(code, reasonUtf8))
        && isClosingHandshakeSent && closeCode == code && closeReason == processor.lib.fromUtf8(reasonUtf8)
    {
      closeCode := code;
      var reasonUtf8 := Left(processor.lib.toUtf8(reason), MAX_REASON);
      closeReason := processor.lib.fromUtf8(reasonUtf8);
      var payload := CodeAndReason(code, reasonUtf8);
      var maskingKey := DrawKey();
      WriteFrame(OP_CLOSE, true, maskingKey, payload);
      isClosingHandshakeSent := true;
    }

    method CodeAndReason(code: int, reasonUtf8: seq<byte>) returns (payload: seq<byte>)
      ensures payload == ClosePayload(code, reasonUtf8) && |payload| == 2 + |reasonUtf8|
    {
      payload := ToBigEndian(code % 0x1_0000, 2);
      if reasonUtf8 != [] {
        payload := payload + reasonUtf8;
      }
    }

    method ProcessClose(code: int, reason: Text)
      requires socket != null && SocketOk()
      modifies this`drawn, this`out, this`isClosingHandshakeSent, this`isClosingHandshakeReceived
      modifies this`closeCode, this`closeReason, this`state, socket
      ensures SocketOk() && Current() == React(old(Environment()), old(Current()), CloseReceived(code, reason))
      ensures socket.rx == (if socket.deaf then [] else old(socket.rx)) && !socket.isOpen
      ensures state == if old(state) == ConnectedState then ClosingState else old(state)
    {
      isClosingHandshakeReceived := true;
      CloseWith(code, reason);
    }

    /**
     * Splits the data into frames in a copy that is masked in place. The caller must have set a frame size of at least
     * 1 and keep the message within the range of an int.
     */
    method DoWriteFrames(data: seq<byte>, isBinary: bool) returns (payloadWritten: nat)
      requires (socket != null ==> SocketOk()) && 0 < outgoingFrameSize <= MAX_SIZE_IN_BYTES && |data| <= 0x7FFF_FFFF
      modifies this`drawn, this`out
      modifies if socket != null then {socket} else {}
      ensures socket == null || state != ConnectedState ==>
        payloadWritten == 0 && unchanged(this) && (socket != null ==> unchanged(socket))
      ensures socket != null && state == ConnectedState ==>
        && SocketOk() && unchanged(socket`rx, socket`isOpen) && payloadWritten == |data|
        && Current() == WriteMessage(old(Environment()), old(Current()), if isBinary then OP_BINARY else OP_TEXT, data)
    {
      payloadWritten := 0;
      if socket == null || state != ConnectedState {
        return;
      }
      payloadWritten := WriteSegments(data, if isBinary then OP_BINARY else OP_TEXT);
    }

    method WriteSegments(data: seq<byte>, firstOpCode: OpCode) returns (payloadWritten: nat)
      requires socket != null && SocketOk() && 0 < outgoingFrameSize <= MAX_SIZE_IN_BYTES
      modifies this`drawn, this`out, socket`tx
      ensures SocketOk() && payloadWritten == |data|
      ensures Current() == WriteMessage(old(Environment()), old(Current()), firstOpCode, data)
    {
      var numFrames := CountFrames(|data|);
      var payload := new byte[|data|](i requires 0 <= i < |data| => data[i]);
      assert payload[..] == data;
      payloadWritten := WriteBuffer(payload, data, numFrames, firstOpCode);
    }

    method WriteBuffer(payload: array<byte>, ghost data: seq<byte>, numFrames: nat, firstOpCode: OpCode)
      returns (payloadWritten: nat)
      requires socket != null && SocketOk() && 0 < outgoingFrameSize <= MAX_SIZE_IN_BYTES
      requires payload[..] == data && numFrames == Pieces(|data|, outgoingFrameSize)
      modifies this`drawn, this`out, socket`tx, payload
      ensures SocketOk() && payloadWritten == |data|
      ensures Current() == WriteMessage(old(Environment()), old(Current()), firstOpCode, data)
    {
      payloadWritten := 0;
      var currentPosition, bytesLeft := 0, payload.Length;
      ghost var e, expected := Environment(), WriteMessage(Environment(), Current(), firstOpCode, data);
      assert payload[0..] == data[0..] == data;
      assert Unsent(e, firstOpCode, data[0..], numFrames, expected);
      var i := 0;
      while i < numFrames
        invariant 0 <= i <= numFrames && SocketOk() && Environment() == e
        invariant 0 <= currentPosition && 0 <= bytesLeft && currentPosition + bytesLeft == |data| == payload.Length
        invariant payloadWritten == currentPosition && payload[currentPosition..] == data[currentPosition..]
        invariant Unsent(e, if i == 0 then firstOpCode else OP_CONTINUE, data[currentPosition..], numFrames - i, expected)
      {
        var isLastFrame := i == numFrames - 1;
        var size := Min(bytesLeft, outgoingFrameSize);
        var opcode := if i == 0 then firstOpCode else OP_CONTINUE;
        WriteUnsent(payload, data, currentPosition, size, opcode, isLastFrame, numFrames - i, e, expected);
        payloadWritten := payloadWritten + size;
        currentPosition := currentPosition + size;
        bytesLeft := bytesLeft - size;
        i := i + 1;
      }
    }

    /** The frames that remain will bring the session to where it is expected. */
    ghost predicate Unsent(e: Env, opCode: OpCode, rest: seq<byte>, frames: nat, expected: Session)
      requires socket != null
      reads this, socket, processor
    {
      if frames == 0 then rest == [] && Current() == expected
      else e.frameSize > 0 && frames == Pieces(|rest|, e.frameSize) && WriteMessage(e, Current(), opCode, rest) == expected
    }

    /** The next segment, when the rest of the buffer is still the unmasked data. */
    method WriteUnsent(payload: array<byte>, ghost data: seq<byte>, start: nat, size: nat, opCode: OpCode, isLastFrame: bool,
                       ghost frames: nat, ghost e: Env, ghost expected: Session)
      requires socket != null && SocketOk() && e == Environment()
      requires start <= payload.Length == |data| && size == Min(|data| - start, outgoingFrameSize) <= MAX_PAYLOAD_LENGTH
      requires payload[start..] == data[start..] && frames >= 1 && isLastFrame == (frames == 1)
      requires Unsent(e, opCode, data[start..], frames, expected)
      modifies this`drawn, this`out, socket`tx, payload
      ensures SocketOk() && Environment() == e && payload[start + size..] == data[start + size..]
      ensures Unsent(e, OP_CONTINUE, data[start + size..], frames - 1, expected)
    {
      ghost var x := Current();
      assert payload[start..][..size] == payload[start..start + size] && data[start..][..size] == data[start..start + size];
      assert payload[start..][size..] == payload[start + size..] && data[start..][size..] == data[start + size..];
      WriteSegment(payload, start, size, opCode, isLastFrame);
      assert Current() == Write(e, x, isLastFrame, opCode, data[start..start + size]);
      SegmentStep(e, x, opCode, data, start, size);
    }

    /** How many frames the data takes; a message without bytes takes one as well. */
    method CountFrames(size: nat) returns (numFrames: nat)
      requires outgoingFrameSize > 0
      ensures numFrames == FrameCount(size, outgoingFrameSize) == Pieces(size, outgoingFrameSize)
    {
      numFrames := size / outgoingFrameSize;
      var sizeLeft := size % outgoingFrameSize;
      if sizeLeft != 0 {
        numFrames := numFrames + 1;
      }
      if numFrames == 0 {
        numFrames := 1;
      }
      PiecesCounted(size, outgoingFrameSize);
      EmptyOnlyWithoutBytes(size, outgoingFrameSize);
    }

    /** One frame: the segment of the buffer is masked in place with the frame's own key, from its first byte on. */
    method WriteSegment(payload: array<byte>, start: nat, size: nat, opCode: OpCode, isLastFrame: bool)
      requires socket != null && SocketOk() && start + size <= payload.Length && size <= MAX_PAYLOAD_LENGTH
      modifies this`drawn, this`out, socket`tx, payload
      ensures SocketOk() && Wrote(isLastFrame, opCode, old(payload[start..start + size]))
      ensures payload[start + size..] == old(payload[start + size..])
    {
      ghost var segment := payload[start..start + size];
      var maskingKey := DrawKey();
      var header := GetFrameHeader(opCode, size, maskingKey, isLastFrame);
      MaskZero(segment);
      if size > 0 && mustMask {
        MaskInPlace(payload, start, size, maskingKey);
      }
      WritePieces(header, payload[start..start + size], Frame(isLastFrame, opCode, maskingKey, segment));
    }

    // ----- incoming data -----

    /** The slots that the signals are connected to. */
    method HandleSignal(ev: Event)
      requires socket != null && SocketOk() && (ev.PingReceived? ==> |ev.data| <= MAX_PAYLOAD_LENGTH)
      modifies this`drawn, this`out, this`isClosingHandshakeSent, this`isClosingHandshakeReceived
      modifies this`closeCode, this`closeReason, this`state, socket
      ensures SocketOk() && Current() == React(old(Environment()), old(Current()), ev)
      ensures Accepting() ==> socket.rx == old(socket.rx)
      ensures state == old(state) || (old(state) == ConnectedState && state == ClosingState)
    {
      match ev
      case PingReceived(data) => ProcessPing(data);
      case CloseReceived(code, reason) => ProcessClose(code, reason);
      case ErrorEncountered(code, reason) => CloseWith(code, reason);
      case _ =>
    }

    method HandleSignals(start: nat)
      requires socket != null && SocketOk() && start <= |processor.signals|
      requires forall i :: start <= i < |processor.signals| && processor.signals[i].PingReceived? ==>
                 |processor.signals[i].data| <= MAX_PAYLOAD_LENGTH
      modifies this`drawn, this`out, this`isClosingHandshakeSent, this`isClosingHandshakeReceived
      modifies this`closeCode, this`closeReason, this`state, socket
      ensures SocketOk() && Current() == ReactAll(old(Environment()), old(Current()), processor.signals[start..])
      ensures Accepting() ==> socket.rx == old(socket.rx)
      ensures state == old(state) || (old(state) == ConnectedState && state == ClosingState)
    {
      ghost var e, expected := Environment(), ReactAll(Environment(), Current(), processor.signals[start..]);
      var i := start;
      while i < |processor.signals|
        invariant start <= i <= |processor.signals| && SocketOk() && Environment() == e
        invariant ReactAll(e, Current(), processor.signals[i..]) == expected
        invariant Accepting() ==> socket.rx == old(socket.rx)
        invariant state == old(state) || (old(state) == ConnectedState && state == ClosingState)
      {
        HandleNext(i, e, expected);
        i := i + 1;
      }
    }

    /** The signals that remain will bring the session to where it is expected. */
    method HandleNext(i: nat, ghost e: Env, ghost expected: Session)
      requires socket != null && SocketOk() && i < |processor.signals| && Environment() == e
      requires processor.signals[i].PingReceived? ==> |processor.signals[i].data| <= MAX_PAYLOAD_LENGTH
      requires ReactAll(e, Current(), processor.signals[i..]) == expected
      modifies this`drawn, this`out, this`isClosingHandshakeSent, this`isClosingHandshakeReceived
      modifies this`closeCode, this`closeReason, this`state, socket
      ensures SocketOk() && Environment() == e && ReactAll(e, Current(), processor.signals[i + 1..]) == expected
      ensures socket.isOpen ==> old(socket.isOpen)
      ensures Accepting() ==> socket.rx == old(socket.rx)
      ensures state == old(state) || (old(state) == ConnectedState && state == ClosingState)
    {
      ghost var x, events := Current(), processor.signals[i..];
      ReactFirst(e, x, events);
      assert events[1..] == processor.signals[i + 1..];
      HandleSignal(processor.signals[i]);
      assert Current() == React(e, x, events[0]);
    }

    /** Every call of the processor, with the reactions to its signals, until it waits or nothing is left. */
    method DrainSocket()
      requires Valid() && socket != null
      modifies this`drawn, this`out, this`isClosingHandshakeSent, this`isClosingHandshakeReceived
      modifies this`closeCode, this`closeReason, this`state, socket, processor, processor.frame
      ensures Valid() && Environment() == old(Environment())
      ensures Connection() == Pump(old(Environment()), old(Connection()))
      ensures state == old(state) || (old(state) == ConnectedState && state == ClosingState)
    {
      ghost var e, expected := Environment(), Pump(Environment(), Connection());
      var done := true;
      PumpNothing(e, Connection());
      while done && socket.rx != []
        invariant Valid() && Environment() == e
        invariant if done && socket.rx != [] then Pump(e, Connection()) == expected else Connection() == expected
        invariant state == old(state) || (old(state) == ConnectedState && state == ClosingState)
        decreases done, Weight(processor.frame.State(), socket.rx)
      {
        done := OneCall();
        PumpNothing(e, Connection());
      }
    }

    /** One call of the processor on unread bytes, and the reactions to its signals. */
    method OneCall() returns (done: bool)
      requires Valid() && socket != null && socket.rx != []
      modifies this`drawn, this`out, this`isClosingHandshakeSent, this`isClosingHandshakeReceived
      modifies this`closeCode, this`closeReason, this`state, socket, processor, processor.frame
      ensures Valid() && Environment() == old(Environment())
      ensures done ==> Pump(Environment(), Connection()) == old(Pump(Environment(), Connection()))
      ensures done ==> Weight(processor.frame.State(), socket.rx) < old(Weight(processor.frame.State(), socket.rx))
      ensures !done ==> Connection() == old(Pump(Environment(), Connection()))
      ensures state == old(state) || (old(state) == ConnectedState && state == ClosingState)
    {
      ghost var e, c := Environment(), Connection();
      var seen := |processor.signals|;
      CallFacts(e, c);
      done := processor.Process(socket);
      ghost var call := Outcome(processor.frame.State(), processor.Model(), socket.rx, done);
      HandleSignals(seen);
      PumpAfterCall(e, c, call, Connection());
    }

    /** The waiting time for the rest of a frame is over. */
    method OnTimeout()
      requires Valid() && socket != null
      modifies this`drawn, this`out, this`isClosingHandshakeSent, this`isClosingHandshakeReceived
      modifies this`closeCode, this`closeReason, this`state, socket, processor, processor.frame
      ensures Valid() && Connection() == Perform(old(Environment()), old(Connection()), Timeout)
    {
      ghost var x := Current();
      var seen := |processor.signals|;
      processor.Timeout();
      assert processor.signals[seen..] == [processor.signals[seen]];
      HandleSignals(seen);
    }

    // ----- the opening handshake -----

    /** Takes the response header from the socket, if it is complete. */
    method ProcessHandshake()
      requires Valid() && socket != null && socket.isOpen && state == ConnectingState
      modifies this`state, this`bytesToSkipBeforeNewResponse, this`uses, this`requests, socket`rx
      ensures Valid() && AsClient() == OnResponse(http, old(AsClient()))
    {
      match HeaderLength(socket.rx, 0)
      case None =>
      case Some(headerSize) =>
        var headers := socket.Read(headerSize);
        uses := uses + [Header(headers)];
        HandleReply(http(headers));
    }

    method HandleReply(reply: Reply)
      requires Valid() && socket != null && socket.isOpen && state == ConnectingState
      modifies this`state, this`bytesToSkipBeforeNewResponse, this`uses, this`requests, socket`rx
      ensures Valid() && AsClient() == OnReply(old(AsClient()), reply)
    {
      match reply
      case Upgraded => state := ConnectedState;
      case Unauthorized(contentLength) =>
        requests := requests + 1;
        bytesToSkipBeforeNewResponse := contentLength;
      case Malformed =>
      case _ =>
        uses := uses + [Abandoned(socket.rx)];
        socket.DisconnectFromHost();
        state := Unconnected;
    }

    /** While connecting: the rest of a body, then a header. */
    method ProcessConnecting()
      requires Valid() && socket != null && socket.isOpen && state == ConnectingState
      modifies this`state, this`bytesToSkipBeforeNewResponse, this`uses, this`requests, socket`rx
      ensures Valid() && AsClient() == WhileConnecting(http, old(AsClient()))
    {
      if bytesToSkipBeforeNewResponse > 0 {
        var skipped := socket.Read(bytesToSkipBeforeNewResponse);
        uses := uses + [Skipped(skipped)];
        bytesToSkipBeforeNewResponse := bytesToSkipBeforeNewResponse - |skipped|;
      }
      if bytesToSkipBeforeNewResponse > 0 || LF !in socket.rx {
        return;
      }
      ProcessHandshake();
    }

    /** Bytes have arrived. */
    method ProcessData()
      requires Valid() && (socket != null && state == ConnectingState ==> socket.isOpen)
      modifies this`drawn, this`out, this`isClosingHandshakeSent, this`isClosingHandshakeReceived
      modifies this`closeCode, this`closeReason, this`state, this`bytesToSkipBeforeNewResponse, this`uses, this`requests
      modifies if socket != null then {socket} else {}
      modifies processor, processor.frame
      ensures if socket == null then unchanged(this) && unchanged(processor) && unchanged(processor.frame) else
        Valid() && AsClient() == Handshake.ProcessData(old(Environment()), http, old(AsClient()))
    {
      if socket == null {
        return;
      }
      ProcessAvailable();
    }

    method ProcessAvailable()
      requires Valid() && socket != null && (state == ConnectingState ==> socket.isOpen)
      modifies this`drawn, this`out, this`isClosingHandshakeSent, this`isClosingHandshakeReceived
      modifies this`closeCode, this`closeReason, this`state, this`bytesToSkipBeforeNewResponse, this`uses, this`requests
      modifies socket, processor, processor.frame
      ensures Valid() && AsClient() == Handshake.ProcessData(old(Environment()), http, old(AsClient()))
    {
      if state == ConnectingState {
        ProcessConnecting();
      }
      if state != ConnectingState {
        DrainSocket();
      }
    }
  }

  lemma {:induction false} ReactFirst(e: Env, x: Session, events: seq<Event>)
    requires events != []
    ensures ReactAll(e, x, events) == ReactAll(e, React(e, x, events[0]), events[1..])
  {
  }

  function CallOf(e: Env, c: Conn): Outcome<Processor> {
    Feed(Assembling(e.config), e.config.maxFrame, c.frame, c.session.processor, c.rx)
  }

  lemma {:induction false} CallFacts(e: Env, c: Conn)
    requires Sound(c.frame)
    ensures var p, q := c.session.processor, CallOf(e, c).state;
      && p.log <= q.log
      && forall i :: |p.log| <= i < |q.log| && q.log[i].PingReceived? ==> |q.log[i].data| <= MAX_PAYLOAD_LENGTH
    ensures CallOf(e, c).halted ==> Weight(CallOf(e, c).frame, CallOf(e, c).rest) < Weight(c.frame, c.rx)
  {
    FeedPreserves(Assembling(e.config), (q: Processor) => c.session.processor.log <= q.log,
                  e.config.maxFrame, c.frame, c.session.processor, c.rx);
    PingsFit(e, c.frame, c.session.processor, c.rx);
    FeedDescends(Assembling(e.config), e.config.maxFrame, c.frame, c.session.processor, c.rx);
  }

  /** Where a call and the reactions to it leave the connection, the pump would have come by or ended. */
  lemma {:induction false} PumpAfterCall(e: Env, c: Conn, call: Outcome<Processor>, d: Conn)
    requires call == CallOf(e, c) && !Dead(e, c.session) && c.session.processor.log <= call.state.log
    requires d.session == Reacted(e, c.session, call.state) && d.frame == call.frame
    requires d.rx == if Dead(e, d.session) then [] else call.rest
    ensures if call.halted then Pump(e, d) == Pump(e, c) else d == Pump(e, c)
  {
    CallThenReact(e, c.frame, c.session, c.rx);
    PumpHalts(e, c);
    if call.halted {
      HaltedAtHeader(e, c);
    }
  }

  lemma {:induction false} HaltedAtHeader(e: Env, c: Conn)
    ensures CallOf(e, c).halted ==> CallOf(e, c).frame == AtHeader
  {
    HaltsAtHeader(Assembling(e.config), e.config.maxFrame, c.frame, c.session.processor, c.rx);
  }

  lemma {:induction false} HaltsAtHeader<A>(h: Consumer<A>, limit: nat, s: FrameState, a: A, buf: seq<byte>)
    ensures Feed(h, limit, s, a, buf).halted ==> Feed(h, limit, s, a, buf).frame == AtHeader
    decreases Weight(s, buf)
  {
    if buf != [] && Run(s, buf, limit).0.Done() {
      var (t, rest) := Run(s, buf, limit);
      FinishingDescends(s, buf, limit);
      HaltsAtHeader(h, limit, AtHeader, h(a, t).0, rest);
    }
  }

  lemma {:induction false} EncodedAs(f: Frame, header: seq<byte>, masked: seq<byte>)
    requires header == HeaderBytes(f.fin, f.opCode, f.key != 0, f.key, |f.payload|) && masked == Mask(f.payload, f.key)
    ensures header + masked == Encode(f)
  {
  }

  lemma {:induction false} AppendedTo(sent: seq<byte>, header: seq<byte>, masked: seq<byte>)
    ensures sent + header + masked == sent + (header + masked)
  {
  }

  /** Header and masked payload are the bytes of the frame. */
  lemma {:induction false} Written(out: seq<Frame>, f: Frame, header: seq<byte>, masked: seq<byte>)
    requires header == HeaderBytes(f.fin, f.opCode, f.key != 0, f.key, |f.payload|) && masked == Mask(f.payload, f.key)
    ensures EncodeAll(out) + header + masked == EncodeAll(out + [f])
  {
    EncodedAs(f, header, masked);
    AppendedTo(EncodeAll(out), header, masked);
    EncodeAllConcat(out, [f]);
    EncodeAllOne(f);
  }

  lemma {:induction false} SegmentStep(e: Env, x: Session, opCode: OpCode, data: seq<byte>, start: nat, size: nat)
    requires e.frameSize > 0 && start <= |data| && size == Min(|data| - start, e.frameSize)
    ensures var segment := data[start..start + size];
      WriteMessage(e, x, opCode, data[start..])
      == if |data| - start <= e.frameSize then Write(e, x, true, opCode, segment)
         else WriteMessage(e, Write(e, x, false, opCode, segment), OP_CONTINUE, data[start + size..])
  {
    var rest := data[start..];
    assert rest[..size] == data[start..start + size] && rest[size..] == data[start + size..];
    if |rest| <= e.frameSize {
      assert rest[..size] == rest;
    }
  }

  /** Without bytes there are no full frames; with bytes there is at least one frame. */
  lemma {:induction false} EmptyOnlyWithoutBytes(n: nat, size: nat)
    requires size > 0
    ensures n / size == 0 && n % size == 0 <==> n == 0
  {
    assert n == n / size * size + n % size;
  }

  /** Every ping that is signalled came in a control frame. */
  lemma {:induction false} PingsFit(e: Env, s: FrameState, p: Processor, buf: seq<byte>)
    requires Sound(s)
    ensures var q := Feed(Assembling(e.config), e.config.maxFrame, s, p, buf).state;
      forall i :: |p.log| <= i < |q.log| && q.log[i].PingReceived? ==> |q.log[i].data| <= MAX_PAYLOAD_LENGTH
  {
    var h := Assembling(e.config);
    var inv := (q: Processor) =>
      forall i :: |p.log| <= i < |q.log| && q.log[i].PingReceived? ==> |q.log[i].data| <= MAX_PAYLOAD_LENGTH;
    FeedPreserves(h, inv, e.config.maxFrame, s, p, buf);
  }
}
