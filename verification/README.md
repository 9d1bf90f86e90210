# A verified model of the Qt WebSockets data path

The Dafny files model the part of Qt WebSockets that turns messages into bytes and bytes into messages: the frame
writer, the incremental frame reader, the assembler of fragmented messages, the endpoint that answers pings, errors
and Close frames, the client's side of the opening handshake as far as it decides which bytes are for whom, and the
negotiation of a subprotocol. The protocol is RFC 6455.

| file | models |
|---|---|
| `Bytes.dfy`, `Protocol.dfy` | bytes, big-endian numbers, masking; opcodes, close codes, the in-place masking loop |
| `Frames.dfy`, `Samples.dfy` | the layout of a frame, section 5.2 of RFC 6455, and the examples of its section 5.7 |
| `Reader.dfy`, `FrameReader.dfy` | the resumable frame reader: the machine and its theorems; the socket and the class `QWebSocketFrame` |
| `Feeder.dfy` | any consumer of frames driven by a byte stream |
| `Assembler.dfy`, `Messages.dfy`, `DataProcessor.dfy` | what a frame does to the message under way; theorems about it; the class `QWebSocketDataProcessor` |
| `Endpoint.dfy`, `Safety.dfy` | answers and user operations; invariants over every run |
| `Reactions.dfy`, `Closing.dfy` | which bytes make an endpoint close, and with which code; the closing handshake |
| `Delivery.dfy`, `Duplex.dfy` | splitting messages; two endpoints that send to each other |
| `Handshake.dfy`, `Responses.dfy` | byte accounting of the client's handshake: for every run; for whole handshakes, and opening again |
| `Subprotocols.dfy` | subprotocol negotiation |
| `WebSocket.dfy` | the class `QWebSocketPrivate` |

The classes keep the fields of the C++ classes and work in the same steps. Each method is proved equal to a function of
the old state (`Run`, `Feed`, `OnFrame`, `Write`, `Close`, `Pump`, ...), and the promises are proved about these
functions. An embedding makes the pieces fit: `Feeder` knows a consumer only as a function from its state and a
finished frame to its next state, so segmentation independence is proved once and holds for the processor alone and
for the endpoint with all its answers.

What is taken as given:

- A read returns everything that was asked for when enough has arrived, and an open socket accepts every write whole.
  A closed socket is modelled in two ways, and every theorem holds for both: one that neither delivers nor accepts
  anything more (`deaf`), and one that goes on, so that the flag alone has to prevent a second Close frame.
- Text conversion and translated descriptions belong to the surrounding library. They are the functions of `TextLib`:
  a decoder that may fail, conversions to and from UTF-8, and one text for each place that reports an error. What a
  theorem needs of them is in its `requires`: a decoder that never lengthens, or a round trip of the one reason at hand.
- Parsing a response header and checking its fields are one function from the header bytes to a `Reply`. The value of a
  request header reaches the server's code without white space at its ends, as the HTTP parser hands it on.
- Masking keys come from an arbitrary sequence; every 32-bit value may occur, 0 included.
- Slots do not call back into the processor or the socket, so handling the signals of one call of the processor after
  that call is the same as handling them at once; `Endpoint.CallThenReact` proves that it is also the same as handling
  them frame by frame.
- Limits are fixed while bytes are being handled. They may change between two arrivals where a theorem says so.

Where the code does not do what its documentation suggests, the model follows the code and a lemma says exactly when
the promise holds:

- A text message is cut at byte positions and decoded frame by frame. It gets through exactly when every frame decodes
  by itself (`Delivery.TextDelivery`); `Delivery.SplitCharacterLost` is a message that does not.
- A close reason is cut to 123 bytes, possibly inside a character. Then the peer records 1007 in place of the code
  (`Closing.CloseRecorded`); 62 two-byte characters are such a reason (`Closing.SplitReasonMisheard`).
- A list of subprotocols that begins or ends with an empty name, which counts as valid, loses it on the way
  (`Subprotocols.SplitOfJoined`).
- Opening again does not forget that a response body was being skipped. The header of the next 101 is recognised exactly
  when nothing was left to skip (`Responses.FirstResponseSeen`); a 401 and an opening that comes before the end of its
  body leave the client waiting (`Responses.ReopenedTooEarly`).
- The reader accepts a mask bit with an all-zero key, which the writer never produces; that is the only frame it
  accepts in a second encoding (`Reader.ReencodingReproduces`).

Every lemma carries `{:induction false}`: the inductions are written out.

## Model

| member | source | states |
|---|---|---|
| Protocol.MaskInPlace | src/websockets/qwebsocketprotocol.cpp:169-180 | byte i of the range is combined with key byte i mod 4 and nothing outside the range changes |
| Bytes.MaskBits | src/websockets/qwebsocketprotocol.cpp:169-180 | bit by bit: every masked bit is the exclusive or of the data's bit and the key's, key byte i mod 4 counted from the most significant |
| Protocol.CloseCodeTable | src/websockets/qwebsocketprotocol_p.h:54-61 | exactly the codes that section 7.4 of RFC 6455 allows in a Close frame |
| Protocol.OpCodeTable | src/websockets/qwebsocketprotocol_p.h:49-52 | exactly the opcodes in use are not reserved; bit 3 tells control frames |
| Frames.HeaderLayout | src/websockets/qwebsocket_p.cpp:800-841 | place and weight of FIN, opcode, mask bit, length field, longer length and key |
| Frames.LengthLayout | src/websockets/qwebsocket_p.cpp:815-834 | the three length forms with their ranges, highest byte first, highest bit 0 |
| Samples.SampleFrames | src/websockets/qwebsocket_p.cpp:800-841 | the frames of section 5.7 of RFC 6455 that are not masked, byte by byte |
| Samples.SampleMaskedFrames | src/websockets/qwebsocket_p.cpp:800-841 | the masked frames of that section, byte by byte |
| Bytes.MaskInvolutive | src/websockets/qwebsocketprotocol.cpp:157-161 | masking twice with one key is the identity, for every key |
| Reader.RunSplit | src/websockets/qwebsocketframe.cpp:174-218 | resuming with the bytes left over gives what one call on all bytes gives, from every stage |
| Reader.RunProgress | src/websockets/qwebsocketframe.cpp:174-218 | what stays unread is a suffix; the reader stops only when done or with fewer bytes than the field needs, so a waiting reader needs at least one more |
| Reader.RunSound | src/websockets/qwebsocketframe.cpp:380-400 | whatever stage it resumes at, a finished frame has no reserved opcode, a control frame is final and at most 125 bytes, a refused one has a reason |
| Reader.FrameRoundTrip | src/websockets/qwebsocketframe.cpp:223-364 | every legal frame in the layout of section 5.2, with every key or none, is read back with the same fields and payload, and exactly its bytes are used |
| Reader.PartWaits | src/websockets/qwebsocketframe.cpp:174-218 | a legal frame that is cut anywhere is neither finished nor refused |
| Reader.HeaderRefused | src/websockets/qwebsocketframe.cpp:380-400 | exactly which first two bytes are refused |
| Reader.LengthRefused | src/websockets/qwebsocketframe.cpp:264-319 | exactly which longer lengths are refused |
| Reader.OversizedRefused | src/websockets/qwebsocketframe.cpp:341-350 | a payload over the limit is refused once its header has arrived, and none of it is taken |
| Reader.CanonicalAcceptance | src/websockets/qwebsocketframe.cpp:264-319 | conversely, an accepted byte string is a legal frame in the shortest length form followed by what was left unread |
| Reader.ReencodingReproduces | src/websockets/qwebsocket_p.cpp:800-841 | writing the accepted frame again gives the same bytes if and only if the mask bit did not come with key 0 |
| FrameReader.WebSocketFrame.ReadFrame | src/websockets/qwebsocketframe.cpp:174-218 | fields and unread bytes after the call are those of the machine run on all available bytes; ends by falling stage rank; the unreachable default is unreachable |
| FrameReader.WebSocketFrame.ReadFrameHeader | src/websockets/qwebsocketframe.cpp:223-259 | waits without a change below 2 bytes, else takes exactly 2 and enters the stage of the machine |
| FrameReader.WebSocketFrame.ReadLength16 | src/websockets/qwebsocketframe.cpp:271-289 | the same for the 16-bit length, refusing values below 126 |
| FrameReader.WebSocketFrame.ReadLength64 | src/websockets/qwebsocketframe.cpp:290-312 | the same for the 64-bit length, refusing the high bit and values below 65536; the 1006 site is unreachable |
| FrameReader.WebSocketFrame.ReadFrameMask | src/websockets/qwebsocketframe.cpp:324-336 | the same for the key |
| FrameReader.WebSocketFrame.ReadFramePayload | src/websockets/qwebsocketframe.cpp:341-364 | the same for the payload, unmasked in place; too long is refused before any byte is taken; the 1006 site is unreachable |
| FrameReader.WebSocketFrame.CheckValidity | src/websockets/qwebsocketframe.cpp:380-400 | the first rule that the header breaks becomes the reason with code 1002, otherwise the fields stay and the frame is valid |
| FrameReader.WebSocketFrame.Clear | src/websockets/qwebsocketframe.cpp:139-153 | every field as before the first frame, the limit kept, so the reader is at a header again |
| FrameReader.WebSocketFrame.SetMaxAllowedFrameSize | src/websockets/qwebsocketframe.cpp:32-36 | takes effect exactly up to the maximum; the stage stays |
| Feeder.FeedSplit | src/websockets/qwebsocket_p.cpp:1318-1323 | for every consumer of frames: bytes in two pieces have the effect of the whole |
| Feeder.FeedDescends | src/websockets/qwebsocketdataprocessor.cpp:137-225 | a call that gives control back has used up a byte unless a lowered limit ended the frame under way; repeated calls end |
| Feeder.FeedExhausts | src/websockets/qwebsocketdataprocessor.cpp:142-148 | a call that reports waiting leaves fewer bytes than the field needs |
| Feeder.FeedFrames | src/websockets/qwebsocketdataprocessor.cpp:141-223 | the bytes of legal frames have exactly the effect of these frames |
| Messages.StreamSafety | src/websockets/qwebsocketdataprocessor.cpp:137-225 | for every byte stream: the buffer invariant is kept, messages are the concatenation of their signalled fragments and within the limit, codes are valid |
| Messages.TimeoutKeeps | src/websockets/qwebsocketdataprocessor.cpp:321-326 | the timeout keeps the invariant and reports a valid code |
| Messages.FragmentationGrammar | src/websockets/qwebsocketdataprocessor.cpp:154-215 | against an index-based definition of faults and messages: before the first fault the messages are the expected ones and there is no error; the first fault (sequence, running size, text) is answered at exactly that frame with exactly its error |
| Messages.GrammarOnTheWire | src/websockets/qwebsocketdataprocessor.cpp:137-225 | the bytes of legal frames with control frames anywhere, Close included: as long as the data frames have no fault, exactly the expected messages, assembly and no error |
| Messages.FaultOnTheWire | src/websockets/qwebsocketdataprocessor.cpp:154-215 | the first data frame with a fault, whatever control frames came before, is answered at once with exactly its error |
| Messages.ControlErasure | src/websockets/qwebsocketdataprocessor.cpp:248-258 | removing all pings and pongs, also between fragments, changes neither the assembly nor any other event |
| Messages.ErasureOnTheWire | src/websockets/qwebsocketdataprocessor.cpp:150-151 | two byte streams of legal frames that differ only in pings and pongs give the same other events and the same final state |
| Safety.EveryRun | src/websockets/qwebsocketdataprocessor.cpp:230-243 | the processor invariant over every sequence of arrivals, each with its own limits, and timeouts; messages stay within the limit in force |
| Safety.CloseCodesLegal | src/websockets/qwebsocketdataprocessor.cpp:260-290 | over every run of an endpoint, whatever codes the user closes with, every code handed on for closing is valid, and the code of the Close frame is valid or one of the user's |
| Safety.OwnKeys | src/websockets/qwebsocket_p.cpp:871-874 | over every run each frame on a socket has the next key of the generator, whatever caused it, or none if the endpoint does not mask |
| Safety.ReopenedFresh | src/websockets/qwebsocket_p.cpp:440-449 | after opening again nothing of the old connection is left but log, record and place in the key sequence |
| Safety.PingWritten | src/websockets/qwebsocket_p.cpp:548-563 | the first 125 bytes, with the next key, and nothing else changes |
| Reactions.EventCloses | src/websockets/qwebsocket_p.cpp:701-708 | a finished frame that raises an error or is a Close closes an open session with that code: one Close frame with the code and 123 bytes of the reason; an error is 1002, 1007 or 1009 and clears the assembly |
| Reactions.ClosesAtFirst | src/websockets/qwebsocket_p.cpp:1318-1323 | for all bytes, from any stage of a frame: an open endpoint closes if and only if they lead to an error or a Close event, for the first of them, and writes only pongs otherwise |
| Reactions.TimeoutCloses | src/websockets/qwebsocketdataprocessor.cpp:321-326 | the timeout closes with 1001, writes one Close frame with it and clears reader and assembly |
| Reactions.RefusedCloses | src/websockets/qwebsocketframe.cpp:380-400 | bytes that the reader refuses, at any stage, close with 1009 for too large a frame and 1002 otherwise |
| Reactions.OversizedCloses | src/websockets/qwebsocketframe.cpp:346-350 | the header of a frame over the limit closes with 1009 before its payload arrives |
| Reactions.FaultCloses | src/websockets/qwebsocketdataprocessor.cpp:154-190 | the first faulty data frame, with pings and pongs anywhere before, closes with the code of its fault |
| Reactions.CloseTaken | src/websockets/qwebsocketdataprocessor.cpp:260-290 | what every Close payload is taken for and answered with: none 1000, one byte 1002, an invalid code 1002, an undecodable reason 1007, else itself |
| Reactions.EmptyCloseAnswered | src/websockets/qwebsocketdataprocessor.cpp:262-263 | a Close frame without a code is answered by the bytes of 1000 |
| DataProcessor.WebSocketDataProcessor.Process | src/websockets/qwebsocketdataprocessor.cpp:137-225 | fields, signals, unread bytes and result of a call are those of one run of the specified consumer |
| DataProcessor.WebSocketDataProcessor.ProcessDataFrame | src/websockets/qwebsocketdataprocessor.cpp:153-216 | one data frame: the two sequence errors, opening, size, text, fragment and message signals in order |
| DataProcessor.WebSocketDataProcessor.AppendPayload | src/websockets/qwebsocketdataprocessor.cpp:173-215 | the size rule before the text rule, then fragment and message; a violation leaves no buffer behind |
| DataProcessor.WebSocketDataProcessor.ProcessControlFrame | src/websockets/qwebsocketdataprocessor.cpp:248-316 | exactly one signal for ping, pong and close, with code and reason of the close payload; other opcodes do not get here |
| DataProcessor.WebSocketDataProcessor.Timeout | src/websockets/qwebsocketdataprocessor.cpp:321-326 | clears everything and reports 1001 |
| Endpoint.Segmentation | src/websockets/qwebsocket_p.cpp:1306-1324 | any two cuts of the same bytes leave the endpoint in the same state: reader, messages, signals, frames written, flags |
| Endpoint.CallThenReact | src/websockets/qwebsocket_p.cpp:1318-1323 | calling the processor and then handling its signals is the same as reacting frame by frame |
| WebSocketConnection.WebSocket.HandleSignals | src/websockets/qwebsocket_p.cpp:701-708 | every new signal reaches its slot, in order |
| WebSocketConnection.WebSocket.OnTimeout | src/websockets/qwebsocketdataprocessor.cpp:321-326 | the timeout's error reaches the close slot: the connection is as after the action of that name, for every frame size |
| Endpoint.AtMostOneClose | src/websockets/qwebsocket_p.cpp:389-422 | over every interleaving of arrivals, sends, pings, closes, timeouts and reopenings: at most one Close frame on a socket, at most 125 bytes, with the recorded code and reason, which stay until reopened; only pings and pongs follow it, and nothing on a socket that is deaf once closed |
| Delivery.SplitConserves | src/websockets/qwebsocket_p.cpp:855-903 | max(1, ceil(n / size)) frames, only the last final, only the first not a continuation, all but the last full, each with the next key, payloads together the data |
| Delivery.MessageDelivered | src/websockets/qwebsocketdataprocessor.cpp:184-215 | the frames of a message that fits lead to one signal for each frame, with its payload and last flag, then the whole message once, and nothing else |
| Delivery.EachDecodes | src/websockets/qwebsocketdataprocessor.cpp:184-190 | decoding piece by piece succeeds if and only if every frame of the message decodes |
| Delivery.TextDelivery | src/websockets/qwebsocketdataprocessor.cpp:184-196 | a text message is delivered if and only if each of its frames decodes by itself |
| Delivery.SplitCharacterLost | src/websockets/qwebsocket_p.cpp:878-880 | a message of one two-byte character is lost in frames of one byte and delivered in one frame |
| Duplex.EndToEnd | src/websockets/qwebsocket_p.cpp:846-910 | two endpoints, every interleaving of binary and text messages, pings and deliveries of any size: messages delivered are always a prefix of those sent and all of them once all bytes arrived; pongs are a prefix of the pings' first 125 bytes in order and complete once both streams are; no error, nobody closes |
| Duplex.AnswersKept | src/websockets/qwebsocket_p.cpp:1329-1345 | a received ping is answered by one legal pong with its payload, anything else by nothing, unless the connection closes |
| Closing.CloseRecorded | src/websockets/qwebsocketdataprocessor.cpp:260-290 | with anything under way in both directions, for every code and reason and every cut of the bytes: the peer has all messages and pings sent before the close; the code it records; and that this is the same if and only if the code is valid and the cut reason decodes |
| Closing.SplitReasonMisheard | src/websockets/qwebsocket_p.cpp:396-399 | 62 two-byte characters are cut inside the last one, and the peer records 1007 |
| Closing.ShorterReasonHeard | src/websockets/qwebsocket_p.cpp:396-399 | with one character less the peer records the code and the reason as they are |
| Closing.EchoIgnored | src/websockets/qwebsocket_p.cpp:389-422 | a Close frame that comes to any endpoint that has closed changes nothing but the note that one was received |
| Closing.CloseAgreement | src/websockets/qwebsocket_p.cpp:1359-1363 | with anything under way in both directions and every cut of the bytes: the peer has everything sent before, records the same code and reason, and its last frame echoes the payload; the initiator keeps its record, writes nothing but pongs, gets all messages of the peer if its socket still delivers, and the echo changes nothing it sent or recorded |
| Closing.CloseAfterRun | src/websockets/qwebsocket_p.cpp:389-422 | the same at the end of every run of two endpoints |
| Handshake.ConnectingAccounts | src/websockets/qwebsocket_p.cpp:1310-1316 | for every buffer: headers, skipped and abandoned bytes and unread bytes are together exactly the bytes received, in order |
| Handshake.ReceiveAccounts | src/websockets/qwebsocket_p.cpp:1306-1324 | the same across an arrival; after an upgrade the rest of the bytes goes to the frame reader |
| Handshake.EveryByteOnce | src/websockets/qwebsocket_p.cpp:1306-1324 | over every run, for every cut and every server: the bytes used as headers, skipped or abandoned are the first of all bytes received, each once and in order; the rest is unread while connecting, and all of it, in order, is what the frame reader gets once connected |
| Responses.HandshakeAccounting | src/websockets/qwebsocket_p.cpp:992-1010 | any number of 401 and senseless responses, then a 101 or a refusal, in any cut in which each response starts after the previous header was handled: used are exactly the bytes before the data, skipped exactly the bodies, every header is recognised, each 401 leads to one request more; after a 101 the frame reader gets exactly the data, after a refusal the client disconnects and the session is untouched |
| Responses.PhaseTold | src/websockets/qwebsocket_p.cpp:1155-1177 | over every run, for every cut: connected if and only if a recognised header was answered Upgraded, disconnecting if and only if one was refused; that header is the last |
| Responses.MalformedUsed | src/websockets/qwebsocket_p.cpp:1022-1032 | a header that makes no sense is used up and changes nothing else |
| Responses.FirstResponseSeen | src/websockets/qwebsocket_p.cpp:1311-1312 | from any state, after opening again, with the header of a 101 in any chunks: it is recognised if and only if nothing was left to skip, and then the connection is established |
| Responses.ReopenedTooEarly | src/websockets/qwebsocket_p.cpp:1142-1146 | a concrete run: a 401 that announces 100 bytes, two of them, opening again, a 101; its header is skipped as a part of the old body and the client goes on waiting |
| WebSocketConnection.WebSocket.GetFrameHeader | src/websockets/qwebsocket_p.cpp:800-841 | the header of section 5.2 for every opcode, length, key and FIN; nothing above 2^63 - 1 |
| WebSocketConnection.WebSocket.DoWriteFrames | src/websockets/qwebsocket_p.cpp:846-910 | nothing unless connected; else the socket gets exactly the fragments of the message, masked in place segment by segment, and the result is the number of payload bytes |
| WebSocketConnection.WebSocket.WriteSegment | src/websockets/qwebsocket_p.cpp:878-902 | one frame with its own key; the rest of the buffer is not touched |
| WebSocketConnection.WebSocket.Ping | src/websockets/qwebsocket_p.cpp:548-563 | one ping frame with at most 125 bytes |
| WebSocketConnection.WebSocket.ProcessPing | src/websockets/qwebsocket_p.cpp:1329-1345 | one pong frame with the payload of the ping |
| WebSocketConnection.WebSocket.CloseWith | src/websockets/qwebsocket_p.cpp:389-422 | a Close frame and the record only the first time; the socket is closed every time |
| WebSocketConnection.WebSocket.ProcessClose | src/websockets/qwebsocket_p.cpp:1359-1363 | notes the received Close frame and closes with its code and reason |
| WebSocketConnection.WebSocket.Open | src/websockets/qwebsocket_p.cpp:440-471 | an address that is not valid changes nothing; else the old socket is given up and processor and flags start anew; only a reachable target gives a new socket, with the connection as after the specified opening; the count of bytes to skip and the recorded code stay |
| WebSocketConnection.WebSocket.ProcessHandshake | src/websockets/qwebsocket_p.cpp:986-1016 | takes exactly one complete header and does what its reply asks for |
| WebSocketConnection.WebSocket.ProcessData | src/websockets/qwebsocket_p.cpp:1306-1324 | the whole state after the call is the specified one: skipping, handshake, then every frame with every answer |
| WebSocketConnection.WebSocket.DrainSocket | src/websockets/qwebsocket_p.cpp:1318-1323 | repeated calls of the processor, with the reactions between them, amount to the pump on all bytes, and end |
| Subprotocols.ValidProtocols | src/websockets/qwebsocket_p.cpp:1410-1421 | exactly the valid names, in order, all of them requested |
| Subprotocols.ValidOnlyAt | src/websockets/qwebsocket_p.cpp:1410-1421 | the names kept stand at increasing positions, and no valid one is left out |
| Subprotocols.NameCharTable | src/websockets/qwebsocket_p.cpp:75-80 | exactly the characters of an HTTP token |
| Subprotocols.RequestedSubProtocols | src/websockets/qwebsocket_p.cpp:334-350 | the options, then the names of the raw header that are not empty and not among them |
| Subprotocols.ExtraAt | src/websockets/qwebsocket_p.cpp:334-350 | the names taken from the raw header stand at increasing positions, and no other that qualifies is left out |
| Subprotocols.TrimmedParts | src/websockets/qwebsockethandshakerequest.cpp:188-192 | trimming takes away all white space at both ends and nothing else |
| Subprotocols.AppendCommaSeparatedLineToList | src/websockets/qwebsockethandshakerequest.cpp:188-192 | appends the trimmed parts of the line that are not empty |
| Subprotocols.TokensOfLine | src/websockets/qwebsockethandshakerequest.cpp:188-192 | on every line: the tokens are the parts between the commas, in order, that are not empty |
| Subprotocols.SplitOfJoined | src/websockets/qwebsockethandshakerequest.cpp:188-192 | splitting the trimmed value of what the client joined loses an empty first and an empty last name and nothing else; so it gives the list back if and only if neither is empty |
| Subprotocols.Negotiation | src/websockets/qwebsockethandshakeresponse.cpp:130-141 | for every list of names: the server sees the client's valid names in order, without an empty one at either end, takes the first it supports, and the client never refuses it |
| Subprotocols.FirstValidTaken | src/websockets/qwebsockethandshakeresponse.cpp:130-141 | in terms of the request itself: the server takes the first name that is valid and that it supports, and none exactly if there is none |
| Subprotocols.RequestNegotiated | src/websockets/qwebsocket_p.cpp:334-350 | whatever the raw header is, the request made of options and raw header is negotiated without loss when no option is empty |

## Left out

- TCP, TLS, proxies, timers and the `QWebSocketServer` machinery: input and output only.
- Parsing of HTTP headers, URLs, authentication and the accept key: a function from header bytes to a reply stands for them.
- Error strings, `errorOccurred` signals and the limit on the size of an incomplete response header, which only raises such a signal.
- The text of the handshake request: sending it again after a 401 is counted, not spelled out.
- Reconnecting after a 401 with `Connection: close`, and what follows a refused handshake: the socket is disconnected and its unread bytes are abandoned.
- The server's handshake response apart from the choice of the subprotocol.
- Delays: the waiting time for the rest of a frame is an action that may happen at any moment.
- The WASM backend and the QML wrappers.
- Duplex.EndToEnd: leaves out timeouts during the run and closing by a user; what has been delivered when a user closes is in Closing.CloseAgreement, and what both sides write after that in Endpoint.AtMostOneClose.
- Closing.CloseAgreement: leaves out that both users close at the same time, and that the peer's user sends something after a part of the Close frame has arrived.
- WebSocketConnection.WebSocket.Open: leaves out the URL itself, TLS, proxies, error signals and the reconnect flags; why a target cannot be reached is a parameter.
- WebSocketConnection.WebSocket.ProcessHandshake: leaves out the text of the request that is sent again, the new connection after a 401 with `Connection: close`, and the error signal for a header that is too long.
- WebSocketConnection.WebSocket.DoWriteFrames: needs a frame size of at least 1, because the code divides by it, and a message of at most 2^31 - 1 bytes, because the number of frames is an int.
