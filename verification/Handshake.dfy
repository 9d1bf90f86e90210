/** The client's side of the opening handshake, as far as it decides which bytes are for whom. */
module Handshake {
  import opened Bytes
  import opened Endpoint

  /** What the response header amounts to; parsing it and checking its fields belong to the surrounding library. */
  datatype Reply =
    | Upgraded                          // 101, and every check passed
    | Unauthorized(contentLength: int)  // 401 with credentials to try, on the same connection
    | UnauthorizedClosing               // 401 with credentials to try, on a new connection
    | Refused                           // anything else that is well formed
    | Malformed                         // not a response, or a subprotocol that was not asked for

  type Http = seq<byte> -> Reply

  datatype Phase = Connecting | Connected | Disconnecting

  /** How the bytes that are not for the frame reader were used. */
  datatype Use = Header(bytes: seq<byte>) | Skipped(bytes: seq<byte>) | Abandoned(bytes: seq<byte>)

  datatype Client = Client(phase: Phase, toSkip: int, requests: nat, uses: seq<Use>, conn: Conn)

  const LF: byte := 0x0A
  const END_OF_HEADER: seq<byte> := [0x0D, 0x0A, 0x0D, 0x0A]

  predicate EndsAt(buf: seq<byte>, i: nat) {
    i + 4 <= |buf| && buf[i..i + 4] == END_OF_HEADER
  }

  /** The length of the first header in the buffer, end marker included. */
  function HeaderLength(buf: seq<byte>, start: nat): (r: Option<nat>)
    requires start <= |buf|
    ensures r.Some? ==> start + 4 <= r.value <= |buf|
    decreases |buf| - start
  {
    if EndsAt(buf, start) then Some(start + 4)
    else if start == |buf| then None
    else HeaderLength(buf, start + 1)
  }

  lemma {:induction false} FirstEnd(buf: seq<byte>, start: nat)
    requires start <= |buf|
    ensures match HeaderLength(buf, start)
      case Some(n) => EndsAt(buf, n - 4) && forall i :: start <= i < n - 4 ==> !EndsAt(buf, i)
      case None => forall i :: start <= i ==> !EndsAt(buf, i)
    decreases |buf| - start
  {
    if !EndsAt(buf, start) && start < |buf| {
      FirstEnd(buf, start + 1);
    }
  }

  function SetRx(c: Client, rx: seq<byte>): Client {
    c.(conn := c.conn.(rx := rx))
  }

  /** Bytes that were not read before disconnecting are lost. */
  function Disconnect(c: Client): Client {
    SetRx(c, []).(phase := Disconnecting, uses := c.uses + [Abandoned(c.conn.rx)])
  }

  /** Takes one response header from the buffer, if it is complete. */
  function OnResponse(http: Http, c: Client): Client {
    match HeaderLength(c.conn.rx, 0)
    case None => c
    case Some(n) =>
      var header := c.conn.rx[..n];
      OnReply(SetRx(c, c.conn.rx[n..]).(uses := c.uses + [Header(header)]), http(header))
  }

  function OnReply(c: Client, reply: Reply): Client {
    match reply
    case Upgraded => c.(phase := Connected)
    case Unauthorized(length) => c.(toSkip := length, requests := c.requests + 1)
    case Malformed => c
    case _ => Disconnect(c)
  }

  /** The body of the previous response is skipped first. */
  function SkipBody(c: Client): Client {
    if c.toSkip <= 0 then c
    else
      var body := Left(c.conn.rx, c.toSkip);
      SetRx(c, c.conn.rx[|body|..]).(toSkip := c.toSkip - |body|, uses := c.uses + [Skipped(body)])
  }

  function WhileConnecting(http: Http, c: Client): Client {
    var d := SkipBody(c);
    if d.toSkip > 0 || LF !in d.conn.rx then d else OnResponse(http, d)
  }

  function ProcessData(e: Env, http: Http, c: Client): Client {
    var d := if c.phase == Connecting then WhileConnecting(http, c) else c;
    if d.phase != Connecting then d.(conn := Pump(e, d.conn)) else d
  }

  /** Bytes arrive; a deaf closed socket, and one that is being disconnected, deliver nothing. */
  function Receive(e: Env, http: Http, c: Client, b: seq<byte>): Client {
    if c.phase == Disconnecting || Dead(e, c.conn.session) then c
    else ProcessData(e, http, SetRx(c, c.conn.rx + b))
  }

  function ReceiveAll(e: Env, http: Http, c: Client, chunks: seq<seq<byte>>): Client
    decreases chunks
  {
    if chunks == [] then c else ReceiveAll(e, http, Receive(e, http, c, chunks[0]), chunks[1..])
  }

  /** Opening again: a new socket, on which the rest of the last body is still to be skipped. */
  function OpenAgain(c: Client, mask: bool): Client {
    c.(phase := Connecting, conn := Reopened(c.conn, mask))
  }

  // ----- every byte is used once, in order -----

  function Used(uses: seq<Use>): seq<byte> {
    if uses == [] then [] else Used(uses[..|uses| - 1]) + uses[|uses| - 1].bytes
  }

  lemma {:induction false} UsedOne(uses: seq<Use>, u: Use)
    ensures Used(uses + [u]) == Used(uses) + u.bytes
  {
    assert (uses + [u])[..|uses|] == uses;
  }

  lemma {:induction false} SkipAccounts(c: Client)
    ensures var d := SkipBody(c); Used(d.uses) + d.conn.rx == Used(c.uses) + c.conn.rx
  {
    if c.toSkip > 0 {
      var body := Left(c.conn.rx, c.toSkip);
      var rest := c.conn.rx[|body|..];
      UsedOne(c.uses, Skipped(body));
      assert c.conn.rx == body + rest;
      assert Used(c.uses) + body + rest == Used(c.uses) + (body + rest);
    }
  }

  lemma {:induction false} ReplyAccounts(c: Client, reply: Reply)
    ensures var d := OnReply(c, reply); Used(d.uses) + d.conn.rx == Used(c.uses) + c.conn.rx
  {
    UsedOne(c.uses, Abandoned(c.conn.rx));
  }

  lemma {:induction false} HeaderAccounts(c: Client, n: nat)
    requires n <= |c.conn.rx|
    ensures var rx := c.conn.rx; var d := SetRx(c, rx[n..]).(uses := c.uses + [Header(rx[..n])]);
      Used(d.uses) + d.conn.rx == Used(c.uses) + rx
  {
    var header, rest := c.conn.rx[..n], c.conn.rx[n..];
    UsedOne(c.uses, Header(header));
    assert Used(c.uses) + header + rest == Used(c.uses) + (header + rest);
  }

  lemma {:induction false} ResponseAccounts(http: Http, c: Client)
    ensures var d := OnResponse(http, c); Used(d.uses) + d.conn.rx == Used(c.uses) + c.conn.rx
  {
    match HeaderLength(c.conn.rx, 0)
    case None =>
    case Some(n) =>
      var header := c.conn.rx[..n];
      HeaderAccounts(c, n);
      ReplyAccounts(SetRx(c, c.conn.rx[n..]).(uses := c.uses + [Header(header)]), http(header));
  }

  /** While connecting, the bytes used so far and the unread ones are exactly the bytes received, however they were cut. */
  lemma {:induction false} ConnectingAccounts(http: Http, c: Client)
    ensures var d := WhileConnecting(http, c);
      Used(d.uses) + d.conn.rx == Used(c.uses) + c.conn.rx && d.conn == c.conn.(rx := d.conn.rx)
  {
    SkipAccounts(c);
    ResponseAccounts(http, SkipBody(c));
  }

  /** What was not used by the handshake goes to the frame reader after an upgrade, and stays unread before. */
  lemma {:induction false} ReceiveAccounts(e: Env, http: Http, c: Client, b: seq<byte>)
    requires c.phase == Connecting && !Dead(e, c.conn.session)
    ensures var d, received := Receive(e, http, c, b), Used(c.uses) + c.conn.rx + b;
      && Used(d.uses) <= received
      && var left := c.conn.(rx := received[|Used(d.uses)|..]);
         d.conn == if d.phase == Connected then Pump(e, left) else left
  {
    var c1 := SetRx(c, c.conn.rx + b);
    var d := WhileConnecting(http, c1);
    ConnectingAccounts(http, c1);
    assert Used(c.uses) + (c.conn.rx + b) == Used(c.uses) + c.conn.rx + b;
    assert d.conn.rx == (Used(d.uses) + d.conn.rx)[|Used(d.uses)|..];
    PumpNothing(e, d.conn);
    DisconnectingAbandons(http, c1);
  }

  lemma {:induction false} DisconnectingAbandons(http: Http, c: Client)
    requires c.phase == Connecting
    ensures WhileConnecting(http, c).phase == Disconnecting ==> WhileConnecting(http, c).conn.rx == []
  {
  }

  // ----- every run -----

  /** The connection as it will be handed over, without the bytes of the handshake. */
  function Bare(c: Client): Conn {
    c.conn.(rx := [])
  }

  lemma {:induction false} OnceConnected(e: Env, http: Http, c: Client, chunks: seq<seq<byte>>)
    requires c.phase == Connected
    ensures ReceiveAll(e, http, c, chunks) == c.(conn := ArriveAll(e, c.conn, chunks))
    decreases chunks
  {
    if chunks != [] {
      OnceConnected(e, http, Receive(e, http, c, chunks[0]), chunks[1..]);
    }
  }

  lemma {:induction false} ArriveRest(e: Env, c: Conn, first: seq<byte>, chunks: seq<seq<byte>>)
    ensures ArriveAll(e, Arrive(e, c, first), chunks) == Arrive(e, c, first + Flatten(chunks))
  {
    if chunks == [] {
      assert first + [] == first;
    } else {
      Segmentation(e, Arrive(e, c, first), chunks);
      ArriveTwice(e, c, first, Flatten(chunks));
    }
  }

  lemma {:induction false} ReceiveAllStep(e: Env, http: Http, c: Client, chunks: seq<seq<byte>>)
    requires chunks != []
    ensures ReceiveAll(e, http, c, chunks) == ReceiveAll(e, http, Receive(e, http, c, chunks[0]), chunks[1..])
  {
  }

  lemma {:induction false} AfterHandover(e: Env, http: Http, d: Client, bare: Conn, first: seq<byte>, chunks: seq<seq<byte>>)
    requires d.phase == Connected && d.conn == Arrive(e, bare, first)
    ensures ReceiveAll(e, http, d, chunks) == d.(conn := Arrive(e, bare, first + Flatten(chunks)))
  {
    OnceConnected(e, http, d, chunks);
    ArriveRest(e, bare, first, chunks);
  }

  /** Of the bytes received in all, the used ones come first; where the rest is, the phase tells. */
  predicate RestInPlace(e: Env, bare: Conn, d: Client, received: seq<byte>) {
    && Used(d.uses) <= received
    && var rest := received[|Used(d.uses)|..];
       match d.phase
       case Connecting => d.conn == bare.(rx := rest)
       case Connected => d.conn == Arrive(e, bare, rest)
       case Disconnecting => d.conn == bare
  }

  lemma {:induction false} OnceDisconnecting(e: Env, http: Http, c: Client, chunks: seq<seq<byte>>)
    requires c.phase == Disconnecting
    ensures ReceiveAll(e, http, c, chunks) == c
    decreases chunks
  {
    if chunks != [] {
      OnceDisconnecting(e, http, c, chunks[1..]);
    }
  }

  lemma {:induction false} ReceiveInPlace(e: Env, http: Http, c: Client, b: seq<byte>)
    requires c.phase == Connecting && !Dead(e, c.conn.session)
    ensures RestInPlace(e, Bare(c), Receive(e, http, c, b), Used(c.uses) + c.conn.rx + b)
  {
    var d, received := Receive(e, http, c, b), Used(c.uses) + c.conn.rx + b;
    ReceiveAccounts(e, http, c, b);
    var rest := received[|Used(d.uses)|..];
    assert [] + rest == rest;
    DisconnectingAbandons(http, SetRx(c, c.conn.rx + b));
  }

  lemma {:induction false} StillConnecting(e: Env, c: Client, d: Client, received: seq<byte>)
    requires RestInPlace(e, Bare(c), d, received) && d.phase == Connecting && !Dead(e, c.conn.session)
    ensures Used(d.uses) + d.conn.rx == received && Bare(d) == Bare(c) && !Dead(e, d.conn.session)
  {
  }

  /** What comes later, after the handover or a disconnection. */
  lemma {:induction false} LaterInPlace(e: Env, http: Http, bare: Conn, d: Client, received: seq<byte>,
                                        chunks: seq<seq<byte>>)
    requires RestInPlace(e, bare, d, received) && d.phase != Connecting
    ensures RestInPlace(e, bare, ReceiveAll(e, http, d, chunks), received + Flatten(chunks))
  {
    var used, more := Used(d.uses), Flatten(chunks);
    assert (received + more)[|used|..] == received[|used|..] + more;
    if d.phase == Connected {
      AfterHandover(e, http, d, bare, received[|used|..], chunks);
    } else {
      OnceDisconnecting(e, http, d, chunks);
    }
  }

  /**
   * Over every run, for every cut and every server: the bytes used as headers, skipped or abandoned are the first of
   * the bytes received, each once and in order; those behind them are unread while connecting, and once connected the
   * frame reader gets them all, in order, and nothing else.
   */
  lemma {:induction false} EveryByteOnce(e: Env, http: Http, c: Client, chunks: seq<seq<byte>>)
    requires c.phase == Connecting && !Dead(e, c.conn.session)
    ensures RestInPlace(e, Bare(c), ReceiveAll(e, http, c, chunks), Used(c.uses) + c.conn.rx + Flatten(chunks))
    decreases chunks
  {
    if chunks == [] {
      assert (Used(c.uses) + c.conn.rx)[|Used(c.uses)|..] == c.conn.rx;
      assert Used(c.uses) + c.conn.rx + [] == Used(c.uses) + c.conn.rx;
    } else {
      var d, received := Receive(e, http, c, chunks[0]), Used(c.uses) + c.conn.rx + chunks[0];
      ReceiveInPlace(e, http, c, chunks[0]);
      ReceiveAllStep(e, http, c, chunks);
      assert received + Flatten(chunks[1..]) == Used(c.uses) + c.conn.rx + Flatten(chunks);
      if d.phase == Connecting {
        StillConnecting(e, c, d, received);
        EveryByteOnce(e, http, d, chunks[1..]);
      } else {
        LaterInPlace(e, http, Bare(c), d, received, chunks[1..]);
      }
    }
  }
}
