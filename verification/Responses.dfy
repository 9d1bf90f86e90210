/** Whole handshakes of the client: any number of 401 responses and then a 101, and opening again before the end of one. */
module Responses {
  import opened Bytes
  import opened Endpoint
  import opened Handshake

  datatype Response = Response(header: seq<byte>, body: seq<byte>)

  /** A header ends with the end marker and contains no other. */
  predicate IsHeader(h: seq<byte>) {
    |h| >= 4 && HeaderLength(h, 0) == Some(|h|)
  }

  /** Responses after which the client waits for another one: a 401, or one that makes no sense, which is just its header. */
  predicate Retries(http: Http, rs: seq<Response>) {
    forall i :: 0 <= i < |rs| ==> IsHeader(rs[i].header) && Retry(http(rs[i].header), |rs[i].body|)
  }

  predicate Retry(reply: Reply, n: nat) {
    reply == Unauthorized(n) || (reply == Malformed && n == 0)
  }

  /** How many of them ask for credentials. */
  function Asking(http: Http, rs: seq<Response>): nat {
    if rs == [] then 0 else (if http(rs[0].header).Unauthorized? then 1 else 0) + Asking(http, rs[1..])
  }

  predicate Final(reply: Reply) {
    reply.Upgraded? || reply.Refused? || reply.UnauthorizedClosing?
  }

  /** All bytes of the responses and of the final header. */
  function Wire(rs: seq<Response>, final: seq<byte>): seq<byte> {
    if rs == [] then final else rs[0].header + (rs[0].body + Wire(rs[1..], final))
  }

  function Headers(rs: seq<Response>, final: seq<byte>): seq<seq<byte>> {
    if rs == [] then [final] else [rs[0].header] + Headers(rs[1..], final)
  }

  function Bodies(rs: seq<Response>): seq<byte> {
    if rs == [] then [] else rs[0].body + Bodies(rs[1..])
  }

  // ----- what bytes were used for -----

  function HeadersIn(uses: seq<Use>): seq<seq<byte>> {
    if uses == [] then []
    else
      var u := uses[|uses| - 1];
      HeadersIn(uses[..|uses| - 1]) + if u.Header? then [u.bytes] else []
  }

  lemma {:induction false} HeadersOne(uses: seq<Use>, u: Use)
    ensures HeadersIn(uses + [u]) == HeadersIn(uses) + if u.Header? then [u.bytes] else []
  {
    assert (uses + [u])[..|uses|] == uses;
  }

  function SkippedIn(uses: seq<Use>): seq<byte> {
    if uses == [] then []
    else
      var u := uses[|uses| - 1];
      SkippedIn(uses[..|uses| - 1]) + if u.Skipped? then u.bytes else []
  }

  lemma {:induction false} SkippedOne(uses: seq<Use>, u: Use)
    ensures SkippedIn(uses + [u]) == SkippedIn(uses) + if u.Skipped? then u.bytes else []
  {
    assert (uses + [u])[..|uses|] == uses;
  }

  /** The bytes used between c and d: all of them, those that were skipped, and the headers. */
  predicate Consumed(c: Client, d: Client, used: seq<byte>, skipped: seq<byte>, headers: seq<seq<byte>>) {
    && Used(d.uses) == Used(c.uses) + used
    && SkippedIn(d.uses) == SkippedIn(c.uses) + skipped
    && HeadersIn(d.uses) == HeadersIn(c.uses) + headers
  }

  lemma {:induction false} ConsumedOne(c: Client, d: Client, u: Use)
    requires d.uses == c.uses + [u]
    ensures Consumed(c, d, u.bytes, if u.Skipped? then u.bytes else [], if u.Header? then [u.bytes] else [])
  {
    UsedOne(c.uses, u);
    SkippedOne(c.uses, u);
    HeadersOne(c.uses, u);
  }

  lemma {:induction false} ConsumedTwice(c: Client, d: Client, r: Client, used: seq<byte>, skipped: seq<byte>,
                                         headers: seq<seq<byte>>, usedLater: seq<byte>, skippedLater: seq<byte>,
                                         headersLater: seq<seq<byte>>)
    requires Consumed(c, d, used, skipped, headers) && Consumed(d, r, usedLater, skippedLater, headersLater)
    ensures Consumed(c, r, used + usedLater, skipped + skippedLater, headers + headersLater)
  {
  }

  // ----- one chunk -----

  /**
   * Each response starts to arrive after the header before it was handled: of pending unread bytes, of which the first
   * ahead belong to a body, a chunk that completes a header holds nothing of the next response.
   */
  predicate InTurn(rs: seq<Response>, ahead: nat, pending: nat, chunks: seq<seq<byte>>)
    decreases chunks
  {
    if chunks == [] || rs == [] then true
    else
      var got := pending + |chunks[0]|;
      if got < ahead + |rs[0].header| then
        var k := Min(ahead, got); InTurn(rs, ahead - k, got - k, chunks[1..])
      else
        && got <= ahead + |rs[0].header| + |rs[0].body|
        && InTurn(rs[1..], |rs[0].body|, got - ahead - |rs[0].header|, chunks[1..])
  }

  lemma {:induction false} SameEnds(h: seq<byte>, part: seq<byte>, i: nat)
    requires i + 4 <= |h| && i + 4 <= |part| && (part <= h || h <= part)
    ensures EndsAt(part, i) == EndsAt(h, i)
  {
    assert part[i..i + 4] == h[i..i + 4];
  }

  /** A header that is not complete is not found; a complete one is found whatever follows it. */
  lemma {:induction false} FindsHeader(h: seq<byte>, part: seq<byte>)
    requires IsHeader(h) && (part <= h || h <= part)
    ensures HeaderLength(part, 0) == if |part| < |h| then None else Some(|h|)
    ensures |part| >= |h| ==> LF in part
  {
    FirstEnd(h, 0);
    FirstEnd(part, 0);
    if |part| >= |h| {
      SameEnds(h, part, |h| - 4);
      assert part[|h| - 4..|h|][3] == part[|h| - 1];
    }
    match HeaderLength(part, 0)
    case None =>
    case Some(n) =>
      if n <= |h| {
        SameEnds(h, part, n - 4);
      }
  }

  /** The bytes that come first are the rest of a body. */
  predicate Skips(c: Client, skip: seq<byte>) {
    c.toSkip == |skip| || (skip == [] && c.toSkip < 0)
  }

  lemma {:induction false} SkipPart(c: Client, skip: seq<byte>)
    requires Skips(c, skip) && (c.conn.rx <= skip || skip <= c.conn.rx)
    ensures var d, k := SkipBody(c), Min(|skip|, |c.conn.rx|);
      && d == SetRx(c, c.conn.rx[k..]).(toSkip := d.toSkip, uses := d.uses) && Skips(d, skip[k..])
      && Consumed(c, d, skip[..k], skip[..k], [])
  {
    if skip != [] {
      ConsumedOne(c, SkipBody(c), Skipped(Left(c.conn.rx, |skip|)));
    }
  }

  lemma {:induction false} PrefixOf(buf: seq<byte>, skip: seq<byte>, h: seq<byte>)
    requires buf < skip + h
    ensures if |buf| < |skip| then buf < skip else skip <= buf && buf[|skip|..] < h
  {
    if |buf| < |skip| {
      assert buf == (skip + h)[..|buf|] == skip[..|buf|];
    } else {
      assert buf[..|skip|] == (skip + h)[..|skip|] == skip;
      assert buf[|skip|..] == (skip + h)[|skip|..|buf|] == h[..|buf| - |skip|];
    }
  }

  /** A header that is not complete yet. */
  lemma {:induction false} HeaderIncomplete(http: Http, c: Client, skip: seq<byte>, h: seq<byte>)
    requires IsHeader(h) && Skips(c, skip) && c.conn.rx < skip + h
    ensures var d, k := WhileConnecting(http, c), Min(|skip|, |c.conn.rx|);
      && d == SetRx(c, c.conn.rx[k..]).(toSkip := d.toSkip, uses := d.uses) && Skips(d, skip[k..])
      && Consumed(c, d, skip[..k], skip[..k], [])
  {
    PrefixOf(c.conn.rx, skip, h);
    SkipPart(c, skip);
    var d := SkipBody(c);
    if |c.conn.rx| >= |skip| {
      FindsHeader(h, d.conn.rx);
      assert OnResponse(http, d) == d;
    }
    assert WhileConnecting(http, c) == d;
  }

  /** A header that is complete. */
  lemma {:induction false} HeaderComplete(http: Http, c: Client, skip: seq<byte>, h: seq<byte>, rest: seq<byte>)
    requires IsHeader(h) && Skips(c, skip) && c.conn.rx == skip + (h + rest)
    ensures var d0 := SkipBody(c);
      var d1 := SetRx(d0, rest).(uses := d0.uses + [Header(h)]);
      && WhileConnecting(http, c) == OnReply(d1, http(h)) && d1 == SetRx(c, rest).(toSkip := d1.toSkip, uses := d1.uses)
      && Consumed(c, d1, skip + h, skip, [h]) && Skips(d1, [])
  {
    SkipPart(c, skip);
    var d0 := SkipBody(c);
    var d1 := SetRx(d0, rest).(uses := d0.uses + [Header(h)]);
    assert d0.conn.rx == h + rest && (h + rest)[..|h|] == h && (h + rest)[|h|..] == rest;
    FindsHeader(h, h + rest);
    ConsumedOne(d0, d1, Header(h));
    ConsumedTwice(c, d0, d1, skip, skip, [], h, [], [h]);
    assert skip[..|skip|] == skip && skip + [] == skip && [] + [h] == [h];
  }

  predicate Ready(e: Env, c: Client, skip: seq<byte>) {
    c.phase == Connecting && !Dead(e, c.conn.session) && Skips(c, skip)
  }

  function First(rs: seq<Response>, final: seq<byte>): seq<byte> {
    if rs == [] then final else rs[0].header
  }

  /** What follows the first header. */
  function AfterFirst(rs: seq<Response>, final: seq<byte>, data: seq<byte>): seq<byte> {
    if rs == [] then data else rs[0].body + (Wire(rs[1..], final) + data)
  }

  /** The bytes still to come, unread ones included, are the rest of a body, the responses, the final header and data. */
  predicate Expecting(http: Http, c: Client, skip: seq<byte>, rs: seq<Response>, final: seq<byte>, data: seq<byte>,
                      chunks: seq<seq<byte>>)
  {
    && Retries(http, rs) && IsHeader(final) && Final(http(final))
    && c.conn.rx + Flatten(chunks) == skip + (Wire(rs, final) + data)
    && |c.conn.rx| < |skip| + |First(rs, final)| && InTurn(rs, |skip|, |c.conn.rx|, chunks)
  }

  lemma {:induction false} FirstComes(http: Http, c: Client, skip: seq<byte>, rs: seq<Response>, final: seq<byte>,
                                      data: seq<byte>, chunks: seq<seq<byte>>)
    requires Expecting(http, c, skip, rs, final, data, chunks)
    ensures var h := First(rs, final);
      && chunks != [] && IsHeader(h)
      && c.conn.rx + chunks[0] + Flatten(chunks[1..]) == skip + h + AfterFirst(rs, final, data)
  {
    var h, after := First(rs, final), AfterFirst(rs, final, data);
    assert Wire(rs, final) + data == h + after;
    assert |skip + (h + after)| == |c.conn.rx| + |Flatten(chunks)|;
    assert skip + (h + after) == skip + h + after;
    assert c.conn.rx + (chunks[0] + Flatten(chunks[1..])) == c.conn.rx + chunks[0] + Flatten(chunks[1..]);
  }

  /** Two ways to cut the same bytes. */
  lemma {:induction false} TwoCuts(buf: seq<byte>, more: seq<byte>, front: seq<byte>, back: seq<byte>)
    requires buf + more == front + back
    ensures |buf| < |front| ==> buf < front
    ensures |buf| >= |front| ==> buf == front + buf[|front|..] && buf[|front|..] + more == back
  {
    if |buf| < |front| {
      assert buf == (buf + more)[..|buf|] == front[..|buf|];
    } else {
      assert front == (front + back)[..|front|] == buf[..|front|];
      assert back == (front + back)[|front|..] == buf[|front|..] + more;
    }
  }

  lemma {:induction false} DropBoth(buf: seq<byte>, more: seq<byte>, skip: seq<byte>, back: seq<byte>, k: nat)
    requires buf + more == skip + back && k <= |buf| && k <= |skip|
    ensures buf[k..] + more == skip[k..] + back
  {
    assert (buf + more)[k..] == buf[k..] + more;
    assert (skip + back)[k..] == skip[k..] + back;
  }

  /** The first chunk either ends before the end of the first header, or completes it. */
  lemma {:induction false} FirstChunk(http: Http, c: Client, skip: seq<byte>, rs: seq<Response>,
                                      final: seq<byte>, data: seq<byte>, chunks: seq<seq<byte>>) returns (rest: seq<byte>)
    requires Expecting(http, c, skip, rs, final, data, chunks)
    ensures chunks != [] && IsHeader(First(rs, final))
    ensures var buf, h := c.conn.rx + chunks[0], First(rs, final);
      if |buf| < |skip| + |h| then buf < skip + h
      else buf == skip + (h + rest) && rest + Flatten(chunks[1..]) == AfterFirst(rs, final, data)
  {
    var h, after := First(rs, final), AfterFirst(rs, final, data);
    FirstComes(http, c, skip, rs, final, data, chunks);
    var buf := c.conn.rx + chunks[0];
    TwoCuts(buf, Flatten(chunks[1..]), skip + h, after);
    rest := if |buf| < |skip| + |h| then [] else buf[|skip + h|..];
    assert skip + h + rest == skip + (h + rest);
  }

  lemma {:induction false} StillExpecting(http: Http, c: Client, d: Client, skip: seq<byte>, k: nat, rs: seq<Response>,
                                          final: seq<byte>, data: seq<byte>, chunks: seq<seq<byte>>)
    requires Expecting(http, c, skip, rs, final, data, chunks) && chunks != []
    requires var buf := c.conn.rx + chunks[0];
      |buf| < |skip| + |First(rs, final)| && k == Min(|skip|, |buf|) && d.conn.rx == buf[k..]
    ensures Expecting(http, d, skip[k..], rs, final, data, chunks[1..])
  {
    var buf, more, back := c.conn.rx + chunks[0], Flatten(chunks[1..]), Wire(rs, final) + data;
    assert buf + more == c.conn.rx + (chunks[0] + more) == skip + back;
    DropBoth(buf, more, skip, back, k);
  }

  /** A chunk that leaves the header incomplete. */
  lemma {:induction false} TakeIncomplete(e: Env, http: Http, c: Client, skip: seq<byte>, rs: seq<Response>,
                                          final: seq<byte>, data: seq<byte>, chunks: seq<seq<byte>>) returns (k: nat)
    requires Ready(e, c, skip) && Expecting(http, c, skip, rs, final, data, chunks)
    requires chunks != [] && |c.conn.rx| + |chunks[0]| < |skip| + |First(rs, final)|
    ensures var d := Receive(e, http, c, chunks[0]);
      && k <= |skip| && Ready(e, d, skip[k..]) && Bare(d) == Bare(c) && d.requests == c.requests
      && Consumed(c, d, skip[..k], skip[..k], [])
      && Expecting(http, d, skip[k..], rs, final, data, chunks[1..])
  {
    var c1 := SetRx(c, c.conn.rx + chunks[0]);
    k := Min(|skip|, |c1.conn.rx|);
    var _ := FirstChunk(http, c, skip, rs, final, data, chunks);
    HeaderIncomplete(http, c1, skip, First(rs, final));
    StillExpecting(http, c, Receive(e, http, c, chunks[0]), skip, k, rs, final, data, chunks);
  }

  /** A chunk that completes the first header, and what of the buffer is behind it. */
  lemma {:induction false} TakeHeader(e: Env, http: Http, c: Client, skip: seq<byte>, rs: seq<Response>,
                                      final: seq<byte>, data: seq<byte>, chunks: seq<seq<byte>>)
    returns (rest: seq<byte>, d1: Client)
    requires Ready(e, c, skip) && Expecting(http, c, skip, rs, final, data, chunks)
    requires chunks != [] && |c.conn.rx| + |chunks[0]| >= |skip| + |First(rs, final)|
    ensures var h := First(rs, final);
      && |c.conn.rx| + |chunks[0]| == |skip| + |h| + |rest| && rest + Flatten(chunks[1..]) == AfterFirst(rs, final, data)
      && d1 == SetRx(c, rest).(toSkip := d1.toSkip, uses := d1.uses)
      && WhileConnecting(http, SetRx(c, c.conn.rx + chunks[0])) == OnReply(d1, http(h))
      && Consumed(c, d1, skip + h, skip, [h]) && Skips(d1, [])
  {
    var c1, h := SetRx(c, c.conn.rx + chunks[0]), First(rs, final);
    rest := FirstChunk(http, c, skip, rs, final, data, chunks);
    HeaderComplete(http, c1, skip, h, rest);
    d1 := SetRx(SkipBody(c1), rest).(uses := SkipBody(c1).uses + [Header(h)]);
  }

  lemma {:induction false} TakeRetry(e: Env, http: Http, c: Client, skip: seq<byte>, rs: seq<Response>,
                                     final: seq<byte>, data: seq<byte>, chunks: seq<seq<byte>>)
    requires Ready(e, c, skip) && Expecting(http, c, skip, rs, final, data, chunks)
    requires chunks != [] && rs != [] && |c.conn.rx| + |chunks[0]| >= |skip| + |rs[0].header|
    ensures var d, h := Receive(e, http, c, chunks[0]), rs[0].header;
      && Ready(e, d, rs[0].body) && Bare(d) == Bare(c)
      && d.requests == c.requests + (if http(h).Unauthorized? then 1 else 0)
      && Consumed(c, d, skip + h, skip, [h])
      && Expecting(http, d, rs[0].body, rs[1..], final, data, chunks[1..])
  {
    var rest, d1 := TakeHeader(e, http, c, skip, rs, final, data, chunks);
    assert |First(rs[1..], final)| > 0;
  }

  lemma {:induction false} TakeUpgrade(e: Env, http: Http, c: Client, skip: seq<byte>, final: seq<byte>,
                                       data: seq<byte>, chunks: seq<seq<byte>>) returns (rest: seq<byte>)
    requires Ready(e, c, skip) && Expecting(http, c, skip, [], final, data, chunks) && http(final).Upgraded?
    requires chunks != [] && |c.conn.rx| + |chunks[0]| >= |skip| + |final|
    ensures var d := Receive(e, http, c, chunks[0]);
      && rest + Flatten(chunks[1..]) == data && d.phase == Connected && d.conn == Arrive(e, Bare(c), rest)
      && d.requests == c.requests && Consumed(c, d, skip + final, skip, [final])
  {
    var d1: Client;
    rest, d1 := TakeHeader(e, http, c, skip, [], final, data, chunks);
    assert [] + rest == rest;
  }

  lemma {:induction false} TakeRefusal(e: Env, http: Http, c: Client, skip: seq<byte>, final: seq<byte>,
                                       data: seq<byte>, chunks: seq<seq<byte>>) returns (rest: seq<byte>)
    requires Ready(e, c, skip) && Expecting(http, c, skip, [], final, data, chunks) && !http(final).Upgraded?
    requires chunks != [] && |c.conn.rx| + |chunks[0]| >= |skip| + |final|
    ensures var d := Receive(e, http, c, chunks[0]);
      && rest <= data && d.phase == Disconnecting && d.conn == Bare(c) && d.requests == c.requests
      && Consumed(c, d, skip + final + rest, skip, [final])
  {
    var d1: Client;
    rest, d1 := TakeHeader(e, http, c, skip, [], final, data, chunks);
    var d := Disconnect(d1);
    ConsumedOne(d1, d, Abandoned(rest));
    ConsumedTwice(c, d1, d, skip + final, skip, [final], rest, [], []);
    assert skip + [] == skip && [final] + [] == [final];
    PumpNothing(e, d.conn);
  }

  // ----- whole handshakes -----

  /**
   * The result of a handshake: the bytes before the data were used in order; skipped were exactly the rest of the body
   * under way and the bodies, and the headers were recognised one by one; every 401 led to one more request. After a
   * 101 the frame reader got exactly the data. After a refusal the client disconnects, the session is untouched, and
   * what had arrived of the data is lost.
   */
  predicate Accounted(e: Env, http: Http, c: Client, d: Client, skip: seq<byte>, rs: seq<Response>, final: seq<byte>,
                      data: seq<byte>, lost: seq<byte>)
  {
    && d.requests == c.requests + Asking(http, rs) && lost <= data
    && Consumed(c, d, skip + Wire(rs, final) + lost, skip + Bodies(rs), Headers(rs, final))
    && if http(final).Upgraded? then d.phase == Connected && d.conn == Arrive(e, Bare(c), data) && lost == []
       else d.phase == Disconnecting && d.conn == Bare(c)
  }

  /** A chunk that used up the first k bytes of the body under way comes before the rest. */
  lemma {:induction false} AfterSkipping(e: Env, http: Http, c: Client, d: Client, r: Client, skip: seq<byte>, k: nat,
                                         rs: seq<Response>, final: seq<byte>, data: seq<byte>, lost: seq<byte>)
    requires k <= |skip| && Accounted(e, http, d, r, skip[k..], rs, final, data, lost)
    requires Bare(d) == Bare(c) && d.requests == c.requests && Consumed(c, d, skip[..k], skip[..k], [])
    ensures Accounted(e, http, c, r, skip, rs, final, data, lost)
  {
    ConsumedTwice(c, d, r, skip[..k], skip[..k], [],
                  skip[k..] + Wire(rs, final) + lost, skip[k..] + Bodies(rs), Headers(rs, final));
    assert skip[..k] + (skip[k..] + Wire(rs, final) + lost) == skip + Wire(rs, final) + lost;
    assert skip[..k] + (skip[k..] + Bodies(rs)) == skip + Bodies(rs);
    assert [] + Headers(rs, final) == Headers(rs, final);
  }

  /** A chunk that completed the first header comes before the rest. */
  lemma {:induction false} AfterRetry(e: Env, http: Http, c: Client, d: Client, r: Client, skip: seq<byte>,
                                      rs: seq<Response>, final: seq<byte>, data: seq<byte>, lost: seq<byte>)
    requires rs != [] && Accounted(e, http, d, r, rs[0].body, rs[1..], final, data, lost)
    requires Bare(d) == Bare(c) && d.requests == c.requests + (if http(rs[0].header).Unauthorized? then 1 else 0)
    requires Consumed(c, d, skip + rs[0].header, skip, [rs[0].header])
    ensures Accounted(e, http, c, r, skip, rs, final, data, lost)
  {
    var h, body, later := rs[0].header, rs[0].body, rs[1..];
    ConsumedTwice(c, d, r, skip + h, skip, [h],
                  body + Wire(later, final) + lost, body + Bodies(later), Headers(later, final));
    assert skip + h + (body + Wire(later, final) + lost) == skip + Wire(rs, final) + lost;
  }

  lemma {:induction false} AccountIncomplete(e: Env, http: Http, c: Client, skip: seq<byte>, rs: seq<Response>,
                                             final: seq<byte>, data: seq<byte>, chunks: seq<seq<byte>>)
    returns (lost: seq<byte>)
    requires Ready(e, c, skip) && Expecting(http, c, skip, rs, final, data, chunks)
    requires chunks != [] && |c.conn.rx| + |chunks[0]| < |skip| + |First(rs, final)|
    ensures Accounted(e, http, c, ReceiveAll(e, http, c, chunks), skip, rs, final, data, lost)
    decreases chunks, 0
  {
    var k := TakeIncomplete(e, http, c, skip, rs, final, data, chunks);
    ReceiveAllStep(e, http, c, chunks);
    var d := Receive(e, http, c, chunks[0]);
    lost := HandshakeAccounting(e, http, d, skip[k..], rs, final, data, chunks[1..]);
    AfterSkipping(e, http, c, d, ReceiveAll(e, http, d, chunks[1..]), skip, k, rs, final, data, lost);
  }

  lemma {:induction false} AccountUpgrade(e: Env, http: Http, c: Client, skip: seq<byte>, final: seq<byte>,
                                          data: seq<byte>, chunks: seq<seq<byte>>)
    requires Ready(e, c, skip) && Expecting(http, c, skip, [], final, data, chunks) && http(final).Upgraded?
    requires chunks != [] && |c.conn.rx| + |chunks[0]| >= |skip| + |final|
    ensures Accounted(e, http, c, ReceiveAll(e, http, c, chunks), skip, [], final, data, [])
  {
    var rest := TakeUpgrade(e, http, c, skip, final, data, chunks);
    ReceiveAllStep(e, http, c, chunks);
    AfterHandover(e, http, Receive(e, http, c, chunks[0]), Bare(c), rest, chunks[1..]);
    assert skip + Bodies([]) == skip && skip + final + [] == skip + final;
  }

  lemma {:induction false} AccountRefusal(e: Env, http: Http, c: Client, skip: seq<byte>, final: seq<byte>,
                                          data: seq<byte>, chunks: seq<seq<byte>>) returns (lost: seq<byte>)
    requires Ready(e, c, skip) && Expecting(http, c, skip, [], final, data, chunks) && !http(final).Upgraded?
    requires chunks != [] && |c.conn.rx| + |chunks[0]| >= |skip| + |final|
    ensures Accounted(e, http, c, ReceiveAll(e, http, c, chunks), skip, [], final, data, lost)
  {
    lost := TakeRefusal(e, http, c, skip, final, data, chunks);
    ReceiveAllStep(e, http, c, chunks);
    OnceDisconnecting(e, http, Receive(e, http, c, chunks[0]), chunks[1..]);
    assert skip + Bodies([]) == skip;
  }

  lemma {:induction false} AccountRetry(e: Env, http: Http, c: Client, skip: seq<byte>, rs: seq<Response>,
                                        final: seq<byte>, data: seq<byte>, chunks: seq<seq<byte>>) returns (lost: seq<byte>)
    requires Ready(e, c, skip) && Expecting(http, c, skip, rs, final, data, chunks)
    requires chunks != [] && rs != [] && |c.conn.rx| + |chunks[0]| >= |skip| + |rs[0].header|
    ensures Accounted(e, http, c, ReceiveAll(e, http, c, chunks), skip, rs, final, data, lost)
    decreases chunks, 0
  {
    TakeRetry(e, http, c, skip, rs, final, data, chunks);
    ReceiveAllStep(e, http, c, chunks);
    var d := Receive(e, http, c, chunks[0]);
    lost := HandshakeAccounting(e, http, d, rs[0].body, rs[1..], final, data, chunks[1..]);
    AfterRetry(e, http, c, d, ReceiveAll(e, http, d, chunks[1..]), skip, rs, final, data, lost);
  }

  /**
   * Byte accounting: any number of 401 and senseless responses, and then a 101 or a refusal, cut in any way in which
   * each response starts to arrive after the previous header was handled.
   */
  lemma {:induction false} HandshakeAccounting(e: Env, http: Http, c: Client, skip: seq<byte>, rs: seq<Response>,
                                               final: seq<byte>, data: seq<byte>, chunks: seq<seq<byte>>)
    returns (lost: seq<byte>)
    requires Ready(e, c, skip) && Expecting(http, c, skip, rs, final, data, chunks)
    ensures Accounted(e, http, c, ReceiveAll(e, http, c, chunks), skip, rs, final, data, lost)
    decreases chunks, 1
  {
    FirstComes(http, c, skip, rs, final, data, chunks);
    if |c.conn.rx| + |chunks[0]| < |skip| + |First(rs, final)| {
      lost := AccountIncomplete(e, http, c, skip, rs, final, data, chunks);
    } else if rs != [] {
      lost := AccountRetry(e, http, c, skip, rs, final, data, chunks);
    } else if http(final).Upgraded? {
      lost := [];
      AccountUpgrade(e, http, c, skip, final, data, chunks);
    } else {
      lost := AccountRefusal(e, http, c, skip, final, data, chunks);
    }
  }

  // ----- what the replies lead to, in every run -----

  /** Replies after which the client goes on waiting. */
  predicate Waits(reply: Reply) { reply.Unauthorized? || reply.Malformed? }

  /** The phase is told by the replies to the headers, of which only the last can end the handshake. */
  predicate Told(http: Http, headers: seq<seq<byte>>, phase: Phase) {
    && (forall i :: 0 <= i < |headers| - 1 ==> Waits(http(headers[i])))
    && (phase == Connected <==> headers != [] && http(headers[|headers| - 1]) == Upgraded)
    && (phase == Disconnecting
        <==> headers != [] && (http(headers[|headers| - 1]).Refused? || http(headers[|headers| - 1]).UnauthorizedClosing?))
  }

  lemma {:induction false} NothingTold(http: Http, headers: seq<seq<byte>>)
    requires Told(http, headers, Connecting)
    ensures forall i :: 0 <= i < |headers| ==> Waits(http(headers[i]))
  {
  }

  lemma {:induction false} ToldNext(http: Http, headers: seq<seq<byte>>, h: seq<byte>, phase: Phase)
    requires Told(http, headers, Connecting)
    requires phase == match http(h) case Upgraded => Connected case Refused => Disconnecting
                                    case UnauthorizedClosing => Disconnecting case _ => Connecting
    ensures Told(http, headers + [h], phase)
  {
    NothingTold(http, headers);
    assert forall i :: 0 <= i < |headers| ==> (headers + [h])[i] == headers[i];
  }

  lemma {:induction false} ReplyTold(c: Client, reply: Reply)
    requires c.phase == Connecting
    ensures HeadersIn(OnReply(c, reply).uses) == HeadersIn(c.uses)
    ensures OnReply(c, reply).phase == match reply case Upgraded => Connected case Refused => Disconnecting
                                                   case UnauthorizedClosing => Disconnecting case _ => Connecting
  {
    HeadersOne(c.uses, Abandoned(c.conn.rx));
    assert HeadersIn(c.uses) + [] == HeadersIn(c.uses);
  }

  lemma {:induction false} ResponseTold(http: Http, c: Client, since: seq<seq<byte>>, headers: seq<seq<byte>>)
    returns (more: seq<seq<byte>>)
    requires c.phase == Connecting && HeadersIn(c.uses) == since + headers && Told(http, headers, Connecting)
    ensures var d := OnResponse(http, c); HeadersIn(d.uses) == since + more && Told(http, more, d.phase)
  {
    more := headers;
    match HeaderLength(c.conn.rx, 0) {
      case None =>
      case Some(n) =>
        var h := c.conn.rx[..n];
        var d := SetRx(c, c.conn.rx[n..]).(uses := c.uses + [Header(h)]);
        more := headers + [h];
        HeadersOne(c.uses, Header(h));
        ReplyTold(d, http(h));
        ToldNext(http, headers, h, OnReply(d, http(h)).phase);
        assert since + (headers + [h]) == since + headers + [h];
    }
  }

  /** One call while connecting: at most one header, and the phase that its reply leads to. */
  lemma {:induction false} CallTold(http: Http, c: Client, since: seq<seq<byte>>, headers: seq<seq<byte>>)
    returns (more: seq<seq<byte>>)
    requires c.phase == Connecting && HeadersIn(c.uses) == since + headers && Told(http, headers, Connecting)
    ensures var d := WhileConnecting(http, c); HeadersIn(d.uses) == since + more && Told(http, more, d.phase)
  {
    if c.toSkip > 0 {
      HeadersOne(c.uses, Skipped(Left(c.conn.rx, c.toSkip)));
      assert since + headers + [] == since + headers;
    }
    more := ResponseTold(http, SkipBody(c), since, headers);
    if WhileConnecting(http, c) == SkipBody(c) {
      more := headers;
    }
  }

  lemma {:induction false} RunTold(e: Env, http: Http, c: Client, chunks: seq<seq<byte>>, since: seq<seq<byte>>,
                                   headers: seq<seq<byte>>) returns (more: seq<seq<byte>>)
    requires HeadersIn(c.uses) == since + headers && Told(http, headers, c.phase)
    ensures var d := ReceiveAll(e, http, c, chunks); HeadersIn(d.uses) == since + more && Told(http, more, d.phase)
    decreases chunks
  {
    more := headers;
    if chunks != [] {
      ReceiveAllStep(e, http, c, chunks);
      if c.phase == Connecting && !Dead(e, c.conn.session) {
        more := CallTold(http, SetRx(c, c.conn.rx + chunks[0]), since, headers);
      }
      more := RunTold(e, http, Receive(e, http, c, chunks[0]), chunks[1..], since, more);
    }
  }

  /**
   * Over every run that starts connecting, for every cut: the client is connected if and only if one of the headers it
   * recognised was answered Upgraded, and disconnecting if and only if one was refused; that header is the last one, and
   * after every other one it goes on waiting.
   */
  lemma {:induction false} PhaseTold(e: Env, http: Http, c: Client, chunks: seq<seq<byte>>) returns (headers: seq<seq<byte>>)
    requires c.phase == Connecting
    ensures var d := ReceiveAll(e, http, c, chunks);
      && HeadersIn(d.uses) == HeadersIn(c.uses) + headers
      && (d.phase == Connected <==> exists h :: h in headers && http(h) == Upgraded)
      && (d.phase == Disconnecting <==> exists h :: h in headers && (http(h).Refused? || http(h).UnauthorizedClosing?))
      && forall i :: 0 <= i < |headers| - 1 ==> http(headers[i]).Unauthorized? || http(headers[i]).Malformed?
  {
    assert HeadersIn(c.uses) + [] == HeadersIn(c.uses);
    headers := RunTold(e, http, c, chunks, HeadersIn(c.uses), []);
    assert headers != [] ==> headers[|headers| - 1] in headers;
  }

  /** A header that makes no sense is used up in any state of waiting, and nothing else changes. */
  lemma {:induction false} MalformedUsed(http: Http, c: Client, h: seq<byte>, rest: seq<byte>)
    requires c.toSkip <= 0 && c.conn.rx == h + rest && IsHeader(h) && http(h).Malformed?
    ensures WhileConnecting(http, c) == SetRx(c, rest).(uses := c.uses + [Header(h)])
  {
    assert [] + (h + rest) == h + rest;
    HeaderComplete(http, c, [], h, rest);
  }

  // ----- opening again -----

  lemma {:induction false} ReceiveGrows(e: Env, http: Http, c: Client, b: seq<byte>)
    ensures c.uses <= Receive(e, http, c, b).uses
  {
    ResponseGrows(http, SkipBody(SetRx(c, c.conn.rx + b)));
  }

  lemma {:induction false} UsesGrow(e: Env, http: Http, c: Client, chunks: seq<seq<byte>>)
    ensures c.uses <= ReceiveAll(e, http, c, chunks).uses
    decreases chunks
  {
    if chunks != [] {
      ReceiveGrows(e, http, c, chunks[0]);
      UsesGrow(e, http, Receive(e, http, c, chunks[0]), chunks[1..]);
    }
  }

  function HeaderBytes(uses: seq<Use>): nat {
    |Flatten(HeadersIn(uses))|
  }

  /** No byte counts twice. */
  lemma {:induction false} CountsOne(us: seq<Use>, u: Use)
    ensures |Used(us + [u])| == |Used(us)| + |u.bytes|
    ensures |SkippedIn(us + [u])| == |SkippedIn(us)| + if u.Skipped? then |u.bytes| else 0
    ensures HeaderBytes(us + [u]) == HeaderBytes(us) + if u.Header? then |u.bytes| else 0
  {
    UsedOne(us, u);
    SkippedOne(us, u);
    HeadersOne(us, u);
    FlattenAppend(HeadersIn(us), u.bytes);
    assert HeadersIn(us) + [] == HeadersIn(us);
  }

  lemma {:induction false} CountsGrow(us: seq<Use>, vs: seq<Use>)
    requires us <= vs
    ensures |Used(us)| - |SkippedIn(us)| - HeaderBytes(us) <= |Used(vs)| - |SkippedIn(vs)| - HeaderBytes(vs)
    ensures |SkippedIn(us)| <= |SkippedIn(vs)|
    decreases |vs|
  {
    if us != vs {
      var before := vs[..|vs| - 1];
      assert vs == before + [vs[|vs| - 1]];
      CountsGrow(us, before);
      CountsOne(before, vs[|vs| - 1]);
    }
  }

  /** Bytes that are all skipped. */
  lemma {:induction false} ReceiveSkips(e: Env, http: Http, c: Client, b: seq<byte>)
    requires c.phase == Connecting && !Dead(e, c.conn.session) && c.toSkip > 0 && c.conn.rx == []
    ensures c.uses + [Skipped(Left(b, c.toSkip))] <= Receive(e, http, c, b).uses
    ensures |b| < c.toSkip ==> Receive(e, http, c, b) == c.(toSkip := c.toSkip - |b|, uses := c.uses + [Skipped(b)])
  {
    assert c.conn.rx + b == b;
    var c1 := SetRx(c, b);
    assert SkipBody(c1).uses == c.uses + [Skipped(Left(b, c.toSkip))];
    ResponseGrows(http, SkipBody(c1));
    if |b| < c.toSkip {
      assert Left(b, c.toSkip) == b;
      assert SetRx(c, b[|b|..]) == c;
    }
  }

  lemma {:induction false} ResponseGrows(http: Http, c: Client)
    ensures c.uses <= OnResponse(http, c).uses
  {
  }

  lemma {:induction false} SkipsSome(e: Env, http: Http, c: Client, chunks: seq<seq<byte>>)
    requires c.phase == Connecting && !Dead(e, c.conn.session) && c.toSkip > 0 && c.conn.rx == [] && Flatten(chunks) != []
    ensures |SkippedIn(ReceiveAll(e, http, c, chunks).uses)| > |SkippedIn(c.uses)|
    decreases chunks
  {
    var d, first := Receive(e, http, c, chunks[0]), Skipped(Left(chunks[0], c.toSkip));
    ReceiveSkips(e, http, c, chunks[0]);
    CountsOne(c.uses, first);
    if chunks[0] == [] {
      SkipsSome(e, http, d, chunks[1..]);
    } else {
      UsesGrow(e, http, d, chunks[1..]);
      CountsGrow(c.uses + [first], ReceiveAll(e, http, d, chunks[1..]).uses);
    }
  }

  /** As long as something is to be skipped, the header that comes first is not recognised. */
  lemma {:induction false} HeaderMissed(e: Env, http: Http, c: Client, h: seq<byte>, chunks: seq<seq<byte>>)
    requires c.phase == Connecting && !Dead(e, c.conn.session) && c.toSkip > 0 && c.conn.rx == []
    requires h != [] && Flatten(chunks) == h
    ensures HeadersIn(ReceiveAll(e, http, c, chunks).uses) != HeadersIn(c.uses) + [h]
  {
    var d := ReceiveAll(e, http, c, chunks);
    UsesGrow(e, http, c, chunks);
    SkipsSome(e, http, c, chunks);
    EveryByteOnce(e, http, c, chunks);
    CountsGrow(c.uses, d.uses);
    FlattenAppend(HeadersIn(c.uses), h);
  }

  /**
   * Opening again does not forget that a body was being skipped. Whatever state the client is in: the first response
   * on the new connection is recognised, and the connection established, exactly when nothing was left to skip.
   */
  lemma {:induction false} FirstResponseSeen(e: Env, http: Http, c: Client, mask: bool, h: seq<byte>, chunks: seq<seq<byte>>)
    requires IsHeader(h) && http(h) == Upgraded && Flatten(chunks) == h
    ensures var d := ReceiveAll(e, http, OpenAgain(c, mask), chunks);
      && (HeadersIn(d.uses) == HeadersIn(c.uses) + [h] <==> c.toSkip <= 0)
      && (c.toSkip <= 0 ==> d.phase == Connected && d.conn == Reopened(c.conn, mask))
  {
    var c1 := OpenAgain(c, mask);
    if c.toSkip > 0 {
      HeaderMissed(e, http, c1, h, chunks);
    } else {
      assert c1.conn.rx + Flatten(chunks) == [] + (Wire([], h) + []);
      var lost := HandshakeAccounting(e, http, c1, [], [], h, [], chunks);
      PumpNothing(e, c1.conn);
    }
  }

  const UNAUTHORIZED: seq<byte> := [0x34, 0x30, 0x31, 0x0D, 0x0A, 0x0D, 0x0A]
  const SWITCHING: seq<byte> := [0x31, 0x30, 0x31, 0x0D, 0x0A, 0x0D, 0x0A]

  lemma {:induction false} ShortHeader(h: seq<byte>)
    requires h == UNAUTHORIZED || h == SWITCHING
    ensures IsHeader(h)
  {
    assert h[3..7] == END_OF_HEADER && h[0..4][0] != 0x0D && h[1..5][0] != 0x0D && h[2..6][0] != 0x0D;
    assert HeaderLength(h, 1) == HeaderLength(h, 2) == HeaderLength(h, 3) == Some(7);
  }

  /**
   * A run in which that happens: a 401 that announces 100 bytes, two of them, opening again, and a 101. Its header is
   * taken for a part of the old body, and the client goes on waiting.
   */
  lemma {:induction false} ReopenedTooEarly(e: Env, c: Client, mask: bool)
    requires c.phase == Connecting && !Dead(e, c.conn.session) && c.toSkip == 0 && c.conn.rx == []
    ensures var http := (h: seq<byte>) => if h == SWITCHING then Upgraded else Unauthorized(100);
      var c1 := OpenAgain(ReceiveAll(e, http, c, [UNAUTHORIZED, [0x3C, 0x68]]), mask);
      var d := ReceiveAll(e, http, c1, [SWITCHING]);
      && c1.toSkip == 98 && HeadersIn(c1.uses) == HeadersIn(c.uses) + [UNAUTHORIZED]
      && d.phase == Connecting && d.toSkip == 91 && HeadersIn(d.uses) == HeadersIn(c1.uses)
  {
    var http := (h: seq<byte>) => if h == SWITCHING then Upgraded else Unauthorized(100);
    var c1 := c.(toSkip := 100, requests := c.requests + 1, uses := c.uses + [Header(UNAUTHORIZED)]);
    ReceiveUnauthorized(e, http, c, UNAUTHORIZED, 100);
    ReceiveSkips(e, http, c1, [0x3C, 0x68]);
    var c2 := c1.(toSkip := 98, uses := c1.uses + [Skipped([0x3C, 0x68])]);
    ReceiveTwo(e, http, c, UNAUTHORIZED, [0x3C, 0x68]);
    ReceiveSkips(e, http, OpenAgain(c2, mask), SWITCHING);
    ReceiveAllStep(e, http, OpenAgain(c2, mask), [SWITCHING]);
    assert [SWITCHING][1..] == [];
    HeadersOne(c.uses, Header(UNAUTHORIZED));
    HeadersOne(c1.uses, Skipped([0x3C, 0x68]));
    HeadersOne(c2.uses, Skipped(SWITCHING));
  }

  lemma {:induction false} ReceiveTwo(e: Env, http: Http, c: Client, a: seq<byte>, b: seq<byte>)
    ensures ReceiveAll(e, http, c, [a, b]) == Receive(e, http, Receive(e, http, c, a), b)
  {
    assert [a, b][1..] == [b] && [b][1..] == [];
    ReceiveAllStep(e, http, c, [a, b]);
    ReceiveAllStep(e, http, Receive(e, http, c, a), [b]);
  }

  lemma {:induction false} ReceiveUnauthorized(e: Env, http: Http, c: Client, h: seq<byte>, n: nat)
    requires c.phase == Connecting && !Dead(e, c.conn.session) && c.toSkip == 0 && c.conn.rx == []
    requires h == UNAUTHORIZED && http(h) == Unauthorized(n)
    ensures Receive(e, http, c, h) == c.(toSkip := n, requests := c.requests + 1, uses := c.uses + [Header(h)])
  {
    ShortHeader(h);
    assert c.conn.rx + h == [] + (h + []) == h;
    var c1 := SetRx(c, h);
    HeaderComplete(http, c1, [], h, []);
    assert SkipBody(c1) == c1 && SetRx(c1, []) == c;
    var d := c.(uses := c.uses + [Header(h)]);
    assert WhileConnecting(http, c1) == OnReply(d, Unauthorized(n)) == d.(toSkip := n, requests := d.requests + 1);
    assert Receive(e, http, c, h) == ProcessData(e, http, c1);
  }
}
