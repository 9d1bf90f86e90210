/** The frame reader as a machine that absorbs one field at a time and waits while the field is incomplete. */
module Reader {
  import opened Bytes
  import opened Protocol
  import opened Frames

  /** What has been read of a frame so far. */
  datatype FrameState =
    | AtHeader
    | AtLength(fin: bool, opCode: OpCode, masked: bool, field: nat)
    | AtMask(fin: bool, opCode: OpCode, length: nat)
    | AtPayload(fin: bool, opCode: OpCode, key: u32, length: nat)
    | Complete(frame: Frame)
    | Refused(reason: ErrorText)
  {
    predicate Done() { Complete? || Refused? }
  }

  /** How many bytes the current field takes. */
  function Need(s: FrameState, limit: nat): nat {
    match s
    case AtHeader => 2
    case AtLength(_, _, _, field) => if field == 126 then 2 else 8
    case AtMask(_, _, _) => 4
    case AtPayload(_, _, _, length) => if length > limit then 0 else length
    case _ => 0
  }

  function Rank(s: FrameState): nat {
    match s
    case AtHeader => 4
    case AtLength(_, _, _, _) => 3
    case AtMask(_, _, _) => 2
    case AtPayload(_, _, _, _) => 1
    case _ => 0
  }

  /** The first rule of section 5.2 or 5.5 that the first two bytes break. */
  function Objection(rsv: bool, fin: bool, opCode: OpCode, field: nat): ErrorText {
    if rsv then RsvNonZero
    else if IsOpCodeReserved(opCode) then ReservedOpCode
    else if IsControl(opCode) && field > 125 then ControlTooLarge
    else if IsControl(opCode) && !fin then ControlFragmented
    else NoText
  }

  function AfterLength(fin: bool, opCode: OpCode, masked: bool, n: nat): FrameState {
    if masked then AtMask(fin, opCode, n) else AtPayload(fin, opCode, 0, n)
  }

  function Fin(b: byte): bool { b / 0x80 == 1 }
  function Rsv(b: byte): bool { b / 0x10 % 8 != 0 }
  function OpCodeOf(b: byte): OpCode { b % 0x10 }
  function MaskBit(b: byte): bool { b / 0x80 == 1 }
  function Field(b: byte): nat { b % 0x80 }

  function AbsorbHeader(b: seq<byte>): (t: FrameState)
    requires |b| == 2
    ensures Rank(t) < 4
  {
    var fin, opCode, masked, field := Fin(b[0]), OpCodeOf(b[0]), MaskBit(b[1]), Field(b[1]);
    var objection := Objection(Rsv(b[0]), fin, opCode, field);
    if objection != NoText then Refused(objection)
    else if field >= 126 then AtLength(fin, opCode, masked, field)
    else AfterLength(fin, opCode, masked, field)
  }

  function AbsorbLength(s: FrameState, n: nat): (t: FrameState)
    requires s.AtLength?
    ensures Rank(t) < 3
  {
    if s.field == 126 && n < 126 then Refused(Length16NotMinimal)
    else if s.field != 126 && n > MAX_PAYLOAD_LENGTH then Refused(LengthHighBit)
    else if s.field != 126 && n <= 0xFFFF then Refused(Length64NotMinimal)
    else AfterLength(s.fin, s.opCode, s.masked, n)
  }

  function AbsorbPayload(s: FrameState, b: seq<byte>, limit: nat): (t: FrameState)
    requires s.AtPayload?
    ensures Rank(t) == 0
  {
    if s.length > limit then Refused(FrameTooLarge)
    else Complete(Frame(s.fin, s.opCode, s.key, Mask(b, s.key)))
  }

  /** One field, given exactly the bytes it takes. */
  function Absorb(s: FrameState, b: seq<byte>, limit: nat): (t: FrameState)
    requires |b| == Need(s, limit) && !s.Done()
    ensures Rank(t) < Rank(s)
  {
    match s
    case AtHeader => AbsorbHeader(b)
    case AtLength(_, _, _, _) => AbsorbLength(s, FromBigEndian(b))
    case AtMask(fin, opCode, length) =>
      Widths();
      AtPayload(fin, opCode, FromBigEndian(b), length)
    case AtPayload(_, _, _, _) => AbsorbPayload(s, b, limit)
  }

  predicate Blocked(s: FrameState, buf: seq<byte>, limit: nat) {
    s.Done() || |buf| < Need(s, limit)
  }

  /** Reads as far as the buffered bytes allow; what is not read stays in the buffer. */
  function Run(s: FrameState, buf: seq<byte>, limit: nat): (FrameState, seq<byte>)
    decreases Rank(s)
  {
    if Blocked(s, buf, limit) then (s, buf)
    else
      var n := Need(s, limit);
      Run(Absorb(s, buf[..n], limit), buf[n..], limit)
  }

  lemma {:induction false} RunAdvance(s: FrameState, buf: seq<byte>, limit: nat)
    ensures Blocked(s, buf, limit) ==> Run(s, buf, limit) == (s, buf)
    ensures !Blocked(s, buf, limit) ==>
      var n := Need(s, limit); Run(s, buf, limit) == Run(Absorb(s, buf[..n], limit), buf[n..], limit)
  {
  }

  // ----- what every reachable state satisfies -----

  /** The close code that goes with the reason for refusing a frame. */
  function RefusalCode(reason: ErrorText): int {
    if reason == FrameTooLarge then CLOSE_TOO_MUCH_DATA else CLOSE_PROTOCOL_ERROR
  }

  predicate HeaderAllowed(fin: bool, opCode: OpCode, n: nat) {
    !IsOpCodeReserved(opCode) && (IsControl(opCode) ==> fin && n <= 125)
  }

  predicate Sound(s: FrameState) {
    match s
    case AtHeader => true
    case AtLength(fin, opCode, _, field) => field in {126, 127} && HeaderAllowed(fin, opCode, field)
    case AtMask(fin, opCode, length) => HeaderAllowed(fin, opCode, length)
    case AtPayload(fin, opCode, _, length) => HeaderAllowed(fin, opCode, length)
    case Complete(f) => HeaderAllowed(f.fin, f.opCode, |f.payload|)
    case Refused(reason) => reason != NoText
  }

  /** Finished frames keep to the limits of their kind, from whichever stage the reader is resumed. */
  lemma {:induction false} RunSound(s: FrameState, buf: seq<byte>, limit: nat)
    requires Sound(s)
    ensures Sound(Run(s, buf, limit).0)
    decreases Rank(s)
  {
    if Blocked(s, buf, limit) {
    } else {
      var n := Need(s, limit);
      RunSound(Absorb(s, buf[..n], limit), buf[n..], limit);
    }
  }

  // ----- segmentation -----

  /** The result does not depend on how many bytes had arrived when the reader was first called. */
  lemma {:induction false} RunSplit(s: FrameState, a: seq<byte>, b: seq<byte>, limit: nat)
    ensures var (t, rest) := Run(s, a, limit); Run(s, a + b, limit) == Run(t, rest + b, limit)
    decreases Rank(s)
  {
    if Blocked(s, a, limit) {
    } else {
      var n := Need(s, limit);
      assert (a + b)[..n] == a[..n] && (a + b)[n..] == a[n..] + b;
      RunSplit(Absorb(s, a[..n], limit), a[n..], b, limit);
    }
  }

  /** What the reader leaves is the end of what it was given, and it stops only when done or short of bytes. */
  lemma {:induction false} RunProgress(s: FrameState, buf: seq<byte>, limit: nat)
    ensures var (t, rest) := Run(s, buf, limit);
      && |rest| <= |buf| && rest == buf[|buf| - |rest|..]
      && (t.Done() || |rest| < Need(t, limit))
      && (t != s ==> |rest| <= |buf| - Need(s, limit))
    decreases Rank(s)
  {
    if Blocked(s, buf, limit) {
    } else {
      var n := Need(s, limit);
      RunProgress(Absorb(s, buf[..n], limit), buf[n..], limit);
    }
  }

  // ----- the reader inverts the writer -----

  lemma {:induction false} RunStep(s: FrameState, b: seq<byte>, tail: seq<byte>, limit: nat)
    requires !s.Done() && |b| == Need(s, limit)
    ensures Run(s, b + tail, limit) == Run(Absorb(s, b, limit), tail, limit)
  {
    assert (b + tail)[..|b|] == b && (b + tail)[|b|..] == tail;
  }

  /** The two bytes that start every frame. */
  function FixedPart(fin: bool, opCode: OpCode, masked: bool, field: nat): (b: seq<byte>)
    requires field < 128
    ensures |b| == 2
  {
    [(if fin then 0x80 else 0) + opCode, (if masked then 0x80 else 0) + field]
  }

  lemma {:induction false} FixedPartFields(fin: bool, opCode: OpCode, masked: bool, field: nat)
    requires field < 128
    ensures var b := FixedPart(fin, opCode, masked, field);
      Fin(b[0]) == fin && !Rsv(b[0]) && OpCodeOf(b[0]) == opCode && MaskBit(b[1]) == masked && Field(b[1]) == field
  {
  }

  lemma {:induction false} FixedPartUnique(b: seq<byte>)
    requires |b| == 2 && !Rsv(b[0])
    ensures b == FixedPart(Fin(b[0]), OpCodeOf(b[0]), MaskBit(b[1]), Field(b[1]))
  {
    assert b[0] == b[0] / 0x10 * 0x10 + b[0] % 0x10;
  }

  function KeyPart(key: u32, masked: bool): seq<byte> {
    if masked then ToBigEndian(key, 4) else []
  }

  lemma {:induction false} Regroup<T>(a: seq<T>, b: seq<T>, c: seq<T>, d: seq<T>, e: seq<T>)
    ensures ((a + b + c) + d) + e == a + (b + (c + (d + e)))
  {
  }

  lemma {:induction false} Layout(f: Frame, masked: bool, tail: seq<byte>)
    ensures var n := |f.payload|;
      && LengthField(n) < 128
      && FrameBytes(f, masked) + tail
      == FixedPart(f.fin, f.opCode, masked, LengthField(n))
         + (ExtendedLength(n) + (KeyPart(f.key, masked) + (Mask(f.payload, f.key) + tail)))
  {
    var n := |f.payload|;
    Regroup(FixedPart(f.fin, f.opCode, masked, LengthField(n)), ExtendedLength(n), KeyPart(f.key, masked),
            Mask(f.payload, f.key), tail);
  }

  lemma {:induction false} ReadsLength(s: FrameState, n: nat, tail: seq<byte>, limit: nat)
    requires s.AtLength? && s.field == LengthField(n) && 125 < n <= MAX_PAYLOAD_LENGTH
    ensures Run(s, ExtendedLength(n) + tail, limit) == Run(AfterLength(s.fin, s.opCode, s.masked, n), tail, limit)
  {
    var width := if n <= 0xFFFF then 2 else 8;
    Widths();
    BigEndianRoundTrip(n, width);
    RunStep(s, ToBigEndian(n, width), tail, limit);
  }

  lemma {:induction false} ReadsHeader(fin: bool, opCode: OpCode, masked: bool, n: nat, tail: seq<byte>, limit: nat)
    requires HeaderAllowed(fin, opCode, n) && n <= MAX_PAYLOAD_LENGTH
    ensures LengthField(n) < 128
    ensures Run(AtHeader, FixedPart(fin, opCode, masked, LengthField(n)) + (ExtendedLength(n) + tail), limit)
         == Run(AfterLength(fin, opCode, masked, n), tail, limit)
  {
    var b := FixedPart(fin, opCode, masked, LengthField(n));
    FixedPartFields(fin, opCode, masked, LengthField(n));
    RunStep(AtHeader, b, ExtendedLength(n) + tail, limit);
    if n <= 125 {
      assert ExtendedLength(n) + tail == tail;
    } else {
      ReadsLength(AbsorbHeader(b), n, tail, limit);
    }
  }

  lemma {:induction false} ReadsKey(fin: bool, opCode: OpCode, n: nat, key: u32, masked: bool, tail: seq<byte>, limit: nat)
    requires key != 0 ==> masked
    ensures Run(AfterLength(fin, opCode, masked, n), KeyPart(key, masked) + tail, limit)
         == Run(AtPayload(fin, opCode, key, n), tail, limit)
  {
    if masked {
      Widths();
      BigEndianRoundTrip(key, 4);
      RunStep(AtMask(fin, opCode, n), KeyPart(key, masked), tail, limit);
    } else {
      assert KeyPart(key, masked) + tail == tail;
    }
  }

  lemma {:induction false} ReadsPayload(f: Frame, tail: seq<byte>, limit: nat)
    requires |f.payload| <= limit
    ensures Run(AtPayload(f.fin, f.opCode, f.key, |f.payload|), Mask(f.payload, f.key) + tail, limit) == (Complete(f), tail)
  {
    RunStep(AtPayload(f.fin, f.opCode, f.key, |f.payload|), Mask(f.payload, f.key), tail, limit);
    MaskInvolutive(f.payload, f.key);
  }

  /** Every legal frame, masked with any key or not masked, is read back whole, and nothing after it is touched. */
  lemma {:induction false} FrameRoundTrip(f: Frame, masked: bool, tail: seq<byte>, limit: nat)
    requires f.Legal(limit) && (f.key != 0 ==> masked)
    ensures Run(AtHeader, FrameBytes(f, masked) + tail, limit) == (Complete(f), tail)
  {
    var rest := Mask(f.payload, f.key) + tail;
    Layout(f, masked, tail);
    ReadsHeader(f.fin, f.opCode, masked, |f.payload|, KeyPart(f.key, masked) + rest, limit);
    ReadsKey(f.fin, f.opCode, |f.payload|, f.key, masked, rest, limit);
    ReadsPayload(f, tail, limit);
  }

  /** A frame that is cut anywhere is waited for: it is neither finished nor refused. */
  lemma {:induction false} PartWaits(f: Frame, masked: bool, n: nat, limit: nat)
    requires f.Legal(limit) && (f.key != 0 ==> masked) && n < |FrameBytes(f, masked)|
    ensures !Run(AtHeader, FrameBytes(f, masked)[..n], limit).0.Done()
  {
    var bytes := FrameBytes(f, masked);
    assert bytes == bytes[..n] + bytes[n..] == bytes + [];
    FrameRoundTrip(f, masked, [], limit);
    RunSplit(AtHeader, bytes[..n], bytes[n..], limit);
  }

  // ----- what is refused -----

  /**
   * Which first two bytes are refused, whatever follows: reserved bits, reserved opcodes, and control frames that are
   * long or not final.
   */
  lemma {:induction false} HeaderRefused(b: seq<byte>, tail: seq<byte>, limit: nat)
    requires |b| == 2
    ensures var opCode := b[0] % 16;
      if b[0] / 16 % 8 != 0 || opCode !in {0, 1, 2, 8, 9, 10} || (opCode >= 8 && (b[0] < 128 || b[1] % 128 > 125))
      then exists reason ::
        reason != NoText && reason != FrameTooLarge && Run(AtHeader, b + tail, limit) == (Refused(reason), tail)
      else Run(AtHeader, b + tail, limit) == Run(AbsorbHeader(b), tail, limit) && !AbsorbHeader(b).Done()
  {
    RunStep(AtHeader, b, tail, limit);
  }

  /** Which longer lengths are refused: those that fit a shorter form, and those with the highest bit set. */
  lemma {:induction false} LengthRefused(s: FrameState, b: seq<byte>, tail: seq<byte>, limit: nat)
    requires s.AtLength? && s.field in {126, 127} && |b| == if s.field == 126 then 2 else 8
    ensures var n := FromBigEndian(b);
      if s.field == 126 then
        Run(s, b + tail, limit)
        == if n < 126 then (Refused(Length16NotMinimal), tail)
           else Run(AfterLength(s.fin, s.opCode, s.masked, n), tail, limit)
      else
        Run(s, b + tail, limit)
        == if n >= 0x8000_0000_0000_0000 then (Refused(LengthHighBit), tail)
           else if n < 0x1_0000 then (Refused(Length64NotMinimal), tail)
           else Run(AfterLength(s.fin, s.opCode, s.masked, n), tail, limit)
  {
    RunStep(s, b, tail, limit);
  }

  /** A payload over the limit is refused as soon as its header has arrived, and none of its bytes is taken. */
  lemma {:induction false} OversizedRefused(fin: bool, opCode: OpCode, masked: bool, key: u32, n: nat, tail: seq<byte>,
                                            limit: nat)
    requires HeaderAllowed(fin, opCode, n) && limit < n < 0x8000_0000_0000_0000 && (key != 0 ==> masked)
    ensures Run(AtHeader, HeaderBytes(fin, opCode, masked, key, n) + tail, limit) == (Refused(FrameTooLarge), tail)
  {
    var rest := KeyPart(key, masked) + tail;
    assert LengthField(n) < 128;
    Regroup(FixedPart(fin, opCode, masked, LengthField(n)), ExtendedLength(n), KeyPart(key, masked), tail, []);
    assert HeaderBytes(fin, opCode, masked, key, n) + tail + [] == HeaderBytes(fin, opCode, masked, key, n) + tail;
    assert tail + [] == tail;
    ReadsHeader(fin, opCode, masked, n, rest, limit);
    ReadsKey(fin, opCode, n, key, masked, tail, limit);
    RunStep(AtPayload(fin, opCode, key, n), [], tail, limit);
    assert [] + tail == tail;
  }

  /** The codes that go with it. */
  lemma {:induction false} RefusalCodes(reason: ErrorText)
    ensures RefusalCode(reason) == if reason == FrameTooLarge then 1009 else 1002
  {
  }

  // ----- only what the writer could have written is accepted -----

  predicate Accepts(s: FrameState, buf: seq<byte>, limit: nat) {
    Run(s, buf, limit).0.Complete?
  }

  lemma {:induction false} AcceptsPayload(s: FrameState, buf: seq<byte>, limit: nat) returns (payload: seq<byte>)
    requires s.AtPayload? && Accepts(s, buf, limit)
    ensures |payload| == s.length <= limit
    ensures Run(s, buf, limit).0 == Complete(Frame(s.fin, s.opCode, s.key, payload))
    ensures buf == Mask(payload, s.key) + Run(s, buf, limit).1
  {
    var n := Need(s, limit);
    assert Run(s, buf, limit) == (AbsorbPayload(s, buf[..n], limit), buf[n..]);
    payload := Mask(buf[..n], s.key);
    MaskInvolutive(buf[..n], s.key);
  }

  /** After the length: the key, if one is announced, the masked payload, and what the reader leaves. */
  lemma {:induction false} AcceptsBody(fin: bool, opCode: OpCode, masked: bool, n: nat, buf: seq<byte>, limit: nat)
    returns (f: Frame)
    requires Accepts(AfterLength(fin, opCode, masked, n), buf, limit)
    ensures f == Frame(fin, opCode, f.key, f.payload) && |f.payload| == n <= limit && (f.key != 0 ==> masked)
    ensures var (t, rest) := Run(AfterLength(fin, opCode, masked, n), buf, limit);
      t == Complete(f) && buf == KeyPart(f.key, masked) + (Mask(f.payload, f.key) + rest)
  {
    var p, tail := AtPayload(fin, opCode, 0, n), buf;
    if masked {
      p, tail := Absorb(AtMask(fin, opCode, n), buf[..4], limit), buf[4..];
      assert Run(AtMask(fin, opCode, n), buf, limit) == Run(p, tail, limit);
      BigEndianUnique(buf[..4]);
    }
    var payload := AcceptsPayload(p, tail, limit);
    f := Frame(fin, opCode, p.key, payload);
  }

  lemma {:induction false} AcceptsLength(s: FrameState, buf: seq<byte>, limit: nat) returns (n: nat, tail: seq<byte>)
    requires s.AtLength? && s.field in {126, 127} && Accepts(s, buf, limit)
    ensures 125 < n <= MAX_PAYLOAD_LENGTH && s.field == LengthField(n) && buf == ExtendedLength(n) + tail
    ensures Run(s, buf, limit) == Run(AfterLength(s.fin, s.opCode, s.masked, n), tail, limit)
  {
    Widths();
    var ext := buf[..Need(s, limit)];
    n, tail := FromBigEndian(ext), buf[|ext|..];
    assert Run(s, buf, limit) == Run(AbsorbLength(s, n), tail, limit);
    assert !AbsorbLength(s, n).Refused?;
    BigEndianUnique(ext);
  }

  lemma {:induction false} AcceptsHeader(buf: seq<byte>, limit: nat)
    returns (fin: bool, opCode: OpCode, masked: bool, n: nat, tail: seq<byte>)
    requires Accepts(AtHeader, buf, limit)
    ensures LengthField(n) < 128 && n <= MAX_PAYLOAD_LENGTH
    ensures |buf| >= 2 && masked == MaskBit(buf[1])
    ensures buf == FixedPart(fin, opCode, masked, LengthField(n)) + (ExtendedLength(n) + tail)
    ensures !IsOpCodeReserved(opCode) && (IsControl(opCode) ==> fin && n <= 125)
    ensures Run(AtHeader, buf, limit) == Run(AfterLength(fin, opCode, masked, n), tail, limit)
  {
    assert |buf| >= 2;
    var s := AbsorbHeader(buf[..2]);
    assert Run(AtHeader, buf, limit) == Run(s, buf[2..], limit);
    assert !s.Refused?;
    FixedPartUnique(buf[..2]);
    fin, opCode, masked, n, tail := Fin(buf[0]), OpCodeOf(buf[0]), MaskBit(buf[1]), Field(buf[1]), buf[2..];
    if s.AtLength? {
      n, tail := AcceptsLength(s, tail, limit);
    }
  }

  /**
   * Canonical acceptance: the reader accepts the bytes as a frame only if they are that frame as section 5.2
   * prescribes it, with the shortest length form, followed by what the reader leaves.
   */
  lemma {:induction false} CanonicalAcceptance(buf: seq<byte>, limit: nat) returns (f: Frame, masked: bool)
    requires Accepts(AtHeader, buf, limit)
    ensures |buf| >= 2 && masked == MaskBit(buf[1])
    ensures f.Legal(limit) && (f.key != 0 ==> masked)
    ensures Run(AtHeader, buf, limit).0 == Complete(f)
    ensures buf == FrameBytes(f, masked) + Run(AtHeader, buf, limit).1
  {
    var fin, opCode, m, n, tail := AcceptsHeader(buf, limit);
    masked := m;
    f := AcceptsBody(fin, opCode, masked, n, tail, limit);
    Layout(f, masked, Run(AtHeader, buf, limit).1);
  }

  /**
   * Encoding the accepted frame again gives the bytes that were read exactly when the mask bit did not come with a key
   * of four zero bytes; so no two other encodings of one frame are accepted.
   */
  lemma {:induction false} ReencodingReproduces(buf: seq<byte>, limit: nat) returns (f: Frame)
    requires Accepts(AtHeader, buf, limit)
    ensures |buf| >= 2 && f.Legal(limit) && Run(AtHeader, buf, limit).0 == Complete(f)
    ensures buf == Encode(f) + Run(AtHeader, buf, limit).1 <==> !(MaskBit(buf[1]) && f.key == 0)
  {
    var g, masked := CanonicalAcceptance(buf, limit);
    f := g;
    var rest := Run(AtHeader, buf, limit).1;
    Layout(f, f.key != 0, rest);
    FixedPartFields(f.fin, f.opCode, f.key != 0, LengthField(|f.payload|));
  }
}
