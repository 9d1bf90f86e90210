/** Opcodes, close codes and the in-place masking routine. */
module Protocol {
  import opened Bytes

  type OpCode = x: int | 0 <= x < 16

  const OP_CONTINUE: OpCode := 0x0
  const OP_TEXT: OpCode := 0x1
  const OP_BINARY: OpCode := 0x2
  const OP_CLOSE: OpCode := 0x8
  const OP_PING: OpCode := 0x9
  const OP_PONG: OpCode := 0xA
  const OP_RESERVED_C: OpCode := 0xC

  const CLOSE_NORMAL := 1000
  const CLOSE_GOING_AWAY := 1001
  const CLOSE_PROTOCOL_ERROR := 1002
  const CLOSE_RESERVED_1004 := 1004
  const CLOSE_MISSING_STATUS_CODE := 1005
  const CLOSE_ABNORMAL_DISCONNECTION := 1006
  const CLOSE_WRONG_DATATYPE := 1007
  const CLOSE_TOO_MUCH_DATA := 1009

  const MAX_PAYLOAD_LENGTH: nat := 0x7FFF_FFFF_FFFF_FFFF
  const MAX_SIZE_IN_BYTES: nat := 0x7FFF_FFFE

  predicate IsOpCodeReserved(code: OpCode) {
    (OP_BINARY < code < OP_CLOSE) || code > OP_PONG
  }

  /** Bit 3 of the opcode is set. */
  predicate IsControl(code: OpCode) {
    code / 8 % 2 == 1
  }

  predicate IsCloseCodeValid(code: int) {
    && 999 < code < 5000
    && code != CLOSE_RESERVED_1004
    && code != CLOSE_MISSING_STATUS_CODE
    && code != CLOSE_ABNORMAL_DISCONNECTION
    && (code >= 3000 || code < 1012)
  }

  /** Section 11.8 of RFC 6455: the opcodes in use, and which of them are for control frames. */
  lemma {:induction false} OpCodeTable(code: OpCode)
    ensures !IsOpCodeReserved(code) <==> code in {0x0, 0x1, 0x2, 0x8, 0x9, 0xA}
    ensures IsControl(code) <==> code in {0x8, 0x9, 0xA, 0xB, 0xC, 0xD, 0xE, 0xF}
  {
  }

  /** Section 7.4 of RFC 6455: the codes that a Close frame may carry. */
  lemma {:induction false} CloseCodeTable(code: int)
    ensures IsCloseCodeValid(code)
       <==> code in {1000, 1001, 1002, 1003, 1007, 1008, 1009, 1010, 1011} || 3000 <= code <= 4999
  {
  }

  /** The places where the library makes up a description of an error. */
  datatype ErrorText =
    | NoText
    | RsvNonZero
    | ReservedOpCode
    | ControlTooLarge
    | ControlFragmented
    | Length16NotMinimal
    | LengthHighBit
    | Length64NotMinimal
    | FrameTooLarge
    | NothingToContinue
    | ContinuationExpected
    | MessageTooBig
    | InvalidUtf8
    | CloseTooSmall
    | CloseCodeInvalid
    | ReadTimeout

  /** Combines size bytes of the buffer, from position start on, with the key, beginning at its first byte. */
  method MaskInPlace(buffer: array<byte>, start: nat, size: nat, key: u32)
    requires start + size <= buffer.Length
    modifies buffer
    ensures buffer[..start] == old(buffer[..start])
    ensures buffer[start..start + size] == Mask(old(buffer[start..start + size]), key)
    ensures buffer[start + size..] == old(buffer[start + size..])
  {
    var mask := [key / 0x100_0000, key / 0x1_0000 % 0x100, key / 0x100 % 0x100, key % 0x100];
    KeyBytes(key);
    ghost var before := buffer[start..start + size];
    var i := 0;
    while i < size
      invariant 0 <= i <= size
      invariant forall j :: 0 <= j < start || start + i <= j < buffer.Length ==> buffer[j] == old(buffer[j])
      invariant forall j :: 0 <= j < i ==> buffer[start + j] == Xor(before[j], KeyByte(key, j % 4))
    {
      buffer[start + i] := Xor(buffer[start + i], mask[i % 4]);
      i := i + 1;
    }
    assert |before| == size;
    assert buffer[start..start + size] == Mask(before, key);
  }

  /** A masked copy. */
  method Masked(payload: seq<byte>, key: u32) returns (m: seq<byte>)
    ensures m == Mask(payload, key)
  {
    var buffer := new byte[|payload|](i requires 0 <= i < |payload| => payload[i]);
    assert buffer[0..buffer.Length] == payload;
    MaskInPlace(buffer, 0, buffer.Length, key);
    m := buffer[0..buffer.Length];
  }
}
