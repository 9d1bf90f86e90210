/** The example frames of section 5.7 of RFC 6455, byte by byte. */
module Samples {
  import opened Bytes
  import opened Protocol
  import opened Frames

  const HELLO: seq<byte> := [0x48, 0x65, 0x6C, 0x6C, 0x6F]
  const KEY: u32 := 0x37FA_213D
  const MASKED_HELLO: seq<byte> := [0x7F, 0x9F, 0x4D, 0x51, 0x58]

  // The five bytes of the masked text, bit by bit.

  lemma {:induction false} MaskedH()
    ensures Xor(0x48, 0x37) == 0x7F
  {
    assert XorBits(0, 0, 1) == 0 && XorBits(1, 0, 2) == 1 && XorBits(2, 1, 3) == 3 && XorBits(4, 3, 4) == 7;
    assert XorBits(9, 6, 5) == 15 && XorBits(18, 13, 6) == 31 && XorBits(36, 27, 7) == 63;
  }

  lemma {:induction false} MaskedE()
    ensures Xor(0x65, 0xFA) == 0x9F
  {
    assert XorBits(0, 1, 1) == 1 && XorBits(1, 3, 2) == 2 && XorBits(3, 7, 3) == 4 && XorBits(6, 15, 4) == 9;
    assert XorBits(12, 31, 5) == 19 && XorBits(25, 62, 6) == 39 && XorBits(50, 125, 7) == 79;
  }

  lemma {:induction false} MaskedL()
    ensures Xor(0x6C, 0x21) == 0x4D
  {
    assert XorBits(0, 0, 1) == 0 && XorBits(1, 0, 2) == 1 && XorBits(3, 1, 3) == 2 && XorBits(6, 2, 4) == 4;
    assert XorBits(13, 4, 5) == 9 && XorBits(27, 8, 6) == 19 && XorBits(54, 16, 7) == 38;
  }

  lemma {:induction false} MaskedLAgain()
    ensures Xor(0x6C, 0x3D) == 0x51
  {
    assert XorBits(0, 0, 1) == 0 && XorBits(1, 0, 2) == 1 && XorBits(3, 1, 3) == 2 && XorBits(6, 3, 4) == 5;
    assert XorBits(13, 7, 5) == 10 && XorBits(27, 15, 6) == 20 && XorBits(54, 30, 7) == 40;
  }

  lemma {:induction false} MaskedO()
    ensures Xor(0x6F, 0x37) == 0x58
  {
    assert XorBits(0, 0, 1) == 0 && XorBits(1, 0, 2) == 1 && XorBits(3, 1, 3) == 2 && XorBits(6, 3, 4) == 5;
    assert XorBits(13, 6, 5) == 11 && XorBits(27, 13, 6) == 22 && XorBits(55, 27, 7) == 44;
  }

  lemma {:induction false} SampleMask()
    ensures Mask(HELLO, KEY) == MASKED_HELLO
  {
    SampleKey();
    MaskedH();
    MaskedE();
    MaskedL();
    MaskedLAgain();
    MaskedO();
    var m := Mask(HELLO, KEY);
    assert m[0] == Xor(HELLO[0], KeyByte(KEY, 0)) && m[1] == Xor(HELLO[1], KeyByte(KEY, 1));
    assert m[2] == Xor(HELLO[2], KeyByte(KEY, 2)) && m[3] == Xor(HELLO[3], KeyByte(KEY, 3));
    assert m[4] == Xor(HELLO[4], KeyByte(KEY, 0));
  }

  lemma {:induction false} SampleKey()
    ensures ToBigEndian(KEY, 4) == [0x37, 0xFA, 0x21, 0x3D]
  {
    KeyBytes(KEY);
  }

  /** Text and control frames that are not masked. */
  lemma {:induction false} SampleFrames()
    ensures Encode(Frame(true, OP_TEXT, 0, HELLO)) == [0x81, 0x05, 0x48, 0x65, 0x6C, 0x6C, 0x6F]
    ensures Encode(Frame(false, OP_TEXT, 0, HELLO[..3])) == [0x01, 0x03, 0x48, 0x65, 0x6C]
    ensures Encode(Frame(true, OP_CONTINUE, 0, HELLO[3..])) == [0x80, 0x02, 0x6C, 0x6F]
    ensures Encode(Frame(true, OP_PING, 0, HELLO)) == [0x89, 0x05, 0x48, 0x65, 0x6C, 0x6C, 0x6F]
  {
    MaskZero(HELLO);
    MaskZero(HELLO[..3]);
    MaskZero(HELLO[3..]);
  }

  /** A text frame and a pong that are masked. */
  lemma {:induction false} SampleMaskedFrames()
    ensures Encode(Frame(true, OP_TEXT, KEY, HELLO)) == [0x81, 0x85, 0x37, 0xFA, 0x21, 0x3D, 0x7F, 0x9F, 0x4D, 0x51, 0x58]
    ensures Encode(Frame(true, OP_PONG, KEY, HELLO)) == [0x8A, 0x85, 0x37, 0xFA, 0x21, 0x3D, 0x7F, 0x9F, 0x4D, 0x51, 0x58]
  {
    SampleMask();
    SampleKey();
  }

  /** 256 bytes, and 64 KiB, of binary data in one frame that is not masked. */
  lemma {:induction false} SampleLengths()
    ensures HeaderBytes(true, OP_BINARY, false, 0, 256) == [0x82, 0x7E, 0x01, 0x00]
    ensures HeaderBytes(true, OP_BINARY, false, 0, 65536) == [0x82, 0x7F, 0, 0, 0, 0, 0, 1, 0, 0]
  {
    LengthLayout(256);
    HeaderLayout(true, OP_BINARY, false, 0, 256);
    assert ToBigEndian(65536, 8) == ToBigEndian(256, 7) + [0] == ToBigEndian(1, 6) + [0, 0] == ToBigEndian(0, 5) + [1, 0, 0];
    assert ToBigEndian(0, 5) == [0, 0, 0, 0, 0];
  }
}
