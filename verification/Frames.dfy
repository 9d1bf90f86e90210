/** Frames on the wire, as section 5.2 of RFC 6455 lays them out. */
module Frames {
  import opened Bytes
  import opened Protocol

  /** One frame with its payload in the clear. A key of 0 means that no key is sent. */
  datatype Frame = Frame(fin: bool, opCode: OpCode, key: u32, payload: seq<byte>) {

    /** What the protocol allows to be sent as one frame of at most limit payload bytes. */
    predicate Legal(limit: nat) {
      && !IsOpCodeReserved(opCode)
      && (IsControl(opCode) ==> fin && |payload| <= 125)
      && |payload| <= Min(limit, MAX_PAYLOAD_LENGTH)
    }
  }

  /** The seven-bit length field. */
  function LengthField(n: nat): nat {
    if n <= 125 then n else if n <= 0xFFFF then 126 else 127
  }

  /** The bytes that follow the length field. */
  function ExtendedLength(n: nat): seq<byte> {
    if n <= 125 then [] else if n <= 0xFFFF then ToBigEndian(n, 2) else ToBigEndian(n, 8)
  }

  /** Section 5.2 allows the mask bit to be set with any key, 0 included. */
  function HeaderBytes(fin: bool, opCode: OpCode, masked: bool, key: u32, n: nat): seq<byte> {
    [(if fin then 0x80 else 0) + opCode, (if masked then 0x80 else 0) + LengthField(n)]
    + ExtendedLength(n)
    + (if masked then ToBigEndian(key, 4) else [])
  }

  function FrameBytes(f: Frame, masked: bool): seq<byte> {
    HeaderBytes(f.fin, f.opCode, masked, f.key, |f.payload|) + Mask(f.payload, f.key)
  }

  /** What the library writes: the mask bit is set exactly when the key is not 0. */
  function Encode(f: Frame): seq<byte> {
    FrameBytes(f, f.key != 0)
  }

  function EncodeAll(fs: seq<Frame>): seq<byte> {
    if fs == [] then [] else Encode(fs[0]) + EncodeAll(fs[1..])
  }

  lemma {:induction false} EncodeAllConcat(fs: seq<Frame>, gs: seq<Frame>)
    ensures EncodeAll(fs + gs) == EncodeAll(fs) + EncodeAll(gs)
  {
    if fs == [] {
      assert fs + gs == gs;
    } else {
      assert (fs + gs)[1..] == fs[1..] + gs;
      EncodeAllConcat(fs[1..], gs);
    }
  }

  lemma {:induction false} EncodeAllOne(f: Frame)
    ensures EncodeAll([f]) == Encode(f)
  {
    assert EncodeAll([f][1..]) == [];
  }

  /** The length in its three forms, each the shortest that fits, most significant byte first. */
  lemma {:induction false} LengthLayout(n: nat)
    requires n < 0x8000_0000_0000_0000
    ensures n <= 125 ==> LengthField(n) == n && ExtendedLength(n) == []
    ensures 126 <= n <= 0xFFFF ==> LengthField(n) == 126 && ExtendedLength(n) == [n / 0x100, n % 0x100]
    ensures 0x1_0000 <= n ==> LengthField(n) == 127 && |ExtendedLength(n)| == 8
    ensures 0x1_0000 <= n ==> ExtendedLength(n)[0] < 0x80 && FromBigEndian(ExtendedLength(n)) == n
    ensures 0x1_0000 <= n ==> forall i :: 0 <= i < 8 ==> ExtendedLength(n)[i] == n / Pow256(7 - i) % 256
  {
    Widths();
    if 126 <= n <= 0xFFFF {
      BigEndianDigit(n, 2, 0);
      BigEndianDigit(n, 2, 1);
      assert Pow256(1) == 256;
    } else if 0x1_0000 <= n {
      BigEndianRoundTrip(n, 8);
      forall i | 0 <= i < 8 ensures ExtendedLength(n)[i] == n / Pow256(7 - i) % 256 {
        BigEndianDigit(n, 8, i);
      }
      TopByte(n);
    }
  }

  lemma {:induction false} TopByte(n: nat)
    requires n < 0x8000_0000_0000_0000
    ensures ToBigEndian(n, 8)[0] < 0x80
  {
    BigEndianDigit(n, 8, 0);
    assert Pow256(7) == 0x100_0000_0000_0000 by {
      Widths();
      assert Pow256(8) == 256 * Pow256(7);
    }
  }

  /**
   * The layout of section 5.2, bit by bit: FIN is the highest bit and the opcode the low half of the first byte, the
   * three bits between them are 0; the mask bit is the highest of the second; the key comes last.
   */
  lemma {:induction false} HeaderLayout(fin: bool, opCode: OpCode, masked: bool, key: u32, n: nat)
    ensures var h, ext := HeaderBytes(fin, opCode, masked, key, n), |ExtendedLength(n)|;
      && |h| == 2 + ext + (if masked then 4 else 0)
      && h[0] == opCode + (if fin then 128 else 0)
      && h[1] == LengthField(n) + (if masked then 128 else 0)
      && h[2..2 + ext] == ExtendedLength(n)
      && (masked ==> h[2 + ext..] == [key / 0x100_0000, key / 0x1_0000 % 0x100, key / 0x100 % 0x100, key % 0x100])
  {
    KeyBytes(key);
  }
}
