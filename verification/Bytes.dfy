/** Bytes, big-endian numbers and the masking of payloads (section 5.3 of RFC 6455). */
module Bytes {

  type byte = x: int | 0 <= x < 0x100
  type u16 = x: int | 0 <= x < 0x1_0000
  type u32 = x: int | 0 <= x < 0x1_0000_0000

  /** A text is a sequence of UTF-16 code units. */
  type Text = seq<u16>

  datatype Option<+T> = None | Some(value: T)

  function Min(a: int, b: int): int {
    if a <= b then a else b
  }

  /** The first n elements, or all of them. */
  function Left<T>(s: seq<T>, n: nat): seq<T> {
    s[..Min(n, |s|)]
  }

  function Flatten<T>(ss: seq<seq<T>>): seq<T> {
    if ss == [] then [] else ss[0] + Flatten(ss[1..])
  }

  lemma {:induction false} FlattenAppend<T>(ss: seq<seq<T>>, s: seq<T>)
    ensures Flatten(ss + [s]) == Flatten(ss) + s
  {
    if ss == [] {
    } else {
      assert (ss + [s])[1..] == ss[1..] + [s];
      FlattenAppend(ss[1..], s);
    }
  }

  lemma {:induction false} Cancel<T>(front: seq<T>, a: seq<T>, b: seq<T>)
    requires front + a == front + b
    ensures a == b
  {
    assert a == (front + a)[|front|..] && b == (front + b)[|front|..];
  }

  // ----- division -----

  lemma {:induction false} MultipleAtLeast(d: int, size: int)
    requires size >= 0
    ensures d >= 1 ==> d * size >= size
    ensures d <= -1 ==> d * size <= -size
  {
    if d >= 1 {
      assert d * size == (d - 1) * size + size;
    } else if d <= -1 {
      assert d * size == (d + 1) * size - size;
    }
  }

  lemma {:induction false} QuotientUnique(n: nat, size: nat, q: nat, r: nat)
    requires r < size && n == q * size + r
    ensures n / size == q && n % size == r
  {
    var t := n / size;
    assert n == t * size + n % size;
    assert (t - q) * size == t * size - q * size;
    MultipleAtLeast(t - q, size);
  }

  lemma {:induction false} TwoDigits(q: nat, b: nat, s: nat, a: nat, r: nat)
    requires s < b && r < a
    ensures (q * b + s) * a + r == q * (a * b) + (s * a + r) && s * a + r < a * b
  {
    var d := b - 1 - s;
    assert a * b == (d + 1 + s) * a == d * a + a + s * a;
    MultipleAtLeast(d, a);
    assert (q * b + s) * a == q * b * a + s * a;
    assert q * b * a == q * (b * a) == q * (a * b);
  }

  lemma {:induction false} Substitute(n: nat, m: nat, a: nat, r: nat, m': nat)
    requires n == m * a + r && m == m'
    ensures n == m' * a + r
  {
  }

  lemma {:induction false} DivideTwice(n: nat, a: nat, b: nat)
    requires a > 0 && b > 0
    ensures a * b > 0 && n / a / b == n / (a * b)
  {
    MultipleAtLeast(b, a);
    var m, r := n / a, n % a;
    var q, s := m / b, m % b;
    assert n == m * a + r;
    assert m == q * b + s;
    Substitute(n, m, a, r, q * b + s);
    TwoDigits(q, b, s, a, r);
    QuotientUnique(n, a * b, q, s * a + r);
  }

  // ----- big-endian numbers -----

  function Pow256(n: nat): (p: nat)
    ensures p > 0
  {
    if n == 0 then 1 else 256 * Pow256(n - 1)
  }

  lemma {:induction false} Widths()
    ensures Pow256(2) == 0x1_0000 && Pow256(4) == 0x1_0000_0000 && Pow256(8) == 0x1_0000_0000_0000_0000
  {
    assert Pow256(2) == 256 * Pow256(1);
    assert Pow256(4) == 256 * Pow256(3) && Pow256(3) == 256 * Pow256(2);
    assert Pow256(8) == 256 * Pow256(7) && Pow256(7) == 256 * Pow256(6);
    assert Pow256(6) == 256 * Pow256(5) && Pow256(5) == 256 * Pow256(4);
  }

  /** The number that the bytes spell, most significant byte first. */
  function FromBigEndian(b: seq<byte>): (n: nat)
    ensures n < Pow256(|b|)
  {
    if b == [] then 0 else FromBigEndian(b[..|b| - 1]) * 256 + b[|b| - 1]
  }

  function ToBigEndian(n: nat, width: nat): (b: seq<byte>)
    ensures |b| == width
  {
    if width == 0 then [] else ToBigEndian(n / 256, width - 1) + [n % 256]
  }

  /** Byte i is the digit of weight 256 to the power width - 1 - i. */
  lemma {:induction false} BigEndianDigit(n: nat, width: nat, i: nat)
    requires i < width
    ensures ToBigEndian(n, width)[i] == n / Pow256(width - 1 - i) % 256
  {
    if i == width - 1 {
      assert Pow256(0) == 1;
    } else {
      BigEndianDigit(n / 256, width - 1, i);
      DivideTwice(n, 256, Pow256(width - 2 - i));
    }
  }

  lemma {:induction false} BigEndianRoundTrip(n: nat, width: nat)
    requires n < Pow256(width)
    ensures FromBigEndian(ToBigEndian(n, width)) == n
  {
    if width == 0 {
    } else {
      BigEndianRoundTrip(n / 256, width - 1);
      var b := ToBigEndian(n, width);
      assert b[..|b| - 1] == ToBigEndian(n / 256, width - 1);
    }
  }

  lemma {:induction false} BigEndianUnique(b: seq<byte>)
    ensures ToBigEndian(FromBigEndian(b), |b|) == b
  {
    if b == [] {
    } else {
      BigEndianUnique(b[..|b| - 1]);
      assert FromBigEndian(b) / 256 == FromBigEndian(b[..|b| - 1]);
    }
  }

  // ----- masking -----

  function Pow2(n: nat): (p: nat)
    ensures p > 0
  {
    if n == 0 then 1 else 2 * Pow2(n - 1)
  }

  /** Exclusive or of the low width bits, bit by bit. */
  function XorBits(a: nat, b: nat, width: nat): (c: nat)
    ensures c < Pow2(width)
  {
    if width == 0 then 0 else XorBits(a / 2, b / 2, width - 1) * 2 + (a + b) % 2
  }

  /** Bit j of n, the least significant bit being number 0. */
  function Bit(n: nat, j: nat): nat {
    if j == 0 then n % 2 else Bit(n / 2, j - 1)
  }

  lemma {:induction false} BitIsDigit(n: nat, j: nat)
    ensures Bit(n, j) == n / Pow2(j) % 2
  {
    if j == 0 {
      assert n / Pow2(0) == n;
    } else {
      BitIsDigit(n / 2, j - 1);
      DivideTwice(n, 2, Pow2(j - 1));
    }
  }

  /** Each bit is the exclusive or of the bits in the same place. */
  lemma {:induction false} XorBitsBit(a: nat, b: nat, width: nat, j: nat)
    requires j < width
    ensures Bit(XorBits(a, b, width), j) == (Bit(a, j) + Bit(b, j)) % 2
  {
    LastBit(XorBits(a / 2, b / 2, width - 1), (a + b) % 2, 0);
    if j > 0 {
      XorBitsBit(a / 2, b / 2, width - 1, j - 1);
    }
  }

  lemma {:induction false} ParityCancels(a: nat, b: nat)
    ensures ((a + b) % 2 + b) % 2 == a % 2
  {
  }

  lemma {:induction false} LastBit(high: nat, bit: nat, b: nat)
    requires bit < 2
    ensures (high * 2 + bit) / 2 == high && (high * 2 + bit + b) % 2 == (bit + b) % 2
  {
  }

  lemma {:induction false} XorBitsInvolutive(a: nat, b: nat, width: nat)
    requires a < Pow2(width)
    ensures XorBits(XorBits(a, b, width), b, width) == a
  {
    if width == 0 {
    } else {
      var high, bit := XorBits(a / 2, b / 2, width - 1), (a + b) % 2;
      XorBitsInvolutive(a / 2, b / 2, width - 1);
      XorBitsAgain(high, bit, b, width);
      ParityCancels(a, b);
    }
  }

  lemma {:induction false} XorBitsAgain(high: nat, bit: nat, b: nat, width: nat)
    requires bit < 2 && width > 0
    ensures XorBits(high * 2 + bit, b, width) == XorBits(high, b / 2, width - 1) * 2 + (bit + b) % 2
  {
    LastBit(high, bit, b);
  }

  lemma {:induction false} XorBitsZero(a: nat, width: nat)
    requires a < Pow2(width)
    ensures XorBits(a, 0, width) == a
  {
    if width == 0 {
    } else {
      XorBitsZero(a / 2, width - 1);
    }
  }

  lemma {:induction false} ByteWidth()
    ensures Pow2(8) == 0x100
  {
    assert Pow2(8) == 2 * Pow2(7) && Pow2(7) == 2 * Pow2(6) && Pow2(6) == 2 * Pow2(5);
    assert Pow2(5) == 2 * Pow2(4) && Pow2(4) == 2 * Pow2(3) && Pow2(3) == 2 * Pow2(2);
  }

  function Xor(a: byte, b: byte): byte {
    ByteWidth();
    XorBits(a, b, 8)
  }

  lemma {:induction false} XorBit(a: byte, b: byte, j: nat)
    requires j < 8
    ensures Bit(Xor(a, b), j) == (Bit(a, j) + Bit(b, j)) % 2
  {
    ByteWidth();
    XorBitsBit(a, b, 8, j);
  }

  lemma {:induction false} XorInvolutive(a: byte, k: byte)
    ensures Xor(Xor(a, k), k) == a
  {
    ByteWidth();
    XorBitsInvolutive(a, k, 8);
  }

  lemma {:induction false} XorZero(a: byte)
    ensures Xor(a, 0) == a
  {
    ByteWidth();
    XorBitsZero(a, 8);
  }

  /** Byte i of the masking key, most significant first. */
  function KeyByte(key: u32, i: nat): byte
    requires i < 4
  {
    ToBigEndian(key, 4)[i]
  }

  /** Byte i of the payload is combined with byte i mod 4 of the key. */
  function Mask(data: seq<byte>, key: u32): (m: seq<byte>)
    ensures |m| == |data|
    ensures forall i :: 0 <= i < |data| ==> m[i] == Xor(data[i], KeyByte(key, i % 4))
  {
    seq(|data|, i requires 0 <= i < |data| => Xor(data[i], KeyByte(key, i % 4)))
  }

  lemma {:induction false} MaskInvolutive(data: seq<byte>, key: u32)
    ensures Mask(Mask(data, key), key) == data
  {
    forall i | 0 <= i < |data| ensures Mask(Mask(data, key), key)[i] == data[i] {
      XorInvolutive(data[i], KeyByte(key, i % 4));
    }
  }

  lemma {:induction false} MaskZero(data: seq<byte>)
    ensures Mask(data, 0) == data
  {
    assert forall i | 0 <= i < 4 :: KeyByte(0, i) == 0 by { KeyBytes(0); }
    forall i | 0 <= i < |data| ensures Mask(data, 0)[i] == data[i] {
      XorZero(data[i]);
    }
  }

  /** The four bytes that shifting and truncating the key gives are its big-endian bytes. */
  lemma {:induction false} KeyBytes(key: u32)
    ensures ToBigEndian(key, 4)
         == [key / 0x100_0000, key / 0x1_0000 % 0x100, key / 0x100 % 0x100, key % 0x100]
  {
    assert ToBigEndian(key / 0x100_0000, 1) == [key / 0x100_0000] by {
      assert ToBigEndian(key / 0x100_0000 / 0x100, 0) == [];
    }
    assert ToBigEndian(key / 0x1_0000, 2) == [key / 0x100_0000, key / 0x1_0000 % 0x100];
    assert ToBigEndian(key / 0x100, 3) == [key / 0x100_0000, key / 0x1_0000 % 0x100, key / 0x100 % 0x100];
  }

  /** Bit by bit: byte i is combined with byte i mod 4 of the key, of which the most significant byte comes first. */
  lemma {:induction false} MaskBits(data: seq<byte>, key: u32, i: nat, j: nat)
    requires i < |data| && j < 8
    ensures var k := [key / 0x100_0000, key / 0x1_0000 % 0x100, key / 0x100 % 0x100, key % 0x100][i % 4];
      Bit(Mask(data, key)[i], j) == (Bit(data[i], j) + Bit(k, j)) % 2
  {
    KeyBytes(key);
    XorBit(data[i], KeyByte(key, i % 4), j);
  }
}
