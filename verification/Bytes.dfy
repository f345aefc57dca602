/** Octets, and the fixed-width integer encodings the wire and file formats use. */
module Bytes {

  type byte = b: int | 0 <= b < 256

  /** Big-endian value of an octet string (Go's binary.BigEndian, PNG lengths). */
  function BigEndian(s: seq<byte>): nat {
    if s == [] then 0 else BigEndian(s[..|s| - 1]) * 256 + s[|s| - 1]
  }

  /** The low `width` octets of n, most significant first. */
  function ToBigEndian(n: nat, width: nat): (s: seq<byte>)
    ensures |s| == width
  {
    if width == 0 then [] else ToBigEndian(n / 256, width - 1) + [n % 256]
  }

  function Power256(width: nat): (p: nat)
    ensures p > 0
  {
    if width == 0 then 1 else 256 * Power256(width - 1)
  }

  lemma {:induction false} BigEndianRoundTrip(n: nat, width: nat)
    requires n < Power256(width)
    ensures BigEndian(ToBigEndian(n, width)) == n
  {
    if width > 0 {
      BigEndianRoundTrip(n / 256, width - 1);
      var s := ToBigEndian(n, width);
      assert s[..|s| - 1] == ToBigEndian(n / 256, width - 1);
    }
  }

  lemma {:induction false} ToBigEndianOfBigEndian(s: seq<byte>)
    ensures BigEndian(s) < Power256(|s|)
    ensures ToBigEndian(BigEndian(s), |s|) == s
  {
    if s != [] {
      ToBigEndianOfBigEndian(s[..|s| - 1]);
    }
  }

  lemma NextOctet(s: seq<byte>, k: nat)
    requires k < |s|
    ensures BigEndian(s[..k + 1]) == 0x100 * BigEndian(s[..k]) + s[k] as int
    ensures BigEndian(s[..0]) == 0
  {
    assert s[..k + 1][..k] == s[..k];
  }

  lemma NextFour(s: seq<byte>, k: nat)
    requires k + 4 <= |s|
    ensures BigEndian(s[..k + 4]) == 0x1_0000_0000 * BigEndian(s[..k])
      + 0x100_0000 * s[k] as int + 0x1_0000 * s[k + 1] as int + 0x100 * s[k + 2] as int + s[k + 3] as int
  {
    hide BigEndian;
    NextOctet(s, k);
    NextOctet(s, k + 1);
    NextOctet(s, k + 2);
    NextOctet(s, k + 3);
  }

  /** The values of fields of two, four and eight octets. */
  lemma TwoOctetValue(s: seq<byte>)
    requires |s| == 2
    ensures BigEndian(s) == 0x100 * s[0] as int + s[1] as int
  {
    assert s[..2] == s;
    NextOctet(s, 0);
    NextOctet(s, 1);
  }

  lemma FourOctetValue(s: seq<byte>)
    requires |s| == 4
    ensures BigEndian(s) == 0x100_0000 * s[0] as int + 0x1_0000 * s[1] as int + 0x100 * s[2] as int + s[3] as int
  {
    hide BigEndian;
    assert s[..4] == s;
    NextOctet(s, 0);
    NextFour(s, 0);
  }

  lemma EightOctetValue(s: seq<byte>)
    requires |s| == 8
    ensures BigEndian(s) == 0x100_0000_0000_0000 * s[0] as int + 0x1_0000_0000_0000 * s[1] as int
                            + 0x100_0000_0000 * s[2] as int + 0x1_0000_0000 * s[3] as int
                            + 0x100_0000 * s[4] as int + 0x1_0000 * s[5] as int + 0x100 * s[6] as int + s[7] as int
  {
    hide BigEndian;
    assert s[..8] == s;
    NextOctet(s, 0);
    NextFour(s, 0);
    NextFour(s, 4);
  }

  /** Bitwise exclusive or of the low `bits` bits. */
  function XorBits(a: nat, b: nat, bits: nat): (r: nat) {
    if bits == 0 then 0
    else 2 * XorBits(a / 2, b / 2, bits - 1) + (if a % 2 == b % 2 then 0 else 1)
  }

  lemma {:induction false} XorBitsFacts(a: nat, b: nat, bits: nat)
    requires a < Power2(bits)
    ensures XorBits(a, b, bits) < Power2(bits)
    ensures XorBits(XorBits(a, b, bits), b, bits) == a
  {
    if bits > 0 {
      XorBitsFacts(a / 2, b / 2, bits - 1);
      var x := XorBits(a, b, bits);
      assert x / 2 == XorBits(a / 2, b / 2, bits - 1);
    }
  }

  function Power2(bits: nat): (p: nat)
    ensures p > 0
  {
    if bits == 0 then 1 else 2 * Power2(bits - 1)
  }

  /** Exclusive or of two octets. */
  function Xor(a: byte, b: byte): byte {
    assert Power2(8) == 256 by { assert Power2(4) == 16; }
    XorBitsFacts(a, b, 8);
    XorBits(a, b, 8)
  }

  lemma XorCancels(a: byte, k: byte)
    ensures Xor(Xor(a, k), k) == a
  {
    assert Power2(8) == 256 by { assert Power2(4) == 16; }
    XorBitsFacts(a, k, 8);
  }

  // ----- Exclusive or, bit by bit -----

  /** Bit k of n, from the least significant. */
  function Bit(n: nat, k: nat): (b: nat)
    ensures b <= 1
  {
    if k == 0 then n % 2 else Bit(n / 2, k - 1)
  }

  lemma Halve(n: nat, k: nat)
    ensures Bit(n, 0) == n % 2 && Bit(n, k + 1) == Bit(n / 2, k)
  {}

  /** The bits of an octet are what it is the sum of. */
  lemma OctetIsItsBits(a: byte)
    ensures a == Bit(a, 0) + 2 * Bit(a, 1) + 4 * Bit(a, 2) + 8 * Bit(a, 3)
              + 16 * Bit(a, 4) + 32 * Bit(a, 5) + 64 * Bit(a, 6) + 128 * Bit(a, 7)
  {
    hide Bit;
    var h := a / 2 / 2 / 2 / 2;
    LowBits(a);
    LowBits(h);
    FourUp(a, 0);
    FourUp(a, 1);
    FourUp(a, 2);
    FourUp(a, 3);
  }

  lemma FourUp(n: nat, k: nat)
    ensures Bit(n, k + 4) == Bit(n / 2 / 2 / 2 / 2, k)
  {
    hide Bit;
    Halve(n, k + 3);
    Halve(n / 2, k + 2);
    Halve(n / 2 / 2, k + 1);
    Halve(n / 2 / 2 / 2, k);
  }

  lemma LowBits(n: nat)
    ensures n == Bit(n, 0) + 2 * Bit(n, 1) + 4 * Bit(n, 2) + 8 * Bit(n, 3) + 16 * (n / 2 / 2 / 2 / 2)
  {
    hide Bit;
    var h1 := n / 2;
    var h2 := h1 / 2;
    Halve(n, 0);
    Halve(n, 1);
    Halve(n, 2);
    Halve(h1, 0);
    Halve(h1, 1);
    Halve(h2, 0);
    Halve(h2 / 2, 0);
  }

  lemma {:induction false} BitOfXor(a: nat, b: nat, bits: nat, k: nat)
    requires k < bits
    ensures Bit(XorBits(a, b, bits), k) == 1 <==> Bit(a, k) != Bit(b, k)
  {
    assert XorBits(a, b, bits) / 2 == XorBits(a / 2, b / 2, bits - 1);
    if k > 0 { BitOfXor(a / 2, b / 2, bits - 1, k - 1); }
  }

  /** The exclusive or has a bit set exactly where its operands differ. */
  lemma XorBit(a: byte, b: byte, k: nat)
    requires k < 8
    ensures Bit(Xor(a, b), k) == 1 <==> Bit(a, k) != Bit(b, k)
  {
    BitOfXor(a, b, 8, k);
  }
}
