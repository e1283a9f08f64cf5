/**
  * The 32-bit operators of JavaScript that the frame codecs and the signature comparison use. Numbers are
  * mathematical integers, so every conversion that the operators perform on their operands is written out.
  * What the operators do to a number is first stated for its bits, then for its bytes, and at last
  * for the four bytes of a big-endian length.
  */
module Bits {
  type Byte = b: int | 0 <= b < 256

  const TWO_32: int := 0x1_0000_0000

  /** Conversion of an operand to an unsigned 32-bit integer. */
  function ToUint32(x: int): nat {
    x % TWO_32
  }

  /** Conversion of an operand to a signed 32-bit integer. */
  function ToInt32(x: int): int {
    var u := ToUint32(x);
    if u < 0x8000_0000 then u else u - TWO_32
  }

  // ---- Operations on the bits of a non-negative integer, one bit at a time

  function And(a: nat, b: nat): nat {
    if a == 0 || b == 0 then 0 else 2 * And(a / 2, b / 2) + (if a % 2 == 1 && b % 2 == 1 then 1 else 0)
  }

  function Or(a: nat, b: nat): nat
    decreases a + b
  {
    if a == 0 && b == 0 then 0 else 2 * Or(a / 2, b / 2) + (if a % 2 == 1 || b % 2 == 1 then 1 else 0)
  }

  function Xor(a: nat, b: nat): nat
    decreases a + b
  {
    if a == 0 && b == 0 then 0 else 2 * Xor(a / 2, b / 2) + (if a % 2 != b % 2 then 1 else 0)
  }

  function Right(x: nat, k: nat): nat {
    if k == 0 then x else Right(x / 2, k - 1)
  }

  function Left(x: nat, k: nat): nat {
    if k == 0 then x else 2 * Left(x, k - 1)
  }

  // ---- The operators

  /** `x >>> k` */
  function UnsignedShiftRight(x: int, k: nat): nat {
    Right(ToUint32(x), k)
  }

  /** `x << k` */
  function ShiftLeft(x: int, k: nat): int {
    ToInt32(Left(ToUint32(x), k))
  }

  /** `x | y` */
  function Or32(x: int, y: int): int {
    ToInt32(Or(ToUint32(x), ToUint32(y)))
  }

  // ---- Their meaning in arithmetic

  lemma {:induction false} RightCompose(x: nat, j: nat, k: nat)
    ensures Right(x, j + k) == Right(Right(x, j), k)
  {
    if j == 0 {
    } else {
      RightCompose(x / 2, j - 1, k);
    }
  }

  lemma RightTwo(x: nat)
    ensures Right(x, 2) == x / 4
  {
    assert Right(x, 2) == Right(x / 2, 1) == x / 2 / 2;
  }

  lemma RightFour(x: nat)
    ensures Right(x, 4) == x / 0x10
  {
    RightCompose(x, 2, 2);
    RightTwo(x);
    RightTwo(x / 4);
  }

  lemma RightByte(x: nat)
    ensures Right(x, 8) == x / 0x100
  {
    RightCompose(x, 4, 4);
    RightFour(x);
    RightFour(x / 0x10);
  }

  lemma RightBytes(x: nat)
    ensures Right(x, 16) == x / 0x100 / 0x100 && Right(x, 24) == x / 0x100 / 0x100 / 0x100
  {
    RightByte(x);
    RightByte(x / 0x100);
    RightByte(x / 0x100 / 0x100);
    RightCompose(x, 8, 8);
    RightCompose(x, 16, 8);
  }

  lemma {:induction false} LeftCompose(x: nat, j: nat, k: nat)
    ensures Left(x, j + k) == Left(Left(x, j), k)
  {
    if k == 0 {
    } else {
      LeftCompose(x, j, k - 1);
    }
  }

  lemma LeftByte(x: nat)
    ensures Left(x, 8) == x * 0x100
  {
    assert Left(x, 8) == 2 * Left(x, 7) == 4 * Left(x, 6) == 8 * Left(x, 5) == 0x10 * Left(x, 4);
    assert Left(x, 4) == 2 * Left(x, 3) == 4 * Left(x, 2) == 8 * Left(x, 1) == 0x10 * x;
  }

  lemma LeftBytes(x: nat)
    ensures Left(x, 16) == x * 0x1_0000 && Left(x, 24) == x * 0x100_0000
  {
    LeftByte(x);
    LeftByte(x * 0x100);
    LeftByte(x * 0x1_0000);
    LeftCompose(x, 8, 8);
    LeftCompose(x, 16, 8);
  }

  /** Or of disjoint bit ranges is addition. */
  lemma {:induction false} OrDisjoint(hi: nat, lo: nat, k: nat)
    requires lo < Left(1, k)
    ensures Or(Left(hi, k), lo) == Left(hi, k) + lo
  {
    if k == 0 {
      OrZero(hi);
    } else {
      OrDisjoint(hi, lo / 2, k - 1);
    }
  }

  lemma {:induction false} OrZero(a: nat)
    ensures Or(a, 0) == a
  {
    if a == 0 {
    } else {
      OrZero(a / 2);
    }
  }

  lemma {:induction false} OrIsZero(a: nat, b: nat)
    ensures Or(a, b) == 0 <==> a == 0 && b == 0
    decreases a + b
  {
    if a == 0 && b == 0 {
    } else {
      OrIsZero(a / 2, b / 2);
    }
  }

  lemma {:induction false} XorIsZero(a: nat, b: nat)
    ensures Xor(a, b) == 0 <==> a == b
    decreases a + b
  {
    if a == 0 && b == 0 {
    } else {
      XorIsZero(a / 2, b / 2);
    }
  }

  /** k one-bits, and the number whose bits are the low k bits of x. */
  function Ones(k: nat): nat {
    if k == 0 then 0 else 2 * Ones(k - 1) + 1
  }

  function Low(x: nat, k: nat): nat {
    if k == 0 then 0 else 2 * Low(x / 2, k - 1) + x % 2
  }

  lemma {:induction false} MaskKeepsLow(x: nat, k: nat)
    ensures And(x, Ones(k)) == Low(x, k)
  {
    if k == 0 {
    } else {
      assert Ones(k) / 2 == Ones(k - 1) && Ones(k) % 2 == 1;
      MaskKeepsLow(x / 2, k - 1);
    }
  }

  lemma {:induction false} HighAndLow(x: nat, k: nat)
    ensures x == Left(Right(x, k), k) + Low(x, k) && Low(x, k) < Left(1, k)
  {
    if k == 0 {
    } else {
      HighAndLow(x / 2, k - 1);
    }
  }

  /** The mask 0xff keeps the remainder modulo 256. */
  lemma MaskByte(x: nat)
    ensures And(x, 0xff) == x % 0x100
  {
    MaskKeepsLow(x, 8);
    OnesByte();
    HighAndLow(x, 8);
    LeftByte(Right(x, 8));
    LeftByte(1);
    Remainder(x, Right(x, 8), Low(x, 8));
  }

  lemma OnesByte()
    ensures Ones(8) == 0xff
  {
    assert Ones(8) == 0x10 * Ones(4) + 0xf;
  }

  lemma Remainder(x: nat, q: nat, r: nat)
    requires x == q * 0x100 + r && r < 0x100
    ensures x % 0x100 == r
  {
  }

  // ---- Big-endian unsigned 32-bit lengths

  /** `DataView.getUint32(o, false)` and `Buffer.readUInt32BE(o)`: the positional value of four bytes. */
  function BigEndian(s: seq<Byte>): (n: nat)
    requires |s| == 4
    ensures n < TWO_32
  {
    var b0: int, b1: int, b2: int, b3: int := s[0], s[1], s[2], s[3];
    ((b0 * 0x100 + b1) * 0x100 + b2) * 0x100 + b3
  }

  /** `Buffer.writeUInt32BE(n, 0)`: the four base-256 digits of n. */
  function BigEndianBytes(n: nat): (s: seq<Byte>)
    requires n < TWO_32
    ensures |s| == 4
  {
    [n / 0x100 / 0x100 / 0x100, n / 0x100 / 0x100 % 0x100, n / 0x100 % 0x100, n % 0x100]
  }

  /** The highest byte comes first. */
  lemma BigEndianDigits(n: nat)
    requires n < 0x1_0000_0000
    ensures BigEndianBytes(n) == [n / 0x100_0000, n / 0x1_0000 % 0x100, n / 0x100 % 0x100, n % 0x100]
  {
    assert n / 0x100 / 0x100 == n / 0x1_0000;
  }

  lemma BigEndianValue(b0: Byte, b1: Byte, b2: Byte, b3: Byte)
    ensures BigEndian([b0, b1, b2, b3]) == 0x100_0000 * b0 as int + 0x1_0000 * b1 as int + 0x100 * b2 as int + b3 as int
  {
  }

  /** Encoding and decoding a length are inverse over the whole unsigned 32-bit range. */
  lemma BigEndianRoundTrip(n: nat)
    requires n < TWO_32
    ensures BigEndian(BigEndianBytes(n)) == n
  {
    var n1, n2 := n / 0x100, n / 0x100 / 0x100;
    assert n == n1 * 0x100 + n % 0x100;
    assert n1 == n2 * 0x100 + n1 % 0x100;
  }

  /** ... and every four bytes are the encoding of exactly one length. */
  lemma BigEndianBytesRoundTrip(s: seq<Byte>)
    requires |s| == 4
    ensures BigEndianBytes(BigEndian(s)) == s
  {
    var b0: int, b1: int, b2: int, b3: int := s[0], s[1], s[2], s[3];
    var n := BigEndian(s);
    assert n / 0x100 == (b0 * 0x100 + b1) * 0x100 + b2;
    assert n / 0x100 / 0x100 == b0 * 0x100 + b1;
  }

  /** `x & 0xff` */
  function LowByte(x: nat): (b: Byte)
    ensures b == x % 0x100
  {
    MaskByte(x);
    And(x, 0xff)
  }

  /** The header bytes `(n >>> 24) & 0xff`, `(n >>> 16) & 0xff`, `(n >>> 8) & 0xff` and `n & 0xff`. */
  function MaskedBytes(n: nat): (s: seq<Byte>)
    ensures |s| == 4
  {
    [LowByte(UnsignedShiftRight(n, 24)), LowByte(UnsignedShiftRight(n, 16)),
     LowByte(UnsignedShiftRight(n, 8)), LowByte(n)]
  }

  lemma ShiftedRight(n: nat)
    requires n < TWO_32
    ensures UnsignedShiftRight(n, 24) == n / 0x100 / 0x100 / 0x100
    ensures UnsignedShiftRight(n, 16) == n / 0x100 / 0x100
    ensures UnsignedShiftRight(n, 8) == n / 0x100
  {
    RightByte(n);
    RightBytes(n);
  }

  /** The shift-and-mask bytes of a length are its last four base-256 digits: all of them below 2^32. */
  lemma MaskedBytesAreDigits(n: nat)
    ensures MaskedBytes(n) == BigEndianBytes(n % TWO_32)
    ensures n < TWO_32 ==> MaskedBytes(n) == BigEndianBytes(n)
  {
    var u := n % TWO_32;
    SignedKeepsUnsigned(u);
    ShiftedRight(u);
    SameLowByte(n);
    Digits(u, UnsignedShiftRight(n, 24), UnsignedShiftRight(n, 16), UnsignedShiftRight(n, 8));
  }

  lemma SameLowByte(n: nat)
    ensures n % TWO_32 % 0x100 == n % 0x100
  {
    var q, u := n / TWO_32, n % TWO_32;
    Remainder(n, q * 0x100_0000 + u / 0x100, u % 0x100);
  }

  lemma Digits(n: nat, n3: nat, n2: nat, n1: nat)
    requires n < TWO_32
    requires n1 == n / 0x100 && n2 == n / 0x100 / 0x100 && n3 == n / 0x100 / 0x100 / 0x100
    ensures [LowByte(n3), LowByte(n2), LowByte(n1), LowByte(n)] == BigEndianBytes(n)
  {
    assert n3 % 0x100 == n3;
  }

  /** `((b0 << 24) | (b1 << 16) | (b2 << 8) | b3) >>> 0` */
  function ShiftedLength(b0: Byte, b1: Byte, b2: Byte, b3: Byte): nat {
    UnsignedShiftRight(Or32(Or32(Or32(ShiftLeft(b0, 24), ShiftLeft(b1, 16)), ShiftLeft(b2, 8)), b3), 0)
  }

  /** The shift-and-or expression is the positional value of the four bytes, in spite of the signed wrap of `<<`. */
  lemma ShiftedLengthIsBigEndian(b0: Byte, b1: Byte, b2: Byte, b3: Byte)
    ensures ShiftedLength(b0, b1, b2, b3) == BigEndian([b0, b1, b2, b3])
  {
    var x0, x1, x2 := ShiftLeft(b0, 24), ShiftLeft(b1, 16), ShiftLeft(b2, 8);
    ShiftedByte(b0, b1, b2);
    OrBytes(x0, x1, x2, b0, b1, b2, b3);
    FinalShift(Or32(Or32(Or32(x0, x1), x2), b3));
  }

  lemma OrBytes(x0: int, x1: int, x2: int, i0: int, i1: int, i2: int, i3: int)
    requires 0 <= i0 < 256 && 0 <= i1 < 256 && 0 <= i2 < 256 && 0 <= i3 < 256
    requires ToUint32(x0) == i0 * 0x100_0000 && ToUint32(x1) == i1 * 0x1_0000 && ToUint32(x2) == i2 * 0x100
    ensures ToUint32(Or32(Or32(Or32(x0, x1), x2), i3)) == ((i0 * 0x100 + i1) * 0x100 + i2) * 0x100 + i3
  {
    OrTop(x0, x1, i0, i1);
    OrMiddle(Or32(x0, x1), x2, i0 * 0x100 + i1, i2);
    OrLow(Or32(Or32(x0, x1), x2), (i0 * 0x100 + i1) * 0x100 + i2, i3);
  }

  lemma OrTop(x: int, y: int, hi: int, lo: int)
    requires 0 <= hi < 0x100 && 0 <= lo < 0x100
    requires ToUint32(x) == hi * 0x100_0000 && ToUint32(y) == lo * 0x1_0000
    ensures ToUint32(Or32(x, y)) == (hi * 0x100 + lo) * 0x1_0000
  {
    OrByte(x, y, hi, lo * 0x1_0000, 24);
  }

  lemma OrMiddle(x: int, y: int, hi: int, lo: int)
    requires 0 <= hi < 0x1_0000 && 0 <= lo < 0x100
    requires ToUint32(x) == hi * 0x1_0000 && ToUint32(y) == lo * 0x100
    ensures ToUint32(Or32(x, y)) == (hi * 0x100 + lo) * 0x100
  {
    OrByte(x, y, hi, lo * 0x100, 16);
  }

  lemma OrLow(x: int, hi: int, lo: int)
    requires 0 <= hi < 0x100_0000 && 0 <= lo < 0x100
    requires ToUint32(x) == hi * 0x100
    ensures ToUint32(Or32(x, lo)) == hi * 0x100 + lo
  {
    OrByte(x, lo, hi, lo, 8);
  }

  lemma FinalShift(x: int)
    ensures UnsignedShiftRight(x, 0) == ToUint32(x)
  {
  }

  lemma ShiftedByte(b0: Byte, b1: Byte, b2: Byte)
    ensures ToUint32(ShiftLeft(b0, 24)) == (b0 as int) * 0x100_0000
    ensures ToUint32(ShiftLeft(b1, 16)) == (b1 as int) * 0x1_0000
    ensures ToUint32(ShiftLeft(b2, 8)) == (b2 as int) * 0x100
  {
    LeftBytes(b0);
    LeftBytes(b1);
    LeftByte(b2);
    SmallIsUnsigned(b0);
    SmallIsUnsigned(b1);
    SmallIsUnsigned(b2);
    SignedKeepsUnsigned(Left(b0, 24));
    SignedKeepsUnsigned(Left(b1, 16));
    SignedKeepsUnsigned(Left(b2, 8));
  }

  lemma SmallIsUnsigned(b: Byte)
    ensures ToUint32(b) == b
  {
  }

  function Weight(k: nat): nat {
    if k == 8 then 0x100 else if k == 16 then 0x1_0000 else 0x100_0000
  }

  lemma OrWeighted(hi: nat, lo: nat, k: nat)
    requires k == 8 || k == 16 || k == 24
    requires lo < Weight(k)
    ensures Or(hi * Weight(k), lo) == hi * Weight(k) + lo
  {
    LeftByte(1);
    LeftBytes(1);
    OrDisjoint(hi, lo, k);
    LeftByte(hi);
    LeftBytes(hi);
  }

  lemma OrByte(x: int, y: int, hi: nat, lo: nat, k: nat)
    requires k == 8 || k == 16 || k == 24
    requires ToUint32(x) == hi * Weight(k) && ToUint32(y) == lo < Weight(k)
    requires hi * Weight(k) + lo < TWO_32
    ensures ToUint32(Or32(x, y)) == hi * Weight(k) + lo
  {
    OrWeighted(hi, lo, k);
    SignedKeepsUnsigned(hi * Weight(k) + lo);
  }

  lemma SignedKeepsUnsigned(u: nat)
    requires u < TWO_32
    ensures ToUint32(u) == u && ToUint32(ToInt32(u)) == u
  {
  }
}
