/** Bytes, 32-bit words and the bit operations on them, over plain naturals. */
module Bits {
  import Numbers

  type byte = x: int | 0 <= x < 256
  type word = x: int | 0 <= x < 0x1_0000_0000

  datatype Op = And | Or | Xor

  function OnBit(op: Op, p: bool, q: bool): bool {
    match op
    case And => p && q
    case Or => p || q
    case Xor => p != q
  }

  function Pow2(n: nat): (p: nat)
    ensures p > 0
  {
    if n == 0 then 1 else 2 * Pow2(n - 1)
  }

  /** op applied to the low width bits of a and b. */
  function Bitwise(op: Op, a: nat, b: nat, width: nat): (r: nat)
    ensures r < Pow2(width)
  {
    if width == 0 then 0
    else 2 * Bitwise(op, a / 2, b / 2, width - 1) + (if OnBit(op, a % 2 == 1, b % 2 == 1) then 1 else 0)
  }

  // ---- What the operations do, bit by bit ----

  /** Bit i of x, counted from the low end. */
  function BitAt(x: nat, i: nat): (b: nat)
    ensures b < 2
  {
    x / Pow2(i) % 2
  }

  function Max(x: nat, y: nat): nat { if x > y then x else y }

  lemma DivTwice(x: nat, m: nat)
    requires m > 0
    ensures x / 2 / m == x / (2 * m)
  {
    var q, r := x / 2 / m, x / 2 % m;
    assert x / 2 == m * q + r;
    assert x == 2 * (x / 2) + x % 2;
    Numbers.RemainderIs(x, 2 * m, q, 2 * r + x % 2);
  }

  lemma NextBit(x: nat, i: nat)
    ensures BitAt(x, i + 1) == BitAt(x / 2, i)
  {
    DivTwice(x, Pow2(i));
  }

  /** Below the width a bit of the result is the product of the two bits for And, their
      maximum for Or, their sum modulo 2 for Xor. */
  lemma {:induction false} BitOfBitwise(op: Op, a: nat, b: nat, width: nat, i: nat)
    requires i < width
    ensures BitAt(Bitwise(op, a, b, width), i)
         == match op
            case And => BitAt(a, i) * BitAt(b, i)
            case Or => Max(BitAt(a, i), BitAt(b, i))
            case Xor => (BitAt(a, i) + BitAt(b, i)) % 2
  {
    var r, low := Bitwise(op, a / 2, b / 2, width - 1), Bitwise(op, a, b, width) % 2;
    assert Bitwise(op, a, b, width) / 2 == r;
    assert Pow2(0) == 1;
    if i > 0 {
      BitOfBitwise(op, a / 2, b / 2, width - 1, i - 1);
      NextBit(Bitwise(op, a, b, width), i - 1);
      NextBit(a, i - 1);
      NextBit(b, i - 1);
      hide Bitwise, BitAt;
    }
  }

  /** A higher power of two does not show in the lower bits. */
  lemma {:induction false} HighPowerIsUnseen(x: nat, w: nat, i: nat)
    requires i < w
    ensures BitAt(x + Pow2(w), i) == BitAt(x, i)
  {
    hide BitAt;
    HalfOfSum(x, w);
    if i > 0 {
      HighPowerIsUnseen(x / 2, w - 1, i - 1);
      NextBit(x + Pow2(w), i - 1);
      NextBit(x, i - 1);
    } else {
      LowBit(x);
      LowBit(x + Pow2(w));
    }
  }

  lemma LowBit(x: nat)
    ensures BitAt(x, 0) == x % 2
  {
    assert Pow2(0) == 1;
  }

  lemma HalfOfSum(x: nat, w: nat)
    requires w > 0
    ensures (x + Pow2(w)) / 2 == x / 2 + Pow2(w - 1) && (x + Pow2(w)) % 2 == x % 2
  {
  }

  lemma {:induction false} FlippedBits(x: nat, w: nat, i: nat)
    requires i < w && x < Pow2(w)
    ensures BitAt(Pow2(w) - 1 - x, i) == 1 - BitAt(x, i)
  {
    var y := Pow2(w) - 1 - x;
    assert Pow2(w) == 2 * Pow2(w - 1) && Pow2(0) == 1;
    assert y / 2 == Pow2(w - 1) - 1 - x / 2;
    if i > 0 {
      FlippedBits(x / 2, w - 1, i - 1);
      NextBit(y, i - 1);
      NextBit(x, i - 1);
      hide BitAt;
    }
  }

  lemma {:induction false} NoBitAbove(x: nat, w: nat, i: nat)
    requires x < Pow2(w) && w <= i
    ensures BitAt(x, i) == 0
  {
    if w == 0 {
      assert x == 0;
    } else {
      NextBit(x, i - 1);
      NoBitAbove(x / 2, w - 1, i - 1);
      hide BitAt;
    }
  }

  lemma {:induction false} XorTwice(a: nat, b: nat, width: nat)
    requires a < Pow2(width)
    ensures Bitwise(Xor, Bitwise(Xor, a, b, width), b, width) == a
  {
    if width > 0 { XorTwice(a / 2, b / 2, width - 1); }
  }

  lemma {:induction false} OrKeeps(a: nat, b: nat, width: nat)
    requires a < Pow2(width) && (b == a || b == 0)
    ensures Bitwise(Or, a, b, width) == a
  {
    if width > 0 { OrKeeps(a / 2, b / 2, width - 1); }
  }

  function XorByte(a: byte, b: byte): byte {
    assert Pow2(8) == 256;
    Bitwise(Xor, a, b, 8)
  }

  lemma BitOfXorByte(a: byte, b: byte, i: nat)
    requires i < 8
    ensures XorByte(a, b) as int / Pow2(i) % 2 == (a as int / Pow2(i) % 2 + b as int / Pow2(i) % 2) % 2
  {
    BitOfBitwise(Xor, a, b, 8, i);
    hide Bitwise, Pow2;
  }

  lemma XorByteTwice(a: byte, b: byte)
    ensures XorByte(XorByte(a, b), b) == a
  {
    assert Pow2(8) == 256;
    XorTwice(a, b, 8);
  }

  lemma Pow2Of32()
    ensures Pow2(32) == 0x1_0000_0000
  {
    assert Pow2(8) == 0x100;
    assert Pow2(16) == 0x1_0000;
    assert Pow2(24) == 0x100_0000;
  }

  function OnWords(op: Op, a: word, b: word): word {
    assert Pow2(32) == 0x1_0000_0000 by { Pow2Of32(); }
    Bitwise(op, a, b, 32)
  }

  lemma BitOfWords(op: Op, a: word, b: word, i: nat)
    requires i < 32
    ensures BitAt(OnWords(op, a, b), i)
         == match op
            case And => BitAt(a, i) * BitAt(b, i)
            case Or => Max(BitAt(a, i), BitAt(b, i))
            case Xor => (BitAt(a, i) + BitAt(b, i)) % 2
  {
    BitOfBitwise(op, a, b, 32, i);
    hide Bitwise, BitAt;
  }

  /** a ^= b on equal-length strings */
  function XorSeq(a: seq<byte>, b: seq<byte>): (r: seq<byte>)
    requires |a| == |b|
    ensures |r| == |a|
    ensures forall i | 0 <= i < |a| :: r[i] == XorByte(a[i], b[i])
  {
    seq(|a|, i requires 0 <= i < |a| => XorByte(a[i], b[i]))
  }

  lemma XorSeqTwice(a: seq<byte>, b: seq<byte>)
    requires |a| == |b|
    ensures XorSeq(XorSeq(a, b), b) == a
  {
    forall i | 0 <= i < |a| ensures XorSeq(XorSeq(a, b), b)[i] == a[i] {
      XorByteTwice(a[i], b[i]);
    }
  }

  function Zeros(n: nat): (z: seq<byte>)
    ensures |z| == n && forall i | 0 <= i < n :: z[i] == 0
  {
    seq(n, _ => 0)
  }
}
