/** Powers and remainders of natural numbers. */
module Numbers {
  function Pow(b: nat, e: nat): nat {
    if e == 0 then 1 else b * Pow(b, e - 1)
  }

  lemma Commute(a: int, b: int)
    ensures a * b == b * a
  {
  }

  lemma Regroup(a: int, b: int, c: int)
    ensures a * (b * c) == (a * b) * c
  {
  }

  lemma Distribute(a: int, b: int, c: int)
    ensures (a + b) * c == a * c + b * c
  {
  }

  lemma ProductIsNat(a: nat, b: nat)
    ensures a * b >= 0
  {
  }

  lemma DivMod(x: nat, m: nat)
    requires m > 0
    ensures x == m * (x / m) + x % m && 0 <= x % m < m
  {
  }

  lemma AtLeastOneFactor(m: nat, d: int)
    ensures d >= 1 ==> m * d >= m
    ensures d <= -1 ==> m * d <= 0 - m
  {
  }

  /** Quotient and remainder are unique. */
  lemma RemainderIs(x: nat, m: nat, q: int, r: nat)
    requires m > 0 && r < m && x == m * q + r
    ensures x % m == r && x / m == q
  {
    DivMod(x, m);
    var d := q - x / m;
    assert m * d == x % m - r by { assert m * q - m * (x / m) == m * d; }
    AtLeastOneFactor(m, d);
  }

  lemma AddMultiple(x: nat, k: nat, m: nat)
    requires m > 0
    ensures x + m * k >= 0 && (x + m * k) % m == x % m
  {
    ProductIsNat(m, k);
    DivMod(x, m);
    assert x + m * k == m * (x / m + k) + x % m;
    RemainderIs(x + m * k, m, x / m + k, x % m);
  }

  /** A factor may be reduced before multiplying. */
  lemma ReduceFactor(a: nat, b: nat, m: nat)
    requires m > 0
    ensures (a % m) * b >= 0 && a * b >= 0 && ((a % m) * b) % m == (a * b) % m
  {
    var q, r := a / m, a % m;
    DivMod(a, m);
    ProductIsNat(r, b);
    ProductIsNat(q, b);
    assert a * b == r * b + m * (q * b) by {
      Distribute(m * q, r, b);
      Regroup(m, q, b);
    }
    AddMultiple(r * b, q * b, m);
  }

  lemma ReduceBoth(a: nat, b: nat, m: nat)
    requires m > 0
    ensures (a % m) * (b % m) >= 0 && a * b >= 0 && ((a % m) * (b % m)) % m == (a * b) % m
  {
    ReduceFactor(a, b % m, m);
    Commute(a, b % m);
    ReduceFactor(b, a, m);
    Commute(b, a);
    Commute(b % m, a);
  }

  lemma {:induction false} PowReduced(b: nat, e: nat, m: nat)
    requires m > 0
    ensures Pow(b % m, e) % m == Pow(b, e) % m
  {
    if e > 0 {
      var p, p' := Pow(b, e - 1), Pow(b % m, e - 1);
      PowReduced(b, e - 1, m);
      ReduceFactor(b, p', m);
      Commute(b, p');
      ReduceFactor(p', b, m);
      ReduceFactor(p, b, m);
      Commute(p, b);
    }
  }

  lemma {:induction false} PowSquare(b: nat, e: nat)
    ensures b * b >= 0 && Pow(b * b, e) == Pow(b, 2 * e)
  {
    ProductIsNat(b, b);
    if e > 0 {
      PowSquare(b, e - 1);
      assert Pow(b, 2 * e) == b * Pow(b, 2 * e - 1) == b * (b * Pow(b, 2 * e - 2));
      Regroup(b, b, Pow(b, 2 * e - 2));
    }
  }

  lemma {:induction false} PowPositive(b: nat, e: nat)
    requires b > 0
    ensures Pow(b, e) > 0
  {
    if e > 0 { PowPositive(b, e - 1); }
  }
}

/** Big-endian octet strings (RFC 8017, sections 4.1 and 4.2). */
module Octets {
  import opened Bits
  import opened Numbers

  function I2OSP(x: nat, len: nat): (b: seq<byte>)
    ensures |b| == len
  {
    if len == 0 then [] else I2OSP(x / 256, len - 1) + [x % 256]
  }

  function OS2IP(b: seq<byte>): nat {
    if b == [] then 0 else OS2IP(b[..|b| - 1]) * 256 + b[|b| - 1]
  }

  lemma {:induction false} OS2IPBound(b: seq<byte>)
    ensures OS2IP(b) < Pow(256, |b|)
  {
    if b != [] { OS2IPBound(b[..|b| - 1]); }
  }

  lemma {:induction false} I2OSPofOS2IP(b: seq<byte>)
    ensures I2OSP(OS2IP(b), |b|) == b
  {
    if b != [] { I2OSPofOS2IP(b[..|b| - 1]); }
  }

  lemma {:induction false} OS2IPofI2OSP(x: nat, len: nat)
    requires x < Pow(256, len)
    ensures OS2IP(I2OSP(x, len)) == x
  {
    if len > 0 {
      OS2IPofI2OSP(x / 256, len - 1);
      var b := I2OSP(x, len);
      assert b[..len - 1] == I2OSP(x / 256, len - 1);
    }
  }

  lemma {:induction false} LeadingZeros(n: nat, b: seq<byte>)
    ensures OS2IP(Zeros(n) + b) == OS2IP(b)
  {
    hide OS2IP;
    if n == 0 {
      assert Zeros(0) + b == b;
    } else {
      var z := Zeros(n) + b;
      assert z[1..] == Zeros(n - 1) + b;
      LeadingZero(z);
      LeadingZeros(n - 1, b);
    }
  }

  /** Most significant octet first. */
  lemma {:induction false} OS2IPIsBigEndian(x: byte, b: seq<byte>)
    ensures OS2IP([x] + b) == x as int * Pow(256, |b|) + OS2IP(b)
  {
    if b == [] {
      assert [x] + b == [x] && [x][..0] == [];
    } else {
      var s, init := [x] + b, b[..|b| - 1];
      assert s[..|s| - 1] == [x] + init && s[|s| - 1] == b[|b| - 1];
      OS2IPIsBigEndian(x, init);
      Regroup(x, Pow(256, |init|), 256);
      Commute(Pow(256, |init|), 256);
    }
  }

  lemma {:induction false} LeadingZero(b: seq<byte>)
    requires b != [] && b[0] == 0
    ensures OS2IP(b) == OS2IP(b[1..])
  {
    if |b| > 1 {
      var init := b[..|b| - 1];
      LeadingZero(init);
      assert init[1..] == b[1..][..|b| - 2];
    }
  }
}
