/** SHA-256: the standard (FIPS 180-4) and the login page's own implementation of it
    (internal/web/static/loginenc.js), with the JavaScript number rules it relies on. */
module Fips180 {
  import opened Bits
  import Numbers
  import Octets
  import Seqs

  const M32 := 0x1_0000_0000

  // Section 4.2.2
  function K0(): (k: seq<word>)
    ensures |k| == 16
  {
    [0x428a2f98, 0x71374491, 0xb5c0fbcf, 0xe9b5dba5, 0x3956c25b, 0x59f111f1, 0x923f82a4, 0xab1c5ed5,
     0xd807aa98, 0x12835b01, 0x243185be, 0x550c7dc3, 0x72be5d74, 0x80deb1fe, 0x9bdc06a7, 0xc19bf174]
  }

  function K1(): (k: seq<word>)
    ensures |k| == 16
  {
    [0xe49b69c1, 0xefbe4786, 0x0fc19dc6, 0x240ca1cc, 0x2de92c6f, 0x4a7484aa, 0x5cb0a9dc, 0x76f988da,
     0x983e5152, 0xa831c66d, 0xb00327c8, 0xbf597fc7, 0xc6e00bf3, 0xd5a79147, 0x06ca6351, 0x14292967]
  }

  function K2(): (k: seq<word>)
    ensures |k| == 16
  {
    [0x27b70a85, 0x2e1b2138, 0x4d2c6dfc, 0x53380d13, 0x650a7354, 0x766a0abb, 0x81c2c92e, 0x92722c85,
     0xa2bfe8a1, 0xa81a664b, 0xc24b8b70, 0xc76c51a3, 0xd192e819, 0xd6990624, 0xf40e3585, 0x106aa070]
  }

  function K3(): (k: seq<word>)
    ensures |k| == 16
  {
    [0x19a4c116, 0x1e376c08, 0x2748774c, 0x34b0bcb5, 0x391c0cb3, 0x4ed8aa4a, 0x5b9cca4f, 0x682e6ff3,
     0x748f82ee, 0x78a5636f, 0x84c87814, 0x8cc70208, 0x90befffa, 0xa4506ceb, 0xbef9a3f7, 0xc67178f2]
  }

  function K(): (k: seq<word>)
    ensures |k| == 64
  {
    K0() + K1() + K2() + K3()
  }

  lemma KInOrder()
    ensures K()[..16] == K0() && K()[16..32] == K1() && K()[32..48] == K2() && K()[48..] == K3()
  {
    hide K0, K1, K2, K3;
  }

  // Sections 2.2.2 and 3.2
  function Add(x: word, y: word): word { (x as int + y as int) % M32 }
  function Complement(x: word): word { M32 - 1 - x as int }
  function Shr(x: word, n: nat): word { if n == 0 then x else Shr(x / 2, n - 1) }
  function Shl(x: word, n: nat): word
    decreases n
  {
    if n == 0 then x else Shl((2 * x as int) % M32, n - 1)
  }
  function Rotr(x: word, n: nat): word
    requires n < 32
  {
    OnWords(Or, Shr(x, n), Shl(x, 32 - n))
  }
  function Xor3(x: word, y: word, z: word): word { OnWords(Xor, OnWords(Xor, x, y), z) }

  // Section 4.1.2
  function Ch(x: word, y: word, z: word): word {
    OnWords(Xor, OnWords(And, x, y), OnWords(And, Complement(x), z))
  }
  function Maj(x: word, y: word, z: word): word {
    Xor3(OnWords(And, x, y), OnWords(And, x, z), OnWords(And, y, z))
  }
  function BigSigma0(x: word): word { Xor3(Rotr(x, 2), Rotr(x, 13), Rotr(x, 22)) }
  function BigSigma1(x: word): word { Xor3(Rotr(x, 6), Rotr(x, 11), Rotr(x, 25)) }
  function SmallSigma0(x: word): word { Xor3(Rotr(x, 7), Rotr(x, 18), Shr(x, 3)) }
  function SmallSigma1(x: word): word { Xor3(Rotr(x, 17), Rotr(x, 19), Shr(x, 10)) }

  // ---- What these functions do, bit by bit ----

  /** Every step left doubles modulo 2^32. */
  lemma {:induction false} ShlIsTimes(x: word, n: nat)
    ensures Pow2(n) * x as int >= 0 && Shl(x, n) == Pow2(n) * x as int % M32
    decreases n
  {
    if n > 0 {
      var y: word := (2 * x as int) % M32;
      ShlIsTimes(y, n - 1);
      Numbers.ReduceFactor(2 * x as int, Pow2(n - 1), M32);
      Numbers.Commute(2 * x as int, Pow2(n - 1));
      Numbers.Commute(y, Pow2(n - 1));
      Numbers.Regroup(Pow2(n - 1), 2, x);
    }
  }

  lemma {:induction false} ShrIsDivision(x: word, n: nat)
    ensures Shr(x, n) as int == x as int / Pow2(n)
  {
    if n > 0 {
      ShrIsDivision(x / 2, n - 1);
      DivTwice(x, Pow2(n - 1));
    } else {
      assert Pow2(0) == 1;
    }
  }

  /** Shifting right moves bit i + n to bit i. */
  lemma {:induction false} BitOfShr(x: word, n: nat, i: nat)
    ensures BitAt(Shr(x, n), i) == BitAt(x, i + n)
  {
    if n > 0 {
      BitOfShr(x / 2, n - 1, i);
      NextBit(x, i + n - 1);
      hide BitAt;
    }
  }

  lemma BitOfDouble(x: word, i: nat)
    requires i < 32
    ensures BitAt(2 * x as int % M32, i) == if i == 0 then 0 else BitAt(x, i - 1)
  {
    hide BitAt, Pow2;
    var y: nat := 2 * x as int % M32;
    HalfOfDouble(x);
    if i == 0 {
      LowBit(y);
    } else {
      NextBit(y, i - 1);
      if x >= 0x8000_0000 { HighPowerIsUnseen(y / 2, 31, i - 1); }
    }
  }

  lemma HalfOfDouble(x: word)
    ensures Pow2(31) == 0x8000_0000 && 2 * x as int % M32 % 2 == 0
    ensures 2 * x as int % M32 / 2 == if x >= 0x8000_0000 then x as int - 0x8000_0000 else x as int
  {
    Pow2Of32();
    hide Pow2;
    HalfPow2();
  }

  lemma HalfPow2()
    requires Pow2(32) == M32
    ensures Pow2(31) == 0x8000_0000
  {
  }

  /** Shifting left moves bit i - n to bit i and fills up with zeros. */
  lemma {:induction false} BitOfShl(x: word, n: nat, i: nat)
    requires i < 32
    ensures BitAt(Shl(x, n), i) == if i < n then 0 else BitAt(x, i - n)
    decreases n
  {
    if n > 0 {
      var y: word := (2 * x as int) % M32;
      BitOfShl(y, n - 1, i);
      if i >= n { BitOfDouble(x, i - (n - 1)); } else if i == n - 1 { BitOfDouble(x, 0); }
      hide BitAt;
    }
  }

  /** Rotating right by n moves bit (i + n) mod 32 to bit i. */
  lemma BitOfRotr(x: word, n: nat, i: nat)
    requires n < 32 && i < 32
    ensures BitAt(Rotr(x, n), i) == BitAt(x, (i + n) % 32)
  {
    hide BitAt, Pow2, Shr, Shl, OnWords;
    BitOfWords(Or, Shr(x, n), Shl(x, 32 - n), i);
    BitOfShr(x, n, i);
    BitOfShl(x, 32 - n, i);
    if i + n >= 32 {
      WordEnds(x, i + n);
    }
  }

  lemma WordEnds(x: word, i: nat)
    requires i >= 32
    ensures BitAt(x, i) == 0
  {
    Pow2Of32();
    NoBitAbove(x, 32, i);
    hide BitAt;
  }

  lemma BitOfXor3(x: word, y: word, z: word, i: nat)
    requires i < 32
    ensures BitAt(Xor3(x, y, z), i) == (BitAt(x, i) + BitAt(y, i) + BitAt(z, i)) % 2
  {
    hide BitAt, OnWords;
    BitOfWords(Xor, x, y, i);
    BitOfWords(Xor, OnWords(Xor, x, y), z, i);
    AddThird(BitAt(x, i), BitAt(y, i), BitAt(z, i));
  }

  lemma AddThird(a: nat, b: nat, c: nat)
    ensures ((a + b) % 2 + c) % 2 == (a + b + c) % 2
  {
  }

  lemma BitOfComplement(x: word, i: nat)
    requires i < 32
    ensures BitAt(Complement(x), i) == 1 - BitAt(x, i)
  {
    Pow2Of32();
    FlippedBits(x, 32, i);
    hide BitAt;
  }

  /** Ch takes each bit from y where x has 1, and from z where x has 0. */
  lemma BitOfCh(x: word, y: word, z: word, i: nat)
    requires i < 32
    ensures BitAt(Ch(x, y, z), i) == if BitAt(x, i) == 1 then BitAt(y, i) else BitAt(z, i)
  {
    hide BitAt, OnWords, Complement;
    BitOfComplement(x, i);
    BitOfWords(And, x, y, i);
    BitOfWords(And, Complement(x), z, i);
    BitOfWords(Xor, OnWords(And, x, y), OnWords(And, Complement(x), z), i);
  }

  /** Maj takes the bit that at least two of the three have. */
  lemma BitOfMaj(x: word, y: word, z: word, i: nat)
    requires i < 32
    ensures BitAt(Maj(x, y, z), i) == 1 <==> BitAt(x, i) + BitAt(y, i) + BitAt(z, i) >= 2
  {
    hide BitAt, OnWords, Xor3;
    BitOfWords(And, x, y, i);
    BitOfWords(And, x, z, i);
    BitOfWords(And, y, z, i);
    BitOfXor3(OnWords(And, x, y), OnWords(And, x, z), OnWords(And, y, z), i);
  }

  /** The four mixes add up, modulo 2, three bits of x; for a shift the third is 0 once it
      lies beyond the word. */
  lemma BitsOfSigmas(x: word, i: nat)
    requires i < 32
    ensures BitAt(BigSigma0(x), i)
         == (BitAt(x, (i + 2) % 32) + BitAt(x, (i + 13) % 32) + BitAt(x, (i + 22) % 32)) % 2
    ensures BitAt(BigSigma1(x), i)
         == (BitAt(x, (i + 6) % 32) + BitAt(x, (i + 11) % 32) + BitAt(x, (i + 25) % 32)) % 2
    ensures BitAt(SmallSigma0(x), i)
         == (BitAt(x, (i + 7) % 32) + BitAt(x, (i + 18) % 32) + (if i < 29 then BitAt(x, i + 3) else 0)) % 2
    ensures BitAt(SmallSigma1(x), i)
         == (BitAt(x, (i + 17) % 32) + BitAt(x, (i + 19) % 32) + (if i < 22 then BitAt(x, i + 10) else 0)) % 2
  {
    hide BitAt, Xor3, Rotr, Shr;
    BitOfRotations(x, 2, 13, 22, i);
    BitOfRotations(x, 6, 11, 25, i);
    BitOfRotationsAndShift(x, 7, 18, 3, i);
    BitOfRotationsAndShift(x, 17, 19, 10, i);
  }

  lemma BitOfRotations(x: word, p: nat, q: nat, r: nat, i: nat)
    requires p < 32 && q < 32 && r < 32 && i < 32
    ensures BitAt(Xor3(Rotr(x, p), Rotr(x, q), Rotr(x, r)), i)
         == (BitAt(x, (i + p) % 32) + BitAt(x, (i + q) % 32) + BitAt(x, (i + r) % 32)) % 2
  {
    hide BitAt, Xor3, Rotr;
    BitOfXor3(Rotr(x, p), Rotr(x, q), Rotr(x, r), i);
    BitOfRotr(x, p, i);
    BitOfRotr(x, q, i);
    BitOfRotr(x, r, i);
  }

  lemma BitOfRotationsAndShift(x: word, p: nat, q: nat, r: nat, i: nat)
    requires p < 32 && q < 32 && r < 32 && i < 32
    ensures BitAt(Xor3(Rotr(x, p), Rotr(x, q), Shr(x, r)), i)
         == (BitAt(x, (i + p) % 32) + BitAt(x, (i + q) % 32) + (if i + r < 32 then BitAt(x, i + r) else 0)) % 2
  {
    hide BitAt, Xor3, Rotr, Shr;
    BitOfXor3(Rotr(x, p), Rotr(x, q), Shr(x, r), i);
    BitOfRotr(x, p, i);
    BitOfRotr(x, q, i);
    BitOfShr(x, r, i);
    if i + r >= 32 { WordEnds(x, i + r); }
  }

  /** The big-endian word at byte i. */
  function WordAt(b: seq<byte>, i: nat): word
    requires i + 4 <= |b|
  {
    ((b[i] as int * 256 + b[i + 1] as int) * 256 + b[i + 2] as int) * 256 + b[i + 3] as int
  }

  function WordBytes(x: word): (b: seq<byte>)
    ensures |b| == 4
  {
    [x / 0x100_0000, x / 0x1_0000 % 256, x / 0x100 % 256, x % 256]
  }

  /** Words stand in the octets most significant first. */
  lemma WordAtIsBigEndian(b: seq<byte>, i: nat)
    requires i + 4 <= |b|
    ensures WordAt(b, i) == Octets.OS2IP(b[i..i + 4])
  {
    OctetsOfFour(b[i..i + 4]);
    hide Octets.OS2IP;
  }

  lemma WordBytesAreBigEndian(x: word)
    ensures WordBytes(x) == Octets.I2OSP(x, 4) && Octets.OS2IP(WordBytes(x)) == x
  {
    hide Octets.OS2IP, Octets.I2OSP;
    OctetsOfFour(WordBytes(x));
    BytesMakeWord(x);
    Octets.I2OSPofOS2IP(WordBytes(x));
  }

  lemma BytesMakeWord(x: word)
    ensures var b := WordBytes(x);
            ((b[0] as int * 256 + b[1] as int) * 256 + b[2] as int) * 256 + b[3] as int == x
  {
  }

  lemma OctetsOfFour(b: seq<byte>)
    requires |b| == 4
    ensures Octets.OS2IP(b) == ((b[0] as int * 256 + b[1] as int) * 256 + b[2] as int) * 256 + b[3] as int
  {
    assert b[..3][..2] == b[..2] && b[..2][..1] == b[..1] && b[..1][..0] == [];
    assert Octets.OS2IP(b[..1]) == b[0] as int;
    assert Octets.OS2IP(b[..2]) == b[0] as int * 256 + b[1] as int;
  }

  // Section 5.1.1, for a message of whole bytes: k zero bits follow the 1 bit, where k is
  // the smallest solution of bits + 1 + k = 448 (mod 512).
  function ZeroBits(bits: nat): (k: nat)
    ensures (bits + 1 + k) % 512 == 448 && k < 512
  {
    (447 - bits) % 512
  }

  lemma ZeroBytes(len: nat)
    ensures ZeroBits(8 * len) == 8 * ((55 - len) % 64) + 7
    ensures (len + 9 + (55 - len) % 64) % 64 == 0
  {
    var q, r := (55 - len) / 64, (55 - len) % 64;
    assert 55 - len == 64 * q + r;
    assert 447 - 8 * len == 512 * q + (8 * r + 7);
    assert len + 9 + r == 64 * (1 - q);
  }

  function Padded(m: seq<byte>): (p: seq<byte>)
    requires 8 * |m| < 0x1_0000_0000_0000_0000
    ensures |p| == |m| + 9 + (55 - |m|) % 64 && |p| % 64 == 0
  {
    ZeroBytes(|m|);
    var bits := 8 * |m|;
    m + [0x80] + Zeros((ZeroBits(bits) - 7) / 8) + WordBytes(bits / M32) + WordBytes(bits % M32)
  }

  datatype State = State(a: word, b: word, c: word, d: word, e: word, f: word, g: word, h: word)

  // Section 5.3.3
  const H0 := State(0x6a09e667, 0xbb67ae85, 0x3c6ef372, 0xa54ff53a,
                    0x510e527f, 0x9b05688c, 0x1f83d9ab, 0x5be0cd19)

  // ---- Where the constants come from (sections 4.2.2 and 5.3.3) ----

  /** k is the first 32 bits of the fraction of the cube root of p. */
  predicate IsCubeRoot(k: word, p: nat, whole: nat) {
    var c := whole * M32 + k;
    c * c * c <= p * (M32 * M32 * M32) < (c + 1) * (c + 1) * (c + 1)
  }

  predicate IsSquareRoot(k: word, p: nat, whole: nat) {
    var c := whole * M32 + k;
    c * c <= p * (M32 * M32) < (c + 1) * (c + 1)
  }

  lemma CubeRoots0()
    ensures IsCubeRoot(0x428a2f98, 2, 1) && IsCubeRoot(0x71374491, 3, 1)
    ensures IsCubeRoot(0xb5c0fbcf, 5, 1) && IsCubeRoot(0xe9b5dba5, 7, 1)
    ensures IsCubeRoot(0x3956c25b, 11, 2) && IsCubeRoot(0x59f111f1, 13, 2)
    ensures IsCubeRoot(0x923f82a4, 17, 2) && IsCubeRoot(0xab1c5ed5, 19, 2)
    ensures IsCubeRoot(0xd807aa98, 23, 2) && IsCubeRoot(0x12835b01, 29, 3)
    ensures IsCubeRoot(0x243185be, 31, 3) && IsCubeRoot(0x550c7dc3, 37, 3)
    ensures IsCubeRoot(0x72be5d74, 41, 3) && IsCubeRoot(0x80deb1fe, 43, 3)
    ensures IsCubeRoot(0x9bdc06a7, 47, 3) && IsCubeRoot(0xc19bf174, 53, 3)
  {
  }

  /** The round constants of steps 0 to 15 are the cube roots of their primes. */
  lemma K0IsCubeRoots()
    ensures IsCubeRoot(K0()[0], 2, 1) && IsCubeRoot(K0()[1], 3, 1)
    ensures IsCubeRoot(K0()[2], 5, 1) && IsCubeRoot(K0()[3], 7, 1)
    ensures IsCubeRoot(K0()[4], 11, 2) && IsCubeRoot(K0()[5], 13, 2)
    ensures IsCubeRoot(K0()[6], 17, 2) && IsCubeRoot(K0()[7], 19, 2)
    ensures IsCubeRoot(K0()[8], 23, 2) && IsCubeRoot(K0()[9], 29, 3)
    ensures IsCubeRoot(K0()[10], 31, 3) && IsCubeRoot(K0()[11], 37, 3)
    ensures IsCubeRoot(K0()[12], 41, 3) && IsCubeRoot(K0()[13], 43, 3)
    ensures IsCubeRoot(K0()[14], 47, 3) && IsCubeRoot(K0()[15], 53, 3)
  {
    CubeRoots0();
    hide IsCubeRoot;
  }

  lemma CubeRoots1()
    ensures IsCubeRoot(0xe49b69c1, 59, 3) && IsCubeRoot(0xefbe4786, 61, 3)
    ensures IsCubeRoot(0x0fc19dc6, 67, 4) && IsCubeRoot(0x240ca1cc, 71, 4)
    ensures IsCubeRoot(0x2de92c6f, 73, 4) && IsCubeRoot(0x4a7484aa, 79, 4)
    ensures IsCubeRoot(0x5cb0a9dc, 83, 4) && IsCubeRoot(0x76f988da, 89, 4)
    ensures IsCubeRoot(0x983e5152, 97, 4) && IsCubeRoot(0xa831c66d, 101, 4)
    ensures IsCubeRoot(0xb00327c8, 103, 4) && IsCubeRoot(0xbf597fc7, 107, 4)
    ensures IsCubeRoot(0xc6e00bf3, 109, 4) && IsCubeRoot(0xd5a79147, 113, 4)
    ensures IsCubeRoot(0x06ca6351, 127, 5) && IsCubeRoot(0x14292967, 131, 5)
  {
  }

  /** The round constants of steps 16 to 31 are the cube roots of their primes. */
  lemma K1IsCubeRoots()
    ensures IsCubeRoot(K1()[0], 59, 3) && IsCubeRoot(K1()[1], 61, 3)
    ensures IsCubeRoot(K1()[2], 67, 4) && IsCubeRoot(K1()[3], 71, 4)
    ensures IsCubeRoot(K1()[4], 73, 4) && IsCubeRoot(K1()[5], 79, 4)
    ensures IsCubeRoot(K1()[6], 83, 4) && IsCubeRoot(K1()[7], 89, 4)
    ensures IsCubeRoot(K1()[8], 97, 4) && IsCubeRoot(K1()[9], 101, 4)
    ensures IsCubeRoot(K1()[10], 103, 4) && IsCubeRoot(K1()[11], 107, 4)
    ensures IsCubeRoot(K1()[12], 109, 4) && IsCubeRoot(K1()[13], 113, 4)
    ensures IsCubeRoot(K1()[14], 127, 5) && IsCubeRoot(K1()[15], 131, 5)
  {
    CubeRoots1();
    hide IsCubeRoot;
  }

  lemma CubeRoots2()
    ensures IsCubeRoot(0x27b70a85, 137, 5) && IsCubeRoot(0x2e1b2138, 139, 5)
    ensures IsCubeRoot(0x4d2c6dfc, 149, 5) && IsCubeRoot(0x53380d13, 151, 5)
    ensures IsCubeRoot(0x650a7354, 157, 5) && IsCubeRoot(0x766a0abb, 163, 5)
    ensures IsCubeRoot(0x81c2c92e, 167, 5) && IsCubeRoot(0x92722c85, 173, 5)
    ensures IsCubeRoot(0xa2bfe8a1, 179, 5) && IsCubeRoot(0xa81a664b, 181, 5)
    ensures IsCubeRoot(0xc24b8b70, 191, 5) && IsCubeRoot(0xc76c51a3, 193, 5)
    ensures IsCubeRoot(0xd192e819, 197, 5) && IsCubeRoot(0xd6990624, 199, 5)
    ensures IsCubeRoot(0xf40e3585, 211, 5) && IsCubeRoot(0x106aa070, 223, 6)
  {
  }

  /** The round constants of steps 32 to 47 are the cube roots of their primes. */
  lemma K2IsCubeRoots()
    ensures IsCubeRoot(K2()[0], 137, 5) && IsCubeRoot(K2()[1], 139, 5)
    ensures IsCubeRoot(K2()[2], 149, 5) && IsCubeRoot(K2()[3], 151, 5)
    ensures IsCubeRoot(K2()[4], 157, 5) && IsCubeRoot(K2()[5], 163, 5)
    ensures IsCubeRoot(K2()[6], 167, 5) && IsCubeRoot(K2()[7], 173, 5)
    ensures IsCubeRoot(K2()[8], 179, 5) && IsCubeRoot(K2()[9], 181, 5)
    ensures IsCubeRoot(K2()[10], 191, 5) && IsCubeRoot(K2()[11], 193, 5)
    ensures IsCubeRoot(K2()[12], 197, 5) && IsCubeRoot(K2()[13], 199, 5)
    ensures IsCubeRoot(K2()[14], 211, 5) && IsCubeRoot(K2()[15], 223, 6)
  {
    CubeRoots2();
    hide IsCubeRoot;
  }

  lemma CubeRoots3()
    ensures IsCubeRoot(0x19a4c116, 227, 6) && IsCubeRoot(0x1e376c08, 229, 6)
    ensures IsCubeRoot(0x2748774c, 233, 6) && IsCubeRoot(0x34b0bcb5, 239, 6)
    ensures IsCubeRoot(0x391c0cb3, 241, 6) && IsCubeRoot(0x4ed8aa4a, 251, 6)
    ensures IsCubeRoot(0x5b9cca4f, 257, 6) && IsCubeRoot(0x682e6ff3, 263, 6)
    ensures IsCubeRoot(0x748f82ee, 269, 6) && IsCubeRoot(0x78a5636f, 271, 6)
    ensures IsCubeRoot(0x84c87814, 277, 6) && IsCubeRoot(0x8cc70208, 281, 6)
    ensures IsCubeRoot(0x90befffa, 283, 6) && IsCubeRoot(0xa4506ceb, 293, 6)
    ensures IsCubeRoot(0xbef9a3f7, 307, 6) && IsCubeRoot(0xc67178f2, 311, 6)
  {
  }

  /** The round constants of steps 48 to 63 are the cube roots of their primes. */
  lemma K3IsCubeRoots()
    ensures IsCubeRoot(K3()[0], 227, 6) && IsCubeRoot(K3()[1], 229, 6)
    ensures IsCubeRoot(K3()[2], 233, 6) && IsCubeRoot(K3()[3], 239, 6)
    ensures IsCubeRoot(K3()[4], 241, 6) && IsCubeRoot(K3()[5], 251, 6)
    ensures IsCubeRoot(K3()[6], 257, 6) && IsCubeRoot(K3()[7], 263, 6)
    ensures IsCubeRoot(K3()[8], 269, 6) && IsCubeRoot(K3()[9], 271, 6)
    ensures IsCubeRoot(K3()[10], 277, 6) && IsCubeRoot(K3()[11], 281, 6)
    ensures IsCubeRoot(K3()[12], 283, 6) && IsCubeRoot(K3()[13], 293, 6)
    ensures IsCubeRoot(K3()[14], 307, 6) && IsCubeRoot(K3()[15], 311, 6)
  {
    CubeRoots3();
    hide IsCubeRoot;
  }

  /** The initial hash value holds the square roots of the first eight primes. */
  lemma InitialIsSquareRoots()
    ensures IsSquareRoot(H0.a, 2, 1) && IsSquareRoot(H0.b, 3, 1) && IsSquareRoot(H0.c, 5, 2)
    ensures IsSquareRoot(H0.d, 7, 2) && IsSquareRoot(H0.e, 11, 3) && IsSquareRoot(H0.f, 13, 3)
    ensures IsSquareRoot(H0.g, 17, 4) && IsSquareRoot(H0.h, 19, 4)
  {
  }

  // Section 6.2.2, step 1
  function NextWord(w16: word, w15: word, w7: word, w2: word): word {
    Add(Add(Add(SmallSigma1(w2), w7), SmallSigma0(w15)), w16)
  }

  /** Words that stand for sums modulo 2^32 add up to the sum of both. */
  lemma AddOfSums(x: word, y: word, a: nat, b: nat)
    requires x as int == a % M32 && y as int == b % M32
    ensures Add(x, y) as int == (a + b) % M32
  {
  }

  lemma WordIsReduced(x: word)
    ensures x as int == x as int % M32
  {
  }

  lemma ScheduleIs(block: seq<byte>, t: nat)
    requires |block| == 64 && t < 64
    ensures t < 16 ==> Schedule(block, t) == Octets.OS2IP(block[4 * t..4 * t + 4])
    ensures t >= 16 ==>
              Schedule(block, t) as int
              == (SmallSigma1(Schedule(block, t - 2)) as int + Schedule(block, t - 7) as int
                  + SmallSigma0(Schedule(block, t - 15)) as int + Schedule(block, t - 16) as int) % M32
  {
    hide Octets.OS2IP, WordAt, NextWord, SmallSigma0, SmallSigma1;
    if t < 16 {
      WordAtIsBigEndian(block, 4 * t);
    } else {
      NextWordIsSum(Schedule(block, t - 16), Schedule(block, t - 15), Schedule(block, t - 7), Schedule(block, t - 2));
    }
  }

  lemma SumOfFour(a: word, b: word, c: word, d: word)
    ensures Add(Add(Add(a, b), c), d) as int == (a as int + b as int + c as int + d as int) % M32
  {
    hide Add;
    WordIsReduced(a);
    WordIsReduced(b);
    WordIsReduced(c);
    WordIsReduced(d);
    AddOfSums(a, b, a, b);
    AddOfSums(Add(a, b), c, a as int + b as int, c);
    AddOfSums(Add(Add(a, b), c), d, a as int + b as int + c as int, d);
  }

  lemma SumOfFive(a: word, b: word, c: word, d: word, e: word)
    ensures Add(Add(Add(Add(a, b), c), d), e) as int
         == (a as int + b as int + c as int + d as int + e as int) % M32
  {
    hide Add;
    SumOfFour(a, b, c, d);
    WordIsReduced(e);
    AddOfSums(Add(Add(Add(a, b), c), d), e, a as int + b as int + c as int + d as int, e);
  }

  lemma NextWordIsSum(w16: word, w15: word, w7: word, w2: word)
    ensures NextWord(w16, w15, w7, w2)
         == (SmallSigma1(w2) as int + w7 as int + SmallSigma0(w15) as int + w16 as int) % M32
  {
    SumOfFour(SmallSigma1(w2), w7, SmallSigma0(w15), w16);
    hide Add, SmallSigma0, SmallSigma1;
  }

  function Schedule(block: seq<byte>, t: nat): word
    requires |block| == 64 && t < 64
  {
    if t < 16 then WordAt(block, 4 * t)
    else NextWord(Schedule(block, t - 16), Schedule(block, t - 15), Schedule(block, t - 7), Schedule(block, t - 2))
  }

  // Step 3
  function T1(s: State, k: word, w: word): word {
    Add(Add(Add(Add(s.h, BigSigma1(s.e)), Ch(s.e, s.f, s.g)), k), w)
  }

  function T2(s: State): word { Add(BigSigma0(s.a), Maj(s.a, s.b, s.c)) }

  function Round(s: State, k: word, w: word): State {
    var t1, t2 := T1(s, k, w), T2(s);
    State(Add(t1, t2), s.a, s.b, s.c, Add(s.d, t1), s.e, s.f, s.g)
  }

  lemma RoundsNext(s: State, block: seq<byte>, t: nat)
    requires |block| == 64 && t < 64
    ensures Rounds(s, block, 0) == s
    ensures Rounds(s, block, t + 1) == Round(Rounds(s, block, t), K()[t], Schedule(block, t))
  {
    hide Round, K, Schedule;
  }

  /** A round as one equation for each of the eight variables. */
  lemma RoundIs(s: State, k: word, w: word)
    ensures var t1 := s.h as int + BigSigma1(s.e) as int + Ch(s.e, s.f, s.g) as int + k as int + w as int;
            var t2 := BigSigma0(s.a) as int + Maj(s.a, s.b, s.c) as int;
            var r := Round(s, k, w);
            && r.a as int == (t1 + t2) % M32 && r.e as int == (s.d as int + t1) % M32
            && r.b == s.a && r.c == s.b && r.d == s.c && r.f == s.e && r.g == s.f && r.h == s.g
  {
    hide BigSigma0, BigSigma1, Ch, Maj, Add;
    var x1, x2, x3 := BigSigma1(s.e), Ch(s.e, s.f, s.g), BigSigma0(s.a);
    var x4 := Maj(s.a, s.b, s.c);
    SumOfFive(s.h, x1, x2, k, w);
    WordIsReduced(x3);
    WordIsReduced(x4);
    WordIsReduced(s.d);
    var t1: nat := s.h as int + x1 as int + x2 as int + k as int + w as int;
    AddOfSums(x3, x4, x3, x4);
    AddOfSums(T1(s, k, w), T2(s), t1, x3 as int + x4 as int);
    AddOfSums(s.d, T1(s, k, w), s.d, t1);
  }

  function Rounds(s: State, block: seq<byte>, t: nat): State
    requires |block| == 64 && t <= 64
  {
    if t == 0 then s else Round(Rounds(s, block, t - 1), K()[t - 1], Schedule(block, t - 1))
  }

  // Step 4
  function AddStates(s: State, r: State): State {
    State(Add(r.a, s.a), Add(r.b, s.b), Add(r.c, s.c), Add(r.d, s.d),
          Add(r.e, s.e), Add(r.f, s.f), Add(r.g, s.g), Add(r.h, s.h))
  }

  function Block(p: seq<byte>, n: nat): (b: seq<byte>)
    requires 64 * n + 64 <= |p|
    ensures |b| == 64
  {
    p[64 * n..64 * n + 64]
  }

  /** The hash value after the first n blocks of a padded message. */
  function AfterBlocks(p: seq<byte>, n: nat): State
    requires 64 * n <= |p|
  {
    if n == 0 then H0
    else
      var s := AfterBlocks(p, n - 1);
      AddStates(s, Rounds(s, Block(p, n - 1), 64))
  }

  function StateBytes(s: State): (b: seq<byte>)
    ensures |b| == 32
  {
    WordBytes(s.a) + WordBytes(s.b) + WordBytes(s.c) + WordBytes(s.d)
    + WordBytes(s.e) + WordBytes(s.f) + WordBytes(s.g) + WordBytes(s.h)
  }

  function DigestOfPadded(p: seq<byte>): (d: seq<byte>)
    requires |p| % 64 == 0
    ensures |d| == 32
  {
    StateBytes(AfterBlocks(p, |p| / 64))
  }

  function Sha256(m: seq<byte>): (d: seq<byte>)
    requires 8 * |m| < 0x1_0000_0000_0000_0000
    ensures |d| == 32
  {
    DigestOfPadded(Padded(m))
  }

  // ---- The whole digest, written out ----

  /** A block adds its 64 rounds to the hash value, component by component. */
  lemma NextBlockAdds(p: seq<byte>, n: nat)
    requires 64 * n + 64 <= |p|
    ensures var s, t := AfterBlocks(p, n), AfterBlocks(p, n + 1);
            var r := Rounds(s, p[64 * n..64 * n + 64], 64);
            && t.a as int == (s.a as int + r.a as int) % M32 && t.b as int == (s.b as int + r.b as int) % M32
            && t.c as int == (s.c as int + r.c as int) % M32 && t.d as int == (s.d as int + r.d as int) % M32
            && t.e as int == (s.e as int + r.e as int) % M32 && t.f as int == (s.f as int + r.f as int) % M32
            && t.g as int == (s.g as int + r.g as int) % M32 && t.h as int == (s.h as int + r.h as int) % M32
  {
    hide Rounds, AfterBlocks, AddStates;
    AfterBlocksNext(p, n);
    AddStatesIs(AfterBlocks(p, n), Rounds(AfterBlocks(p, n), Block(p, n), 64));
  }

  lemma AddStatesIs(s: State, r: State)
    ensures var t := AddStates(s, r);
            && t.a as int == (s.a as int + r.a as int) % M32 && t.b as int == (s.b as int + r.b as int) % M32
            && t.c as int == (s.c as int + r.c as int) % M32 && t.d as int == (s.d as int + r.d as int) % M32
            && t.e as int == (s.e as int + r.e as int) % M32 && t.f as int == (s.f as int + r.f as int) % M32
            && t.g as int == (s.g as int + r.g as int) % M32 && t.h as int == (s.h as int + r.h as int) % M32
  {
  }

  lemma AfterBlocksNext(p: seq<byte>, n: nat)
    requires 64 * n + 64 <= |p|
    ensures AfterBlocks(p, n + 1) == AddStates(AfterBlocks(p, n), Rounds(AfterBlocks(p, n), Block(p, n), 64))
  {
    hide Rounds, AddStates, Block;
  }

  /** The initial hash value plus the rounds of the only block. */
  function OneBlock(r: State): State {
    State((0x6a09e667 + r.a as int) % M32, (0xbb67ae85 + r.b as int) % M32,
          (0x3c6ef372 + r.c as int) % M32, (0xa54ff53a + r.d as int) % M32,
          (0x510e527f + r.e as int) % M32, (0x9b05688c + r.f as int) % M32,
          (0x1f83d9ab + r.g as int) % M32, (0x5be0cd19 + r.h as int) % M32)
  }

  lemma OneBlockState(p: seq<byte>)
    requires |p| == 64
    ensures AfterBlocks(p, 1) == OneBlock(Rounds(H0, p, 64))
  {
    hide Rounds, AfterBlocks, AddStates, OneBlock;
    AfterBlocksNext(p, 0);
    AfterNoBlocks(p);
    assert Block(p, 0) == p;
    AddToInitial(Rounds(H0, p, 64));
  }

  lemma AddToInitial(r: State)
    ensures AddStates(H0, r) == OneBlock(r)
  {
  }

  /** The digest of a message that fits one block. */
  lemma OneBlockDigest(m: seq<byte>)
    requires |m| <= 55
    ensures var p := m + [0x80] + Zeros(55 - |m|) + Octets.I2OSP(8 * |m|, 8);
            && |p| == 64
            && var s := OneBlock(Rounds(H0, p, 64));
               Sha256(m) == Octets.I2OSP(s.a, 4) + Octets.I2OSP(s.b, 4) + Octets.I2OSP(s.c, 4) + Octets.I2OSP(s.d, 4)
                          + Octets.I2OSP(s.e, 4) + Octets.I2OSP(s.f, 4) + Octets.I2OSP(s.g, 4) + Octets.I2OSP(s.h, 4)
  {
    hide Rounds, Padded, Octets.I2OSP, AfterBlocks, OneBlock, StateBytes;
    PaddedShort(m);
    OneBlockState(Padded(m));
    DigestBytes(AfterBlocks(Padded(m), 1));
  }

  lemma AfterNoBlocks(p: seq<byte>)
    ensures AfterBlocks(p, 0) == H0
  {
  }

  lemma DigestBytes(s: State)
    ensures StateBytes(s) == Octets.I2OSP(s.a, 4) + Octets.I2OSP(s.b, 4) + Octets.I2OSP(s.c, 4) + Octets.I2OSP(s.d, 4)
                           + Octets.I2OSP(s.e, 4) + Octets.I2OSP(s.f, 4) + Octets.I2OSP(s.g, 4) + Octets.I2OSP(s.h, 4)
  {
    WordBytesAreBigEndian(s.a);
    WordBytesAreBigEndian(s.b);
    WordBytesAreBigEndian(s.c);
    WordBytesAreBigEndian(s.d);
    WordBytesAreBigEndian(s.e);
    WordBytesAreBigEndian(s.f);
    WordBytesAreBigEndian(s.g);
    WordBytesAreBigEndian(s.h);
    hide WordBytes, Octets.I2OSP;
  }

  lemma PaddedShort(m: seq<byte>)
    requires |m| <= 55
    ensures |Padded(m)| == 64
    ensures Padded(m) == m + [0x80] + Zeros(55 - |m|) + Octets.I2OSP(8 * |m|, 8)
  {
    hide WordBytes, Octets.I2OSP;
    var bits := 8 * |m|;
    ZeroBytes(|m|);
    assert bits / M32 == 0 && bits % M32 == bits;
    WordBytesAreBigEndian(0);
    WordBytesAreBigEndian(bits);
    LongIsTwoWords(bits);
    Seqs.Assoc(m + [0x80] + Zeros(55 - |m|), Octets.I2OSP(0, 4), Octets.I2OSP(bits, 4));
  }

  /** Eight octets are two words, the high one first. */
  lemma LongIsTwoWords(x: word)
    ensures Octets.I2OSP(x, 8) == Octets.I2OSP(0, 4) + Octets.I2OSP(x, 4)
  {
    var b := WordBytes(0) + WordBytes(x);
    WordBytesAreBigEndian(x);
    WordBytesAreBigEndian(0);
    Octets.LeadingZeros(4, WordBytes(x));
    assert WordBytes(0) == Zeros(4);
    Octets.I2OSPofOS2IP(b);
    hide WordBytes, Octets.I2OSP, Octets.OS2IP;
  }
}

/** ECMAScript number operators on integral values. */
module JsNumbers {
  import opened Bits
  import Fips180

  const M32 := 0x1_0000_0000

  function ToUint32(x: int): word { x % M32 }
  function ToInt32(x: int): int {
    var u := ToUint32(x);
    if u < 0x8000_0000 then u else u - M32
  }

  // Shift counts are taken modulo 32.
  function ShrU(x: int, n: nat): word { Fips180.Shr(ToUint32(x), n % 32) }         // x >>> n
  function Shl(x: int, n: nat): int { ToInt32(Fips180.Shl(ToUint32(x), n % 32)) }  // x << n
  function Bit(op: Op, x: int, y: int): int { ToInt32(OnWords(op, ToUint32(x), ToUint32(y))) }
  function Not(x: int): int { ToInt32(-x - 1) }                                    // ~x

  /** Doubles hold every integer of this range exactly. */
  predicate Exact(x: int) { -0x20_0000_0000_0000 <= x <= 0x20_0000_0000_0000 }

  lemma SignedIsCongruent(x: int)
    ensures ToUint32(ToInt32(x)) == ToUint32(x)
    ensures -0x8000_0000 <= ToInt32(x) < 0x8000_0000
  {
  }

  lemma BitIsOnWords(op: Op, x: int, y: int)
    ensures ToUint32(Bit(op, x, y)) == OnWords(op, ToUint32(x), ToUint32(y))
    ensures -0x8000_0000 <= Bit(op, x, y) < 0x8000_0000
  {
    var w := OnWords(op, ToUint32(x), ToUint32(y));
    hide OnWords;
    SignedIsCongruent(w);
    WordIsItself(w);
  }

  lemma WordIsItself(x: word)
    ensures ToUint32(x) == x
  {
  }

  lemma NotIsComplement(x: word)
    ensures ToUint32(Not(x)) == Fips180.Complement(x)
  {
  }

  lemma SumIsAdd(x: int, y: int)
    ensures ToUint32(x + y) == Fips180.Add(ToUint32(x), ToUint32(y))
  {
  }
}

/** sha256 of loginenc.js. */
module JsSha256 {
  import opened Bits
  import opened JsNumbers
  import F = Fips180
  import Numbers

  function Rotr(x: int, n: nat): int
    requires n < 32
  {
    Bit(Or, ShrU(x, n), JsNumbers.Shl(x, 32 - n))
  }

  /** x << 32 is x here and 0 in the standard; the rotation by 0 is x either way. */
  lemma NoRotation(x: word)
    ensures OnWords(Or, F.Shr(x, 0), F.Shl(x, 0)) == x == OnWords(Or, F.Shr(x, 0), F.Shl(x, 32))
  {
    hide OnWords, F.Shl;
    ShlAll(x);
    ShlNothing(x);
    OrWords(x);
  }

  lemma ShlNothing(x: word)
    ensures F.Shl(x, 0) == x
  {
  }

  lemma ShlAll(x: word)
    ensures F.Shl(x, 32) == 0
  {
    F.ShlIsTimes(x, 32);
    Pow2Of32();
    Numbers.RemainderIs(F.M32 * x as int, F.M32, x, 0);
  }

  lemma OrWords(x: word)
    ensures OnWords(Or, x, x) == x == OnWords(Or, x, 0)
  {
    Pow2Of32();
    OrKeeps(x, x, 32);
    OrKeeps(x, 0, 32);
  }

  lemma RotrIsRotr(x: int, n: nat)
    requires n < 32
    ensures ToUint32(Rotr(x, n)) == F.Rotr(ToUint32(x), n)
  {
    hide ToUint32, ToInt32, Bit, OnWords, F.Shr, F.Shl;
    BitIsOnWords(Or, ShrU(x, n), JsNumbers.Shl(x, 32 - n));
    WordIsItself(ShrU(x, n));
    SignedIsCongruent(F.Shl(ToUint32(x), (32 - n) % 32));
    WordIsItself(F.Shl(ToUint32(x), (32 - n) % 32));
    if n == 0 { NoRotation(ToUint32(x)); }
  }

  function Xor3(x: int, y: int, z: int): int { Bit(Xor, Bit(Xor, x, y), z) }

  lemma Xor3IsXor3(x: int, y: int, z: int)
    ensures ToUint32(Xor3(x, y, z)) == F.Xor3(ToUint32(x), ToUint32(y), ToUint32(z))
    ensures -0x8000_0000 <= Xor3(x, y, z) < 0x8000_0000
  {
    hide ToUint32, Bit, OnWords;
    BitIsOnWords(Xor, x, y);
    BitIsOnWords(Xor, Bit(Xor, x, y), z);
  }

  /** The four rotate-and-xor mixes: three rotations, or two and a shift. */
  function Mix(x: int, i: nat, j: nat, k: nat): int
    requires i < 32 && j < 32 && k < 32
  {
    Xor3(Rotr(x, i), Rotr(x, j), Rotr(x, k))
  }

  function MixShift(x: int, i: nat, j: nat, k: nat): int
    requires i < 32 && j < 32 && k < 32
  {
    Xor3(Rotr(x, i), Rotr(x, j), ShrU(x, k))
  }

  lemma MixIsSpec(x: word, i: nat, j: nat, k: nat)
    requires i < 32 && j < 32 && k < 32
    ensures ToUint32(Mix(x, i, j, k)) == F.Xor3(F.Rotr(x, i), F.Rotr(x, j), F.Rotr(x, k))
    ensures -0x8000_0000 <= Mix(x, i, j, k) < 0x8000_0000
  {
    hide ToUint32, ToInt32, Bit, Rotr, Xor3, F.Rotr, F.Xor3, OnWords, F.Shr;
    WordIsItself(x);
    RotrIsRotr(x, i);
    RotrIsRotr(x, j);
    RotrIsRotr(x, k);
    Xor3IsXor3(Rotr(x, i), Rotr(x, j), Rotr(x, k));
  }

  lemma MixShiftIsSpec(x: word, i: nat, j: nat, k: nat)
    requires i < 32 && j < 32 && k < 32
    ensures ToUint32(MixShift(x, i, j, k)) == F.Xor3(F.Rotr(x, i), F.Rotr(x, j), F.Shr(x, k))
    ensures -0x8000_0000 <= MixShift(x, i, j, k) < 0x8000_0000
  {
    hide ToUint32, ToInt32, Bit, Rotr, Xor3, F.Rotr, F.Xor3, OnWords, F.Shr;
    WordIsItself(x);
    WordIsItself(ShrU(x, k));
    RotrIsRotr(x, i);
    RotrIsRotr(x, j);
    Xor3IsXor3(Rotr(x, i), Rotr(x, j), ShrU(x, k));
  }

  function Choose(e: int, f: int, g: int): int { Bit(Xor, Bit(And, e, f), Bit(And, Not(e), g)) }

  lemma ChooseIsCh(e: word, f: word, g: word)
    ensures ToUint32(Choose(e, f, g)) == F.Ch(e, f, g)
    ensures -0x8000_0000 <= Choose(e, f, g) < 0x8000_0000
  {
    NotIsComplement(e);
    hide ToUint32, ToInt32, Bit, Not, F.Complement, OnWords;
    WordIsItself(e);
    WordIsItself(f);
    WordIsItself(g);
    BitIsOnWords(And, e, f);
    BitIsOnWords(And, Not(e), g);
    BitIsOnWords(Xor, Bit(And, e, f), Bit(And, Not(e), g));
  }

  function Majority(a: int, b: int, c: int): int { Xor3(Bit(And, a, b), Bit(And, a, c), Bit(And, b, c)) }

  lemma MajorityIsMaj(a: word, b: word, c: word)
    ensures ToUint32(Majority(a, b, c)) == F.Maj(a, b, c)
    ensures -0x8000_0000 <= Majority(a, b, c) < 0x8000_0000
  {
    hide ToUint32, ToInt32, Bit, Xor3, F.Xor3, OnWords;
    WordIsItself(a);
    WordIsItself(b);
    WordIsItself(c);
    BitIsOnWords(And, a, b);
    BitIsOnWords(And, a, c);
    BitIsOnWords(And, b, c);
    Xor3IsXor3(Bit(And, a, b), Bit(And, a, c), Bit(And, b, c));
  }

  // ---- Padding ----

  /** (((len + 9) >> 6) + 1) << 6, where both shifts work on signed 32-bit values. */
  function PaddedLength(len: nat): int { ToInt32((ToInt32(len + 9) / 64 + 1) * 64) }

  const LIMIT := 0x7FFF_FFB7

  /** The padded buffer is large enough exactly below LIMIT bytes; above, the 32-bit
      shifts wrap and the typed array cannot be built or filled. */
  lemma PaddedLengthFits(len: nat)
    ensures len < LIMIT ==> PaddedLength(len) == 64 * ((len + 9) / 64 + 1)
    ensures PaddedLength(len) >= len + 9 <==> len < LIMIT
  {
    var s := ToInt32(len + 9);
    assert s <= len + 9;
    if len >= LIMIT {
      assert (s / 64 + 1) * 64 <= 0x8000_0000;
    }
  }

  lemma WholeBlocks(n: nat)
    ensures 64 * n % 64 == 0
  {
  }

  function Padded(m: seq<byte>): (p: seq<byte>)
    requires |m| < LIMIT
    ensures |p| == 64 * ((|m| + 9) / 64 + 1) && |p| % 64 == 0
  {
    WholeBlocks((|m| + 9) / 64 + 1);
    m + [0x80] + Zeros(64 * ((|m| + 9) / 64 + 1) - |m| - 9)
    + F.WordBytes(8 * |m| / M32) + F.WordBytes(ToUint32(8 * |m|))
  }

  /** The page pads as the standard does except when the length is 55 modulo 64, where
      it appends one block more. */
  lemma PaddedIsStandardIff(m: seq<byte>)
    requires |m| < LIMIT
    ensures Padded(m) == F.Padded(m) <==> |m| % 64 != 55
    ensures |m| % 64 == 55 ==> |Padded(m)| == |F.Padded(m)| + 64
  {
    var len := |m|;
    F.ZeroBytes(len);
    assert 64 * ((len + 9) / 64 + 1) - len - 9 == 64 - (len + 9) % 64;
    PaddingGap(len);
    assert ToUint32(8 * len) == 8 * len % F.M32;
  }

  lemma PaddingGap(len: nat)
    ensures 64 - (len + 9) % 64 == (55 - len) % 64 + (if len % 64 == 55 then 64 else 0)
  {
  }

  // ---- The two loops over a block ----

  lemma SumOfFour(p: int, q: int, r: int, t: int)
    ensures ToUint32(p + q + r + t)
         == F.Add(F.Add(F.Add(ToUint32(t), ToUint32(r)), ToUint32(q)), ToUint32(p))
  {
    hide ToUint32, F.Add;
    SumIsAdd(t, r);
    SumIsAdd(t + r, q);
    SumIsAdd(t + r + q, p);
    assert p + q + r + t == t + r + q + p;
  }

  /** w[i - 16] + s0 + w[i - 7] + s1 */
  function NextSum(w16: word, w15: word, w7: word, w2: word): int {
    w16 as int + MixShift(w15, 7, 18, 3) + w7 as int + MixShift(w2, 17, 19, 10)
  }

  lemma NextSumIsNextWord(w16: word, w15: word, w7: word, w2: word)
    ensures Exact(NextSum(w16, w15, w7, w2))
    ensures ToUint32(NextSum(w16, w15, w7, w2)) == F.NextWord(w16, w15, w7, w2)
  {
    hide ToUint32, F.Add, MixShift, F.Xor3, F.Rotr, F.Shr;
    var s0, s1 := MixShift(w15, 7, 18, 3), MixShift(w2, 17, 19, 10);
    MixShiftIsSpec(w15, 7, 18, 3);
    MixShiftIsSpec(w2, 17, 19, 10);
    SumOfFour(w16, s0, w7, s1);
    WordIsItself(w16);
    WordIsItself(w7);
  }

  ghost predicate Scheduled(w: seq<word>, n: nat, block: seq<byte>)
    requires |w| == 64 && n <= 64 && |block| == 64
  {
    forall t | 0 <= t < n :: w[t] == F.Schedule(block, t)
  }

  method FillSchedule(p: seq<byte>, n: nat, w: array<word>)
    requires w.Length == 64 && 64 * n + 64 <= |p|
    modifies w
    ensures Scheduled(w[..], 64, F.Block(p, n))
  {
    hide F.Schedule, F.Block, F.WordAt;
    for i := 0 to 16
      invariant Scheduled(w[..], i, F.Block(p, n))
    {
      WordOfBlock(p, n, i);
      w[i] := F.WordAt(p, 64 * n + 4 * i);
    }
    ExtendSchedule(F.Block(p, n), w);
  }

  method ExtendSchedule(ghost block: seq<byte>, w: array<word>)
    requires w.Length == 64 && |block| == 64 && Scheduled(w[..], 16, block)
    modifies w
    ensures Scheduled(w[..], 64, block)
  {
    hide F.Schedule, ToUint32, NextSum, F.NextWord;
    for i := 16 to 64
      invariant Scheduled(w[..], i, block)
    {
      NextSumIsNextWord(w[i - 16], w[i - 15], w[i - 7], w[i - 2]);
      ScheduleIsNext(block, i);
      w[i] := ToUint32(NextSum(w[i - 16], w[i - 15], w[i - 7], w[i - 2]));
    }
  }

  lemma WordOfBlock(p: seq<byte>, n: nat, i: nat)
    requires 64 * n + 64 <= |p| && i < 16
    ensures F.WordAt(p, 64 * n + 4 * i) == F.Schedule(F.Block(p, n), i)
  {
    var b := F.Block(p, n);
    assert b[4 * i] == p[64 * n + 4 * i] && b[4 * i + 1] == p[64 * n + 4 * i + 1];
    assert b[4 * i + 2] == p[64 * n + 4 * i + 2] && b[4 * i + 3] == p[64 * n + 4 * i + 3];
  }

  lemma ScheduleIsNext(block: seq<byte>, t: nat)
    requires |block| == 64 && 16 <= t < 64
    ensures F.Schedule(block, t) == F.NextWord(F.Schedule(block, t - 16), F.Schedule(block, t - 15),
                                               F.Schedule(block, t - 7), F.Schedule(block, t - 2))
  {
    hide F.NextWord;
  }

  lemma SumOfFive(p: int, q: int, r: int, t: int, u: int)
    ensures ToUint32(p + q + r + t + u)
         == F.Add(F.Add(F.Add(F.Add(ToUint32(p), ToUint32(q)), ToUint32(r)), ToUint32(t)), ToUint32(u))
  {
    hide ToUint32, F.Add;
    SumIsAdd(p, q);
    SumIsAdd(p + q, r);
    SumIsAdd(p + q + r, t);
    SumIsAdd(p + q + r + t, u);
  }

  lemma MixIsBigSigma1(x: word)
    ensures ToUint32(Mix(x, 6, 11, 25)) == F.BigSigma1(x)
    ensures -0x8000_0000 <= Mix(x, 6, 11, 25) < 0x8000_0000
  {
    hide ToUint32, Mix, F.Xor3, F.Rotr;
    MixIsSpec(x, 6, 11, 25);
  }

  lemma MixIsBigSigma0(x: word)
    ensures ToUint32(Mix(x, 2, 13, 22)) == F.BigSigma0(x)
    ensures -0x8000_0000 <= Mix(x, 2, 13, 22) < 0x8000_0000
  {
    hide ToUint32, Mix, F.Xor3, F.Rotr;
    MixIsSpec(x, 2, 13, 22);
  }

  function T1(s: F.State, k: word, w: word): int {
    s.h as int + Mix(s.e, 6, 11, 25) + Choose(s.e, s.f, s.g) + k as int + w as int
  }

  lemma T1Step(s: F.State, k: word, w: word)
    ensures Exact(T1(s, k, w)) && ToUint32(T1(s, k, w)) == F.T1(s, k, w)
  {
    hide ToUint32, F.Add, Mix, Choose, F.BigSigma1, F.Ch;
    MixIsBigSigma1(s.e);
    ChooseIsCh(s.e, s.f, s.g);
    T1Sum(s.h, Mix(s.e, 6, 11, 25), F.BigSigma1(s.e), Choose(s.e, s.f, s.g), F.Ch(s.e, s.f, s.g), k, w);
  }

  lemma T1Sum(h: word, mix: int, sigma: word, choose: int, ch: word, k: word, w: word)
    requires ToUint32(mix) == sigma && ToUint32(choose) == ch
    ensures ToUint32(h as int + mix + choose + k as int + w as int)
         == F.Add(F.Add(F.Add(F.Add(h, sigma), ch), k), w)
  {
    hide ToUint32, F.Add;
    SumOfFive(h, mix, choose, k, w);
    WordIsItself(h);
    WordIsItself(k);
    WordIsItself(w);
  }

  function T2(s: F.State): int {
    Mix(s.a, 2, 13, 22) + Majority(s.a, s.b, s.c)
  }

  lemma T2Step(s: F.State)
    ensures Exact(T2(s)) && ToUint32(T2(s)) == F.T2(s)
  {
    hide ToUint32, F.Add, Mix, Majority, F.BigSigma0, F.Maj;
    var mix, maj := Mix(s.a, 2, 13, 22), Majority(s.a, s.b, s.c);
    MixIsBigSigma0(s.a);
    MajorityIsMaj(s.a, s.b, s.c);
    SumIsAdd(mix, maj);
  }

  /** (x + y) >>> 0 */
  function Plus(x: int, y: int): word { ToUint32(x + y) }

  lemma PlusIsAdd(x: word, y: word)
    ensures Plus(x, y) == F.Add(x, y) == F.Add(y, x) && Exact(x as int + y as int)
  {
  }

  /** One turn of the 64-step loop. */
  method Step(s: F.State, k: word, w: word) returns (r: F.State)
    ensures r == F.Round(s, k, w)
  {
    hide ToUint32, F.Add, Mix, Choose, Majority, F.T1, F.T2, Plus;
    T1Step(s, k, w);
    T2Step(s);
    var big1 := Mix(s.e, 6, 11, 25);
    var ch := Choose(s.e, s.f, s.g);
    var t1 := ToUint32(s.h as int + big1 + ch + k as int + w as int);
    var big0 := Mix(s.a, 2, 13, 22);
    var maj := Majority(s.a, s.b, s.c);
    var t2 := ToUint32(big0 + maj);
    PlusIsAdd(s.d, t1);
    PlusIsAdd(t1, t2);
    r := F.State(Plus(t1, t2), s.a, s.b, s.c, Plus(s.d, t1), s.e, s.f, s.g);
  }

  method Compress(s: F.State, w: array<word>, ghost block: seq<byte>) returns (r: F.State)
    requires w.Length == 64 && |block| == 64 && Scheduled(w[..], 64, block)
    ensures r == F.AddStates(s, F.Rounds(s, block, 64))
  {
    var v := s;
    assert v == F.Rounds(s, block, 0);
    hide ToUint32, F.Add, F.Round, F.Schedule, F.K, Plus;
    for i := 0 to 64
      invariant v == F.Rounds(s, block, i)
    {
      v := Step(v, F.K()[i], w[i]);
    }
    PlusIsAdd(s.a, v.a);
    PlusIsAdd(s.b, v.b);
    PlusIsAdd(s.c, v.c);
    PlusIsAdd(s.d, v.d);
    PlusIsAdd(s.e, v.e);
    PlusIsAdd(s.f, v.f);
    PlusIsAdd(s.g, v.g);
    PlusIsAdd(s.h, v.h);
    r := F.State(Plus(s.a, v.a), Plus(s.b, v.b), Plus(s.c, v.c), Plus(s.d, v.d),
                 Plus(s.e, v.e), Plus(s.f, v.f), Plus(s.g, v.g), Plus(s.h, v.h));
  }

  lemma PaddedAt(m: seq<byte>, i: nat)
    requires |m| < LIMIT && i < |Padded(m)|
    ensures var n := |Padded(m)|;
            Padded(m)[i] == if i < |m| then m[i]
                            else if i == |m| then 0x80
                            else if i < n - 8 then 0
                            else if i < n - 4 then F.WordBytes(8 * |m| / M32)[i - (n - 8)]
                            else F.WordBytes(ToUint32(8 * |m|))[i - (n - 4)]
  {
    hide ToUint32, F.WordBytes;
  }

  method FillPadded(bytes: seq<byte>) returns (padded: array<byte>)
    requires |bytes| < LIMIT
    ensures fresh(padded) && padded[..] == Padded(bytes)
  {
    var len := |bytes|;
    PaddedLengthFits(len);
    var n := PaddedLength(len);
    assert Exact(8 * len);
    var hi, lo := F.WordBytes(8 * len / M32), F.WordBytes(ToUint32(8 * len));
    hide PaddedLength, ToUint32, F.WordBytes;
    padded := new byte[n](_ => 0);
    forall i | 0 <= i < len { padded[i] := bytes[i]; }
    padded[len] := 0x80;
    forall i | 0 <= i < 4 { padded[n - 8 + i] := hi[i]; }
    forall i | 0 <= i < 4 { padded[n - 4 + i] := lo[i]; }
    hide Padded;
    forall i | 0 <= i < n ensures padded[i] == Padded(bytes)[i] {
      PaddedAt(bytes, i);
    }
  }

  /** The bytes sha256 of loginenc.js returns. */
  function Digest(m: seq<byte>): (d: seq<byte>)
    requires |m| < LIMIT
    ensures |d| == 32
  {
    F.DigestOfPadded(Padded(m))
  }

  function WordsBytes(ws: seq<word>): seq<byte> {
    if ws == [] then [] else WordsBytes(ws[..|ws| - 1]) + F.WordBytes(ws[|ws| - 1])
  }

  lemma NextWordBytes(ws: seq<word>, j: nat)
    requires j < |ws|
    ensures WordsBytes(ws[..j + 1]) == WordsBytes(ws[..j]) + F.WordBytes(ws[j])
  {
    assert ws[..j + 1][..j] == ws[..j];
  }

  lemma EightWords(h: F.State)
    ensures WordsBytes([h.a, h.b, h.c, h.d, h.e, h.f, h.g, h.h]) == F.StateBytes(h)
  {
    hide F.WordBytes;
    var ws := [h.a, h.b, h.c, h.d, h.e, h.f, h.g, h.h];
    assert ws[..8] == ws && ws[..0] == [];
    assert WordsBytes(ws[..0]) == [];
    hide WordsBytes;
    NextWordBytes(ws, 0);
    NextWordBytes(ws, 1);
    NextWordBytes(ws, 2);
    NextWordBytes(ws, 3);
    NextWordBytes(ws, 4);
    NextWordBytes(ws, 5);
    NextWordBytes(ws, 6);
    NextWordBytes(ws, 7);
  }

  /** ov.setUint32(j * 4, h[j]) for each j. */
  method WriteState(h: F.State) returns (out: seq<byte>)
    ensures out == F.StateBytes(h)
  {
    hide F.WordBytes, F.StateBytes;
    var words := [h.a, h.b, h.c, h.d, h.e, h.f, h.g, h.h];
    out := [];
    for j := 0 to 8
      invariant out == WordsBytes(words[..j])
    {
      NextWordBytes(words, j);
      out := out + F.WordBytes(words[j]);
    }
    assert words[..8] == words;
    EightWords(h);
  }

  method Sha256(bytes: seq<byte>) returns (out: seq<byte>)
    requires |bytes| < LIMIT
    ensures out == Digest(bytes)
    ensures |bytes| % 64 != 55 ==> out == F.Sha256(bytes)
  {
    hide F.Schedule, F.Rounds, F.AddStates, F.StateBytes, F.Block, Padded, F.Padded, Scheduled;
    var padded := FillPadded(bytes);
    var p := padded[..];
    var w := new word[64](_ => 0);
    var h := F.H0;
    assert h == F.AfterBlocks(p, 0);
    var n := 0;
    while n < |p| / 64
      invariant n <= |p| / 64
      invariant h == F.AfterBlocks(p, n)
    {
      FillSchedule(p, n, w);
      h := Compress(h, w, F.Block(p, n));
      n := n + 1;
    }
    out := WriteState(h);
    PaddedIsStandardIff(bytes);
  }

  /** Outside lengths that are 55 modulo 64 the page's digest is the standard's. */
  lemma DigestIsStandard(m: seq<byte>)
    requires |m| < LIMIT && |m| % 64 != 55
    ensures Digest(m) == F.Sha256(m)
  {
    PaddedIsStandardIff(m);
  }
}
