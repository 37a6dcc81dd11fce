/** RSAES-OAEP as RFC 8017 writes it, over any hash with 32-byte output. */
module Rfc8017 {
  import opened Bits
  import opened Numbers
  import opened Octets
  import opened Wrappers

  type Hash = seq<byte> -> seq<byte>

  const H_LEN := 32

  ghost predicate Hash32(h: Hash) {
    forall x :: |h(x)| == H_LEN
  }

  // Appendix B.2.1
  function MaskBlocks(h: Hash, seed: seq<byte>, n: nat): seq<byte> {
    if n == 0 then [] else MaskBlocks(h, seed, n - 1) + h(seed + I2OSP(n - 1, 4))
  }

  lemma {:induction false} MaskBlocksLength(h: Hash, seed: seq<byte>, n: nat)
    requires Hash32(h)
    ensures |MaskBlocks(h, seed, n)| == H_LEN * n
  {
    if n > 0 { MaskBlocksLength(h, seed, n - 1); }
  }

  function BlockCount(len: nat): nat { (len + H_LEN - 1) / H_LEN }

  ghost function MGF1(h: Hash, seed: seq<byte>, len: nat): (mask: seq<byte>)
    requires Hash32(h)
    ensures |mask| == len
  {
    MaskBlocksLength(h, seed, BlockCount(len));
    MaskBlocks(h, seed, BlockCount(len))[..len]
  }

  lemma {:induction false} MaskBlocksAgree(h: Hash, h': Hash, seed: seq<byte>, n: nat)
    requires forall x | |x| == |seed| + 4 :: h(x) == h'(x)
    ensures MaskBlocks(h, seed, n) == MaskBlocks(h', seed, n)
  {
    hide I2OSP;
    if n > 0 {
      MaskBlocksAgree(h, h', seed, n - 1);
      assert |seed + I2OSP(n - 1, 4)| == |seed| + 4;
    }
  }

  /** Block i of the mask is the hash of the seed and the counter i in four octets. */
  lemma {:induction false} MaskBlockIs(h: Hash, seed: seq<byte>, n: nat, i: nat)
    requires Hash32(h) && i < n && i < 0x1_0000_0000
    ensures |MaskBlocks(h, seed, n)| == 32 * n
    ensures MaskBlocks(h, seed, n)[32 * i..32 * i + 32]
         == h(seed + [i / 0x100_0000 % 256, i / 0x1_0000 % 256, i / 0x100 % 256, i % 256])
  {
    MaskBlocksLength(h, seed, n);
    MaskBlocksLength(h, seed, n - 1);
    if i < n - 1 {
      MaskBlockIs(h, seed, n - 1, i);
      assert MaskBlocks(h, seed, n)[32 * i..32 * i + 32] == MaskBlocks(h, seed, n - 1)[32 * i..32 * i + 32];
    } else {
      CounterOctets(i);
    }
    hide I2OSP;
  }

  lemma CounterOctets(i: nat)
    requires i < 0x1_0000_0000
    ensures I2OSP(i, 4) == [i / 0x100_0000 % 256, i / 0x1_0000 % 256, i / 0x100 % 256, i % 256]
  {
    var a, b, c := i / 256, i / 256 / 256, i / 256 / 256 / 256;
    assert b == i / 0x1_0000 && c == i / 0x100_0000;
    assert I2OSP(c, 1) == [] + [c % 256];
    assert I2OSP(b, 2) == I2OSP(c, 1) + [b % 256];
    assert I2OSP(a, 3) == I2OSP(b, 2) + [a % 256];
  }

  // Section 7.1.1, steps 2.a to 2.i, with the empty label
  ghost function DataBlock(h: Hash, m: seq<byte>, k: nat): (db: seq<byte>)
    requires Hash32(h) && |m| + 2 * H_LEN + 2 <= k
    ensures |db| == k - H_LEN - 1
  {
    h([]) + Zeros(k - |m| - 2 * H_LEN - 2) + [1] + m
  }

  ghost function Encode(h: Hash, m: seq<byte>, seed: seq<byte>, k: nat): (em: seq<byte>)
    requires Hash32(h) && |seed| == H_LEN && |m| + 2 * H_LEN + 2 <= k
    ensures |em| == k && em[0] == 0
  {
    var maskedDB := XorSeq(DataBlock(h, m, k), MGF1(h, seed, k - H_LEN - 1));
    [0] + XorSeq(seed, MGF1(h, maskedDB, H_LEN)) + maskedDB
  }

  // Section 7.1.2, steps 3.a to 3.g
  function FirstNonZero(b: seq<byte>): (i: nat)
    ensures i <= |b| && forall j | 0 <= j < i :: b[j] == 0
    ensures i < |b| ==> b[i] != 0
  {
    if b == [] || b[0] != 0 then 0 else 1 + FirstNonZero(b[1..])
  }

  ghost function Decode(h: Hash, em: seq<byte>): (m: Option<seq<byte>>)
    requires Hash32(h) && |em| >= 2 * H_LEN + 2
  {
    var maskedSeed, maskedDB := em[1..H_LEN + 1], em[H_LEN + 1..];
    var seed := XorSeq(maskedSeed, MGF1(h, maskedDB, H_LEN));
    var db := XorSeq(maskedDB, MGF1(h, seed, |maskedDB|));
    var rest := db[H_LEN..];
    var i := FirstNonZero(rest);
    if em[0] == 0 && db[..H_LEN] == h([]) && i < |rest| && rest[i] == 1 then Some(rest[i + 1..]) else None
  }

  lemma FirstNonZeroAfterZeros(n: nat, m: seq<byte>)
    ensures FirstNonZero(Zeros(n) + [1] + m) == n
  {
    var b := Zeros(n) + [1] + m;
    assert b[n] == 1;
    assert forall j | 0 <= j < n :: b[j] == 0;
  }

  lemma DataBlockUnpacks(h: Hash, m: seq<byte>, k: nat)
    requires Hash32(h) && |m| + 2 * H_LEN + 2 <= k
    ensures var db := DataBlock(h, m, k);
            var rest := db[H_LEN..];
            var i := FirstNonZero(rest);
            db[..H_LEN] == h([]) && i < |rest| && rest[i] == 1 && rest[i + 1..] == m
  {
    var n := k - |m| - 2 * H_LEN - 2;
    var rest := Zeros(n) + [1] + m;
    var db := DataBlock(h, m, k);
    assert db == h([]) + rest;
    assert db[..H_LEN] == h([]) && db[H_LEN..] == rest;
    FirstNonZeroAfterZeros(n, m);
    assert rest[n] == 1 && rest[n + 1..] == m;
  }

  /** EME-OAEP decoding returns the message that was encoded, for every hash with 32-byte
      output, seed and modulus length. */
  lemma DecodeOfEncode(h: Hash, m: seq<byte>, seed: seq<byte>, k: nat)
    requires Hash32(h) && |seed| == H_LEN && |m| + 2 * H_LEN + 2 <= k
    ensures Decode(h, Encode(h, m, seed, k)) == Some(m)
  {
    var db, dbMask := DataBlock(h, m, k), MGF1(h, seed, k - H_LEN - 1);
    var maskedDB := XorSeq(db, dbMask);
    var seedMask := MGF1(h, maskedDB, H_LEN);
    var maskedSeed := XorSeq(seed, seedMask);
    hide MGF1, DataBlock;
    var em := Encode(h, m, seed, k);
    assert em == [0] + maskedSeed + maskedDB;
    assert em[1..H_LEN + 1] == maskedSeed && em[H_LEN + 1..] == maskedDB;
    XorSeqTwice(seed, seedMask);
    XorSeqTwice(db, dbMask);
    DataBlockUnpacks(h, m, k);
  }

  /** The data block, octet by octet. */
  lemma DataBlockAt(h: Hash, m: seq<byte>, k: nat, i: nat)
    requires Hash32(h) && |m| + 66 <= k && i < k - 33
    ensures DataBlock(h, m, k)[i]
         == if i < 32 then h([])[i] else if i < k - |m| - 34 then 0 else if i == k - |m| - 34 then 1
            else m[i - (k - |m| - 33)]
  {
  }

  /** With the mask taken off, the first 32 octets after the zero are the seed. */
  lemma EncodedSeed(h: Hash, m: seq<byte>, seed: seq<byte>, k: nat, i: nat)
    requires Hash32(h) && |seed| == 32 && |m| + 66 <= k && i < 32
    ensures var em := Encode(h, m, seed, k);
            em[0] == 0 && XorByte(em[1 + i], MGF1(h, em[33..], 32)[i]) == seed[i]
  {
    hide MGF1, Encode, XorByte, DataBlock;
    EncodedParts(h, m, seed, k);
    var mask := MGF1(h, Encode(h, m, seed, k)[33..], 32);
    XorByteTwice(seed[i], mask[i]);
  }

  /** And the rest are the hash of the empty label, zeros, 1 and the message. */
  lemma EncodedData(h: Hash, m: seq<byte>, seed: seq<byte>, k: nat, i: nat)
    requires Hash32(h) && |seed| == 32 && |m| + 66 <= k && i < k - 33
    ensures XorByte(Encode(h, m, seed, k)[33 + i], MGF1(h, seed, k - 33)[i])
         == if i < 32 then h([])[i] else if i < k - |m| - 34 then 0 else if i == k - |m| - 34 then 1
            else m[i - (k - |m| - 33)]
  {
    DataBlockAt(h, m, k, i);
    hide MGF1, Encode, XorByte, DataBlock;
    EncodedParts(h, m, seed, k);
    XorByteTwice(DataBlock(h, m, k)[i], MGF1(h, seed, k - 33)[i]);
  }

  lemma EncodedParts(h: Hash, m: seq<byte>, seed: seq<byte>, k: nat)
    requires Hash32(h) && |seed| == 32 && |m| + 66 <= k
    ensures var em, maskedDB := Encode(h, m, seed, k), XorSeq(DataBlock(h, m, k), MGF1(h, seed, k - 33));
            && em[0] == 0 && em[33..] == maskedDB
            && (forall i | 33 <= i < k :: em[i] == maskedDB[i - 33])
            && forall i | 1 <= i < 33 :: em[i] == XorSeq(seed, MGF1(h, maskedDB, 32))[i - 1]
  {
    hide MGF1, DataBlock, XorSeq;
  }

  /** Two hashes that agree on the three lengths OAEP feeds them encode alike. */
  lemma EncodeAgrees(h: Hash, h': Hash, m: seq<byte>, seed: seq<byte>, k: nat)
    requires Hash32(h) && Hash32(h') && |seed| == H_LEN && |m| + 2 * H_LEN + 2 <= k
    requires forall x | |x| == 0 || |x| == H_LEN + 4 || |x| == k - H_LEN - 1 + 4 :: h(x) == h'(x)
    ensures Encode(h, m, seed, k) == Encode(h', m, seed, k)
  {
    assert h([]) == h'([]);
    var db := DataBlock(h, m, k);
    MaskBlocksAgree(h, h', seed, BlockCount(k - H_LEN - 1));
    var maskedDB := XorSeq(db, MGF1(h, seed, k - H_LEN - 1));
    MaskBlocksAgree(h, h', maskedDB, BlockCount(H_LEN));
  }

  // Sections 5.1.1, 5.1.2 and 7.1.2
  ghost function Encrypt(h: Hash, n: nat, e: nat, k: nat, m: seq<byte>, seed: seq<byte>): seq<byte>
    requires Hash32(h) && n > 0 && |seed| == H_LEN && |m| + 2 * H_LEN + 2 <= k
  {
    I2OSP(Pow(OS2IP(Encode(h, m, seed, k)), e) % n, k)
  }

  ghost function Decrypt(h: Hash, n: nat, d: nat, k: nat, c: seq<byte>): Option<seq<byte>>
    requires Hash32(h) && n > 0
  {
    if |c| != k || k < 2 * H_LEN + 2 || OS2IP(c) >= n then None
    else Decode(h, I2OSP(Pow(OS2IP(c), d) % n, k))
  }

  lemma EncryptAgrees(h: Hash, h': Hash, n: nat, e: nat, k: nat, m: seq<byte>, seed: seq<byte>)
    requires Hash32(h) && Hash32(h') && n > 0 && |seed| == H_LEN && |m| + 2 * H_LEN + 2 <= k
    requires forall x | |x| == 0 || |x| == H_LEN + 4 || |x| == k - H_LEN - 1 + 4 :: h(x) == h'(x)
    ensures Encrypt(h, n, e, k, m, seed) == Encrypt(h', n, e, k, m, seed)
  {
    EncodeAgrees(h, h', m, seed, k);
    hide Encode, I2OSP, OS2IP, Pow;
  }

  /** n has exactly k significant bytes, as hex(N.Bytes()) publishes it. */
  ghost predicate HasBytes(n: nat, k: nat) {
    k > 0 && Pow(256, k - 1) <= n < Pow(256, k)
  }

  /** What a matching RSA key pair promises. */
  ghost predicate KeyPair(n: nat, e: nat, d: nat) {
    n > 0 && forall x: nat | x < n :: Pow(Pow(x, e) % n, d) % n == x
  }

  lemma EncodedIsBelowModulus(em: seq<byte>, n: nat, k: nat)
    requires |em| == k && HasBytes(n, k) && em[0] == 0
    ensures OS2IP(em) < n
  {
    LeadingZero(em);
    OS2IPBound(em[1..]);
  }

  lemma DecryptOfEncrypt(h: Hash, n: nat, e: nat, d: nat, k: nat, m: seq<byte>, seed: seq<byte>)
    requires Hash32(h) && |seed| == H_LEN && |m| + 2 * H_LEN + 2 <= k
    requires KeyPair(n, e, d) && HasBytes(n, k)
    ensures Decrypt(h, n, d, k, Encrypt(h, n, e, k, m, seed)) == Some(m)
  {
    var em := Encode(h, m, seed, k);
    DecodeOfEncode(h, m, seed, k);
    hide Encode, Decode, Hash32;
    EncodedIsBelowModulus(em, n, k);
    var x := OS2IP(em);
    var y := Pow(x, e) % n;
    DivMod(Pow(x, e), n);
    OS2IPofI2OSP(y, k);
    I2OSPofOS2IP(em);
  }
}

/** The login page's half: loginenc.js, with its own SHA-256. */
module LoginPage {
  import opened Bits
  import opened Numbers
  import opened HexText
  import opened Octets
  import opened Wrappers
  import Base64
  import R = Rfc8017
  import Sha = JsSha256
  import Text

  /** sha256 of loginenc.js as a function value; the buffers hashed here are far shorter
      than its limit. */
  function PageHash(m: seq<byte>): (d: seq<byte>)
    ensures |d| == R.H_LEN
  {
    if |m| < Sha.LIMIT then Sha.Digest(m) else Zeros(R.H_LEN)
  }

  method Hash(m: seq<byte>) returns (d: seq<byte>)
    requires |m| < Sha.LIMIT
    ensures d == PageHash(m)
  {
    d := Sha.Sha256(m);
  }

  method Mgf1(seed: seq<byte>, len: nat) returns (mask: seq<byte>)
    requires |seed| + 4 < Sha.LIMIT && len < Sha.LIMIT
    ensures mask == R.MGF1(PageHash, seed, len)
  {
    var blocks := R.BlockCount(len);
    var out := [];
    for i := 0 to blocks
      invariant out == R.MaskBlocks(PageHash, seed, i)
    {
      R.CounterOctets(i);
      var buf := seed + [i / 0x100_0000 % 256, i / 0x1_0000 % 256, i / 0x100 % 256, i % 256];
      var d := Hash(buf);
      out := out + d;
    }
    R.MaskBlocksLength(PageHash, seed, blocks);
    mask := out[..len];
  }

  /** a ^= b */
  method XorInto(a: array<byte>, b: seq<byte>)
    requires a.Length == |b|
    modifies a
    ensures a[..] == XorSeq(old(a[..]), b)
    ensures forall j, i: nat | 0 <= j < a.Length && i < 8 ::
              BitAt(a[j], i) == (BitAt(old(a[j]), i) + BitAt(b[j], i)) % 2
  {
    for i := 0 to |b|
      invariant forall j | 0 <= j < i :: a[j] == XorByte(old(a[j]), b[j])
      invariant forall j | i <= j < a.Length :: a[j] == old(a[j])
    {
      a[i] := XorByte(a[i], b[i]);
    }
    hide XorByte, BitAt;
    forall j, i: nat | 0 <= j < a.Length && i < 8
      ensures BitAt(a[j], i) == (BitAt(old(a[j]), i) + BitAt(b[j], i)) % 2
    {
      BitOfXorByte(old(a[j]), b[j], i);
    }
  }

  method Os2ip(bytes: seq<byte>) returns (x: nat)
    ensures x == OS2IP(bytes)
  {
    x := 0;
    for i := 0 to |bytes|
      invariant x == OS2IP(bytes[..i])
    {
      assert bytes[..i + 1][..i] == bytes[..i];
      x := x * 256 + bytes[i];
    }
    assert bytes[..|bytes|] == bytes;
  }

  /** The low len bytes of x, filled from the last. */
  method I2osp(x: nat, len: nat) returns (b: seq<byte>)
    ensures b == I2OSP(x, len)
  {
    var a := new byte[len](_ => 0);
    var rest := x;
    for i := len downto 0
      invariant I2OSP(x, len) == I2OSP(rest, i) + a[i..]
    {
      ghost var before := a[i + 1..];
      a[i], rest := rest % 256, rest / 256;
      assert a[i..] == [a[i]] + before;
    }
    b := a[..];
  }

  method ModPow(base: nat, exp: nat, mod: nat) returns (result: nat)
    requires mod > 0
    ensures exp > 0 || mod > 1 ==> result == Pow(base, exp) % mod
    ensures exp == 0 ==> result == 1
  {
    result := 1;
    var b: nat, e: nat := base % mod, exp;
    PowReduced(base, exp, mod);
    while e > 0
      invariant result * Pow(b, e) >= 0 && (result * Pow(b, e)) % mod == Pow(base, exp) % mod
      invariant e == 0 && exp > 0 ==> result < mod
      invariant exp == 0 ==> result == 1
    {
      hide Pow;
      SquareStep(result, b, e, mod);
      if e % 2 == 1 { result := (result * b) % mod; }
      b := (b * b) % mod;
      e := e / 2;
    }
    RemainderOfSmall(result, mod);
  }

  lemma RemainderOfSmall(x: nat, m: nat)
    requires m > 0
    ensures x < m ==> x % m == x
  {
    if x < m { RemainderIs(x, m, 0, x); }
  }

  /** One turn of square-and-multiply keeps result * b^e modulo mod. */
  lemma SquareStep(result: nat, b: nat, e: nat, mod: nat)
    requires mod > 0 && e > 0
    ensures result * b >= 0 && b * b >= 0
    ensures var r' := if e % 2 == 1 then (result * b) % mod else result;
            r' * Pow((b * b) % mod, e / 2) >= 0 && result * Pow(b, e) >= 0
            && (r' * Pow((b * b) % mod, e / 2)) % mod == (result * Pow(b, e)) % mod
  {
    ProductIsNat(result, b);
    ProductIsNat(b, b);
    var r' := if e % 2 == 1 then (result * b) % mod else result;
    var r := if e % 2 == 1 then result * b else result;
    var p := Pow(b * b, e / 2);
    var p' := Pow((b * b) % mod, e / 2);
    PowReduced(b * b, e / 2, mod);
    ReduceBoth(r, p', mod);
    ReduceBoth(r, p, mod);
    if e % 2 == 1 { ReduceFactor(r, p', mod); }
    PowSquare(b, e / 2);
    if e % 2 == 1 {
      assert Pow(b, e) == b * p;
      Regroup(result, b, p);
    }
    ProductIsNat(r', p');
    ProductIsNat(result, Pow(b, e));
  }

  // ---- normalizeHex ----

  /** What String.prototype.trim takes off. */
  predicate IsJsSpace(c: char) {
    var u := c as int;
    || 9 <= u <= 13 || u == 0x20 || u == 0xA0 || u == 0x1680 || 0x2000 <= u <= 0x200A
    || u == 0x2028 || u == 0x2029 || u == 0x202F || u == 0x205F || u == 0x3000 || u == 0xFEFF
  }

  function Trim(s: string): string {
    if s != "" && IsJsSpace(s[0]) then Trim(s[1..])
    else if s != "" && IsJsSpace(s[|s| - 1]) then Trim(s[..|s| - 1])
    else s
  }

  function WithoutPrefix(s: string): string { if "0x" <= s || "0X" <= s then s[2..] else s }

  predicate IsHex(s: string) { s != "" && forall i | 0 <= i < |s| :: HexValue(s[i]) >= 0 }

  /** The hex digits, an even number of them, in lower case; None if it is not hex. */
  function NormalizeHex(s: string): (h: Option<string>)
    ensures h.Some? ==> |h.value| % 2 == 0
  {
    var t := WithoutPrefix(Trim(s));
    if !IsHex(t) then None else Some(Lower(if |t| % 2 == 1 then "0" + t else t))
  }

  /** The modulus bytes the text stands for. */
  function ModulusBytes(s: string): Option<seq<byte>> {
    match NormalizeHex(s)
    case Some(h) => Unhex(h)
    case None => None
  }

  lemma {:induction false} HexIsRead(h: string)
    requires |h| % 2 == 0 && forall i | 0 <= i < |h| :: HexValue(h[i]) >= 0
    ensures Unhex(h).Some?
  {
    if h != "" {
      assert forall i | 0 <= i < |h[2..]| :: h[2..][i] == h[i + 2];
      HexIsRead(h[2..]);
    }
  }

  /** Either prefix comes off hex digits, and hex digits stay without one. */
  lemma PrefixComesOff(t: string)
    requires forall i | 0 <= i < |t| :: HexValue(t[i]) >= 0
    ensures WithoutPrefix("0x" + t) == t && WithoutPrefix("0X" + t) == t && WithoutPrefix(t) == t
  {
    assert ("0x" + t)[2..] == t && ("0X" + t)[2..] == t;
    if |t| > 1 { assert HexValue(t[1]) >= 0 && t[1] != 'x' && t[1] != 'X'; }
  }

  /** JavaScript takes off the byte order mark, and not the next-line character. */
  lemma JsSpaceIs(c: char)
    ensures IsJsSpace(c) <==> c as int == 0xFEFF || (Text.IsWhite(c as int) && c as int != 0x85)
  {
  }

  /** Exactly the texts that are not hex are refused. */
  lemma ModulusIsReadIff(s: string)
    ensures ModulusBytes(s).Some? <==> IsHex(WithoutPrefix(Trim(s)))
  {
    var t := WithoutPrefix(Trim(s));
    if IsHex(t) {
      var h := if |t| % 2 == 1 then "0" + t else t;
      hide HexValue, LowerHex, Trim, WithoutPrefix;
      if |t| % 2 == 1 { ZeroIsHex(t); }
      LowerIsHex(h);
      HexIsRead(Lower(h));
    }
  }

  lemma ZeroIsHex(t: string)
    requires IsHex(t)
    ensures IsHex("0" + t)
  {
  }

  lemma LowerIsHex(h: string)
    requires IsHex(h)
    ensures IsHex(Lower(h))
  {
  }

  /** The number hex digits denote, by their positions. */
  function HexNumber(h: string): nat
    requires forall i | 0 <= i < |h| :: HexValue(h[i]) >= 0
  {
    if h == "" then 0
    else
      ProductIsNat(HexValue(h[0]), Pow(16, |h| - 1));
      HexValue(h[0]) * Pow(16, |h| - 1) + HexNumber(h[1..])
  }

  lemma {:induction false} UnhexIsNumber(h: string)
    requires |h| % 2 == 0 && forall i | 0 <= i < |h| :: HexValue(h[i]) >= 0
    ensures Unhex(h).Some? && OS2IP(Unhex(h).value) == HexNumber(h)
  {
    HexIsRead(h);
    if h != "" {
      var rest, k := h[2..], |h| / 2 - 1;
      assert h[1..][1..] == rest && h[1..][0] == h[1];
      UnhexIsNumber(rest);
      var a, b := HexValue(h[0]), HexValue(h[1]);
      var x: byte := a * 16 + b;
      assert Unhex(h).value == [x] + Unhex(rest).value;
      OS2IPIsBigEndian(x, Unhex(rest).value);
      PowSquare(16, k);
      assert |rest| == 2 * k && Pow(16, 2 * k + 1) == 16 * Pow(16, 2 * k);
      Regroup(a, 16, Pow(16, 2 * k));
      Distribute(a * 16, b, Pow(16, 2 * k));
      hide OS2IP, Unhex, HexValue;
    }
  }

  lemma {:induction false} LowerIsSameNumber(h: string)
    requires forall i | 0 <= i < |h| :: HexValue(h[i]) >= 0
    ensures forall i | 0 <= i < |h| :: HexValue(Lower(h)[i]) >= 0
    ensures HexNumber(Lower(h)) == HexNumber(h)
  {
    forall i | 0 <= i < |h| ensures HexValue(Lower(h)[i]) == HexValue(h[i]) {}
    if h != "" {
      LowerIsSameNumber(h[1..]);
      assert Lower(h)[1..] == Lower(h[1..]);
      hide HexValue, LowerHex;
    }
  }

  lemma PaddedIsSameNumber(t: string)
    requires forall i | 0 <= i < |t| :: HexValue(t[i]) >= 0
    ensures forall i | 0 <= i < |t| + 1 :: HexValue(("0" + t)[i]) >= 0
    ensures HexNumber("0" + t) == HexNumber(t)
  {
    var z := "0" + t;
    assert z[1..] == t && HexValue(z[0]) == 0;
    assert 0 * Pow(16, |t|) == 0;
  }

  /** The modulus that is read is the number its hex digits denote. */
  lemma ModulusIsNumber(s: string)
    requires IsHex(WithoutPrefix(Trim(s)))
    ensures ModulusBytes(s).Some?
    ensures OS2IP(ModulusBytes(s).value) == HexNumber(WithoutPrefix(Trim(s)))
  {
    var t := WithoutPrefix(Trim(s));
    hide HexValue, LowerHex, Trim, WithoutPrefix, Unhex, OS2IP, HexNumber;
    if |t| % 2 == 1 { PaddedIsSameNumber(t); }
    var h := if |t| % 2 == 1 then "0" + t else t;
    LowerIsSameNumber(h);
    UnhexIsNumber(Lower(h));
  }

  lemma {:induction false} TrimIs(a: string, s: string, b: string)
    requires forall c | c in a || c in b :: IsJsSpace(c)
    requires s != "" && !IsJsSpace(s[0]) && !IsJsSpace(s[|s| - 1])
    ensures Trim(a + s + b) == s
    decreases |a| + |b|
  {
    var t := a + s + b;
    if a != "" {
      assert a[0] in a && t[1..] == a[1..] + s + b;
      TrimIs(a[1..], s, b);
    } else if b != "" {
      assert b[|b| - 1] in b && t[..|t| - 1] == a + s + b[..|b| - 1];
      TrimIs(a, s, b[..|b| - 1]);
    } else {
      assert t == s;
    }
    hide IsJsSpace;
  }

  lemma {:induction false} NothingToTrim(s: string)
    requires s == "" || (!IsJsSpace(s[0]) && !IsJsSpace(s[|s| - 1]))
    ensures Trim(s) == s
  {
  }

  lemma HexDigitIsPlain(c: char)
    requires HexValue(c) >= 0
    ensures !IsJsSpace(c) && c != 'x' && c != 'X'
  {
  }

  lemma {:induction false} HexIsItself(h: string)
    requires AllLowerHex(h) && |h| >= 2 && |h| % 2 == 0
    ensures NormalizeHex(h) == Some(h)
  {
    hide HexValue, LowerHex, IsJsSpace, Trim;
    assert h[0] in h && h[1] in h && h[|h| - 1] in h;
    HexDigitIsPlain(h[0]);
    HexDigitIsPlain(h[1]);
    HexDigitIsPlain(h[|h| - 1]);
    NothingToTrim(h);
    LowerOfLower(h);
    assert forall i | 0 <= i < |h| :: h[i] in h;
  }

  /** What the server publishes is read back as the bytes it stands for. */
  lemma {:induction false} ModulusOfHex(b: seq<byte>)
    requires b != []
    ensures ModulusBytes(Hex(b)) == Some(b)
  {
    hide Hex, Unhex, NormalizeHex, AllLowerHex;
    HexIsLowerHex(b);
    HexIsItself(Hex(b));
    UnhexOfHex(b);
  }

  // ---- encrypt ----

  datatype Outcome = Sent(text: string) | BadHex | TooLong | NoRandom | ZeroModulus

  method DataBlock(msg: seq<byte>, k: nat) returns (db: array<byte>)
    requires |msg| + 2 * R.H_LEN + 2 <= k
    ensures fresh(db) && db[..] == R.DataBlock(PageHash, msg, k)
  {
    hide PageHash, R.DataBlock;
    var n := k - R.H_LEN - 1;
    var lHash := Hash([]);
    db := new byte[n](_ => 0);
    forall i | 0 <= i < R.H_LEN { db[i] := lHash[i]; }
    db[n - |msg| - 1] := 1;
    forall i | 0 <= i < |msg| { db[n - |msg| + i] := msg[i]; }
    forall i | 0 <= i < n ensures db[i] == R.DataBlock(PageHash, msg, k)[i] {
      R.DataBlockAt(PageHash, msg, k, i);
    }
  }

  /** EM = 0x00 || maskedSeed || maskedDB */
  method EncodedMessage(msg: seq<byte>, seed: seq<byte>, k: nat) returns (em: seq<byte>)
    requires |seed| == R.H_LEN && |msg| + 2 * R.H_LEN + 2 <= k < Sha.LIMIT
    ensures em == R.Encode(PageHash, msg, seed, k)
  {
    hide PageHash, R.DataBlock, R.MGF1;
    var db := DataBlock(msg, k);
    var dbMask := Mgf1(seed, k - R.H_LEN - 1);
    XorInto(db, dbMask);
    ghost var maskedDB := db[..];
    var maskedSeed := new byte[R.H_LEN](i requires 0 <= i < R.H_LEN => seed[i]);
    assert maskedSeed[..] == seed;
    var seedMask := Mgf1(db[..], R.H_LEN);
    XorInto(maskedSeed, seedMask);
    assert db[..] == maskedDB;
    em := [0] + maskedSeed[..] + db[..];
  }

  /** The arithmetic of encrypt, for a modulus that is not zero. */
  method EncryptBytes(msg: seq<byte>, modulus: seq<byte>, e: nat, seed: seq<byte>) returns (cipher: seq<byte>)
    requires |seed| == R.H_LEN && |msg| + 2 * R.H_LEN + 2 <= |modulus| < Sha.LIMIT && OS2IP(modulus) > 0
    ensures e > 0 || OS2IP(modulus) > 1 ==>
              cipher == R.Encrypt(PageHash, OS2IP(modulus), e, |modulus|, msg, seed)
  {
    var k := |modulus|;
    var n := Os2ip(modulus);
    var em := EncodedMessage(msg, seed, k);
    var x := Os2ip(em);
    var c := ModPow(x, e, n);
    cipher := I2osp(c, k);
  }

  /** encrypt: msg is the UTF-8 form of the message, seed what the random source gives, if
      there is one. The errors come in the order in which they are thrown. */
  method Encrypt(msg: seq<byte>, nHex: string, e: nat, seed: Option<seq<byte>>) returns (r: Outcome)
    requires seed.Some? ==> |seed.value| == R.H_LEN
    requires |nHex| < Sha.LIMIT
    ensures r.BadHex? <==> !IsHex(WithoutPrefix(Trim(nHex)))
    ensures !r.BadHex? ==> ModulusBytes(nHex).Some?
    ensures var b := ModulusBytes(nHex);
            b.Some? ==>
              && (r.TooLong? <==> |msg| + 2 * R.H_LEN + 2 > |b.value|)
              && (r.NoRandom? <==> !r.TooLong? && seed.None?)
              && (r.ZeroModulus? <==> !r.TooLong? && !r.NoRandom? && OS2IP(b.value) == 0)
              && (r.Sent? && (e > 0 || OS2IP(b.value) > 1) ==>
                    Base64.StdDecode(r.text)
                    == Some(R.Encrypt(PageHash, OS2IP(b.value), e, |b.value|, msg, seed.value)))
  {
    hide IsHex, WithoutPrefix, Trim, Unhex, NormalizeHex, PageHash, Base64.Encode, Base64.StdDecode;
    ModulusIsReadIff(nHex);
    ModulusIsShort(nHex);
    if ModulusBytes(nHex).None? { return BadHex; }
    var modulus := ModulusBytes(nHex).value;
    if |msg| + 2 * R.H_LEN + 2 > |modulus| { return TooLong; }
    if seed.None? { return NoRandom; }
    var n := Os2ip(modulus);
    if n == 0 { return ZeroModulus; }
    var cipher := EncryptBytes(msg, modulus, e, seed.value);
    Base64.StdDecodeOfEncode(cipher);
    r := Sent(Base64.Encode(cipher));
  }

  lemma {:induction false} TrimIsShorter(s: string)
    ensures |Trim(s)| <= |s|
    decreases |s|
  {
    if s != "" && IsJsSpace(s[0]) {
      TrimIsShorter(s[1..]);
    } else if s != "" && IsJsSpace(s[|s| - 1]) {
      TrimIsShorter(s[..|s| - 1]);
    }
  }

  lemma ModulusIsShort(s: string)
    ensures ModulusBytes(s).Some? ==> 2 * |ModulusBytes(s).value| <= |s| + 1
  {
    TrimIsShorter(s);
    hide Trim, IsHex, Unhex, Lower;
  }
}

/** Page and server together: internal/auth/loginenc.go decrypts with the standard hash. */
module LoginHandshake {
  import opened Bits
  import opened Numbers
  import opened Octets
  import opened Wrappers
  import Base64
  import F = Fips180
  import HexText
  import R = Rfc8017
  import Sha = JsSha256
  import Page = LoginPage

  /** crypto/sha256, for messages the standard covers. */
  function ServerHash(m: seq<byte>): (d: seq<byte>)
    ensures |d| == R.H_LEN
  {
    if 8 * |m| < 0x1_0000_0000_0000_0000 then F.Sha256(m) else Zeros(R.H_LEN)
  }

  lemma HashesAgree(m: seq<byte>)
    requires |m| < Sha.LIMIT && |m| % 64 != 55
    ensures Page.PageHash(m) == ServerHash(m)
  {
    Sha.DigestIsStandard(m);
  }

  /** Whatever the page encrypts, the server decrypts to the same message, for every
      modulus length other than those that are 20 modulo 64 bytes. */
  lemma ServerReadsWhatPageSent(n: nat, e: nat, d: nat, k: nat, m: seq<byte>, seed: seq<byte>)
    requires |seed| == R.H_LEN && |m| + 2 * R.H_LEN + 2 <= k < Sha.LIMIT && k % 64 != 20
    requires R.KeyPair(n, e, d) && R.HasBytes(n, k)
    ensures R.Decrypt(ServerHash, n, d, k, R.Encrypt(Page.PageHash, n, e, k, m, seed)) == Some(m)
  {
    hide R.Encrypt, R.Decrypt, R.HasBytes, Page.PageHash, ServerHash;
    forall x: seq<byte> | |x| == 0 || |x| == R.H_LEN + 4 || |x| == k - R.H_LEN - 1 + 4
      ensures Page.PageHash(x) == ServerHash(x)
    {
      HashesAgree(x);
    }
    R.EncryptAgrees(Page.PageHash, ServerHash, n, e, k, m, seed);
    R.DecryptOfEncrypt(ServerHash, n, e, d, k, m, seed);
  }

  /** Decrypt up to the plain text: Base64, then RSA-OAEP with the standard hash. */
  ghost function ServerReads(n: nat, d: nat, k: nat, text: string): Option<seq<byte>>
    requires n > 0
  {
    match Base64.StdDecode(text)
    case Some(c) => R.Decrypt(ServerHash, n, d, k, c)
    case None => None
  }

  /** One sign-in with the 2048-bit key the server generates and publishes in hex: without
      a random source nothing is sent, a message is refused exactly when it is longer than
      190 bytes, and otherwise it arrives unchanged. */
  method SignIn(m: seq<byte>, modulus: seq<byte>, e: nat, ghost d: nat, seed: Option<seq<byte>>)
    returns (r: Page.Outcome)
    requires seed.Some? ==> |seed.value| == R.H_LEN
    requires |modulus| == 256 && R.HasBytes(OS2IP(modulus), 256) && R.KeyPair(OS2IP(modulus), e, d)
    ensures r.TooLong? <==> |m| > 190
    ensures r.NoRandom? <==> |m| <= 190 && seed.None?
    ensures |m| <= 190 && seed.Some? ==> r.Sent? && ServerReads(OS2IP(modulus), d, 256, r.text) == Some(m)
  {
    hide Base64.StdDecode, Page.ModulusBytes, HexText.Hex, Page.PageHash, ServerHash;
    Page.ModulusOfHex(modulus);
    PowPositive(256, 254);
    assert Pow(256, 255) == 256 * Pow(256, 254);
    r := Page.Encrypt(m, HexText.Hex(modulus), e, seed);
    Page.ModulusIsReadIff(HexText.Hex(modulus));
    if |m| <= 190 && seed.Some? {
      ServerReadsWhatPageSent(OS2IP(modulus), e, d, 256, m, seed.value);
    }
  }
}
