/** atob and btoa of the script sandbox (internal/script/globals.go,
    internal/script/jsbytes.go) over standard Base64 (RFC 4648, section 4). */
module Base64 {
  import opened Bits
  import opened Seqs
  import opened Wrappers

  // ---- The alphabet ----

  function Digit(v: nat): char
    requires v < 64
  {
    if v < 26 then 'A' + v as char
    else if v < 52 then 'a' + (v - 26) as char
    else if v < 62 then '0' + (v - 52) as char
    else if v == 62 then '+' else '/'
  }

  /** -1 outside the alphabet. */
  function DigitValue(c: char): (v: int)
    ensures -1 <= v < 64
  {
    if 'A' <= c <= 'Z' then c as int - 'A' as int
    else if 'a' <= c <= 'z' then c as int - 'a' as int + 26
    else if '0' <= c <= '9' then c as int - '0' as int + 52
    else if c == '+' then 62
    else if c == '/' then 63
    else -1
  }

  predicate IsBlank(c: char) { c == ' ' || c == '\t' || c == '\r' || c == '\n' }

  /** The digits in order. */
  lemma DigitIs(v: nat)
    requires v < 64
    ensures v < 26 ==> Digit(v) == "ABCDEFGHIJKLMNOPQRSTUVWXYZ"[v]
    ensures 26 <= v < 52 ==> Digit(v) == "abcdefghijklmnopqrstuvwxyz"[v - 26]
    ensures 52 <= v ==> Digit(v) == "0123456789+/"[v - 52]
  {
  }

  lemma DigitRoundTrip(v: nat)
    requires v < 64
    ensures DigitValue(Digit(v)) == v && Digit(v) != '=' && !IsBlank(Digit(v))
  {
  }

  // ---- Encoding ----

  /** The four digits of up to three bytes, padded with '='. */
  function Group(b: seq<byte>): (s: string)
    requires 1 <= |b| <= 3
    ensures |s| == 4
  {
    var b1 := if |b| > 1 then b[1] as int else 0;
    var b2 := if |b| > 2 then b[2] as int else 0;
    [Digit(b[0] as int / 4), Digit(b[0] as int % 4 * 16 + b1 / 16),
     if |b| > 1 then Digit(b1 % 16 * 4 + b2 / 64) else '=',
     if |b| > 2 then Digit(b2 % 64) else '=']
  }

  /** The number the first n characters of g stand for, six bits each. */
  function Sextets(g: string, n: nat): int
    requires n <= |g|
  {
    if n == 0 then 0 else Sextets(g, n - 1) * 64 + DigitValue(g[n - 1])
  }

  /** Each group spells the number its bytes make, most significant first and filled up
      with zero bits to whole digits. */
  lemma GroupSpellsNumber(b: seq<byte>)
    requires 1 <= |b| <= 3
    ensures |b| == 3 ==> Sextets(Group(b), 4) == b[0] as int * 65536 + b[1] as int * 256 + b[2] as int
    ensures |b| == 2 ==> Sextets(Group(b), 3) == (b[0] as int * 256 + b[1] as int) * 4 && Group(b)[3..] == "="
    ensures |b| == 1 ==> Sextets(Group(b), 2) == b[0] as int * 16 && Group(b)[2..] == "=="
  {
    hide Digit, DigitValue;
    var b1 := if |b| > 1 then b[1] as int else 0;
    var b2 := if |b| > 2 then b[2] as int else 0;
    DigitRoundTrip(b[0] as int / 4);
    DigitRoundTrip(b[0] as int % 4 * 16 + b1 / 16);
    DigitRoundTrip(b1 % 16 * 4 + b2 / 64);
    DigitRoundTrip(b2 % 64);
    SextetsUnfold(Group(b));
    DivTogether(b[0] as int, 4);
    DivTogether(b1, 16);
    DivTogether(b2, 64);
  }

  lemma SextetsUnfold(g: string)
    requires |g| == 4
    ensures Sextets(g, 2) == DigitValue(g[0]) * 64 + DigitValue(g[1])
    ensures Sextets(g, 3) == DigitValue(g[0]) * 4096 + DigitValue(g[1]) * 64 + DigitValue(g[2])
    ensures Sextets(g, 4)
         == DigitValue(g[0]) * 262144 + DigitValue(g[1]) * 4096 + DigitValue(g[2]) * 64 + DigitValue(g[3])
  {
    hide DigitValue;
    assert Sextets(g, 0) == 0 && Sextets(g, 1) == DigitValue(g[0]);
  }

  lemma DivTogether(x: nat, m: nat)
    requires m == 4 || m == 16 || m == 64
    ensures x == x / m * m + x % m
  {
  }

  function Encode(b: seq<byte>): string {
    if b == [] then "" else if |b| <= 3 then Group(b) else Group(b[..3]) + Encode(b[3..])
  }

  lemma {:induction false} EncodeLength(b: seq<byte>)
    ensures |Encode(b)| % 4 == 0
  {
    hide Group;
    if |b| > 3 { EncodeLength(b[3..]); }
  }

  // ---- Go's StdEncoding.DecodeString ----

  /** The three bytes of four sextets. */
  function Triple(v0: nat, v1: nat, v2: nat, v3: nat): (b: seq<byte>)
    requires v0 < 64 && v1 < 64 && v2 < 64 && v3 < 64
    ensures |b| == 3
  {
    [v0 * 4 + v1 / 16, v1 % 16 * 16 + v2 / 4, v2 % 4 * 64 + v3]
  }

  function DecodeGroups(t: string): Option<seq<byte>> {
    if t == "" then Some([])
    else if |t| < 4 || DigitValue(t[0]) < 0 || DigitValue(t[1]) < 0 then None
    else
      var v0, v1, v2, v3 := DigitValue(t[0]), DigitValue(t[1]), DigitValue(t[2]), DigitValue(t[3]);
      if t[2] == '=' then
        if t[3] == '=' && |t| == 4 then Some(Triple(v0, v1, 0, 0)[..1]) else None
      else if v2 < 0 then None
      else if t[3] == '=' then
        if |t| == 4 then Some(Triple(v0, v1, v2, 0)[..2]) else None
      else if v3 < 0 then None
      else
        match DecodeGroups(t[4..])
        case Some(rest) => Some(Triple(v0, v1, v2, v3) + rest)
        case None => None
  }

  function Without(s: string, drop: char -> bool): string {
    if s == "" then "" else (if drop(s[0]) then "" else [s[0]]) + Without(s[1..], drop)
  }

  function IsNewline(): char -> bool { c => c == '\r' || c == '\n' }

  /** Line breaks are skipped wherever they stand. */
  function StdDecode(s: string): Option<seq<byte>> {
    DecodeGroups(Without(s, IsNewline()))
  }

  lemma {:induction false} WithoutNothing(s: string, drop: char -> bool)
    requires forall c | c in s :: !drop(c)
    ensures Without(s, drop) == s
  {
    if s != "" {
      assert s[0] in s;
      assert forall c | c in s[1..] :: c in s;
      WithoutNothing(s[1..], drop);
      HeadTail(s);
    }
  }

  /** Character by character, whatever comes before and after. */
  lemma WithoutAround(a: string, c: char, b: string, drop: char -> bool)
    ensures Without(a + [c] + b, drop) == Without(a, drop) + (if drop(c) then "" else [c]) + Without(b, drop)
    ensures Without(a + b, drop) == Without(a, drop) + Without(b, drop)
  {
    assert ([c] + b)[1..] == b && a + [c] + b == a + ([c] + b);
    WithoutAppend(a, [c] + b, drop);
    WithoutAppend(a, b, drop);
    var one := if drop(c) then "" else [c];
    assert Without([c] + b, drop) == one + Without(b, drop);
    hide Without;
    Assoc(Without(a, drop), one, Without(b, drop));
  }

  lemma {:induction false} WithoutAppend(a: string, b: string, drop: char -> bool)
    ensures Without(a + b, drop) == Without(a, drop) + Without(b, drop)
  {
    if a == "" {
      assert a + b == b;
    } else {
      assert (a + b)[0] == a[0] && (a + b)[1..] == a[1..] + b;
      WithoutAppend(a[1..], b, drop);
      Assoc(if drop(a[0]) then "" else [a[0]], Without(a[1..], drop), Without(b, drop));
    }
  }

  /** A line break anywhere changes nothing. */
  lemma LineBreaksAreSkipped(a: string, c: char, b: string)
    requires c in "\r\n"
    ensures StdDecode(a + [c] + b) == StdDecode(a + b)
  {
    hide DecodeGroups, Without;
    WithoutAround(a, c, b, IsNewline());
    var w := Without(a, IsNewline());
    assert IsNewline()(c) && w + "" == w;
  }

  // ---- What the decoder accepts ----

  /** Four characters that stand for up to three bytes: their digits, except that the bits
      the last digit has to spare may be anything. */
  ghost predicate SpellsGroup(t: string, b: seq<byte>)
    requires 1 <= |b| <= 3 && |t| == 4
  {
    var g := Group(b);
    if |b| == 1 then
      t[0] == g[0] && DigitValue(t[1]) >= 0 && DigitValue(t[1]) / 16 == DigitValue(g[1]) / 16 && t[2..] == "=="
    else if |b| == 2 then
      t[..2] == g[..2] && DigitValue(t[2]) >= 0 && DigitValue(t[2]) / 4 == DigitValue(g[2]) / 4 && t[3] == '='
    else t == g
  }

  ghost predicate Spells(t: string, b: seq<byte>)
    requires b != []
  {
    |t| >= 4
    && if |b| <= 3 then |t| == 4 && SpellsGroup(t, b) else t[..4] == Group(b[..3]) && Spells(t[4..], b[3..])
  }

  lemma DigitOfValue(c: char)
    requires DigitValue(c) >= 0
    ensures Digit(DigitValue(c)) == c && c != '='
  {
  }

  /** A character is the digit v exactly when its value is v. */
  lemma IsDigitIff(c: char, v: nat)
    requires v < 64
    ensures c == Digit(v) <==> DigitValue(c) == v
  {
    DigitRoundTrip(v);
    if DigitValue(c) >= 0 { DigitOfValue(c); }
  }

  /** A byte put together from its high and low bits. */
  lemma JoinIff(high: nat, low: nat, x: byte)
    ensures low < 4 ==> (high * 4 + low == x as int <==> high == x as int / 4 && low == x as int % 4)
    ensures low < 16 ==> (high * 16 + low == x as int <==> high == x as int / 16 && low == x as int % 16)
    ensures low < 64 ==> (high * 64 + low == x as int <==> high == x as int / 64 && low == x as int % 64)
  {
  }

  lemma OneByteIff(v0: nat, v1: nat, x: byte)
    requires v0 < 64 && v1 < 64
    ensures Triple(v0, v1, 0, 0)[..1] == [x] <==> v0 == x as int / 4 && v1 / 16 == x as int % 4
  {
    JoinIff(v0, v1 / 16, x);
    var t := Triple(v0, v1, 0, 0)[..1];
    assert t == [v0 * 4 + v1 / 16];
    assert t == [x] <==> t[0] == x;
  }

  lemma TwoBytesIff(v0: nat, v1: nat, v2: nat, x: byte, y: byte)
    requires v0 < 64 && v1 < 64 && v2 < 64
    ensures Triple(v0, v1, v2, 0)[..2] == [x, y]
       <==> v0 == x as int / 4 && v1 == x as int % 4 * 16 + y as int / 16 && v2 / 4 == y as int % 16
  {
    JoinIff(v0, v1 / 16, x);
    JoinIff(v1 % 16, v2 / 4, y);
    var t := Triple(v0, v1, v2, 0)[..2];
    assert t == [v0 * 4 + v1 / 16, v1 % 16 * 16 + v2 / 4];
    assert t == [x, y] <==> t[0] == x && t[1] == y;
    SplitDigit(v1, x as int % 4, y as int / 16);
  }

  lemma SplitDigit(v: nat, high: nat, low: nat)
    requires low < 16
    ensures v == high * 16 + low <==> v / 16 == high && v % 16 == low
  {
  }

  lemma SplitDigit4(v: nat, high: nat, low: nat)
    requires low < 4
    ensures v == high * 4 + low <==> v / 4 == high && v % 4 == low
  {
  }

  lemma ThreeBytesIff(v0: nat, v1: nat, v2: nat, v3: nat, x: byte, y: byte, z: byte)
    requires v0 < 64 && v1 < 64 && v2 < 64 && v3 < 64
    ensures Triple(v0, v1, v2, v3) == [x, y, z]
       <==> v0 == x as int / 4 && v1 == x as int % 4 * 16 + y as int / 16
            && v2 == y as int % 16 * 4 + z as int / 64 && v3 == z as int % 64
  {
    JoinIff(v0, v1 / 16, x);
    JoinIff(v1 % 16, v2 / 4, y);
    JoinIff(v2 % 4, v3, z);
    var t := Triple(v0, v1, v2, v3);
    assert t == [v0 * 4 + v1 / 16, v1 % 16 * 16 + v2 / 4, v2 % 4 * 64 + v3];
    hide Triple;
    SplitDigit(v1, x as int % 4, y as int / 16);
    SplitDigit4(v2, y as int % 16, z as int / 64);
  }

  /** What a padded group decodes to. */
  lemma DecodePadded(t: string)
    requires |t| >= 4 && DigitValue(t[0]) >= 0 && DigitValue(t[1]) >= 0 && t[3] == '='
    ensures t[2] == '=' ==>
              DecodeGroups(t)
              == (if |t| == 4 then Some(Triple(DigitValue(t[0]), DigitValue(t[1]), 0, 0)[..1]) else None)
    ensures DigitValue(t[2]) >= 0 ==>
              DecodeGroups(t)
              == (if |t| == 4 then Some(Triple(DigitValue(t[0]), DigitValue(t[1]), DigitValue(t[2]), 0)[..2]) else None)
  {
    assert DigitValue('=') < 0;
    hide Triple, DigitValue;
  }

  /** One or two bytes come from a padded group only. */
  lemma ShortIsPadded(t: string, b: seq<byte>)
    requires DecodeGroups(t) == Some(b) && 1 <= |b| <= 2
    ensures |t| == 4 && DigitValue(t[0]) >= 0 && DigitValue(t[1]) >= 0 && t[3] == '='
    ensures if |b| == 1 then t[2] == '=' else DigitValue(t[2]) >= 0
  {
    hide DigitValue;
  }

  lemma DecodesToOneIff(t: string, b: seq<byte>)
    requires |b| == 1
    ensures DecodeGroups(t) == Some(b) <==> |t| == 4 && SpellsGroup(t, b)
  {
    hide DecodeGroups, Triple;
    var x := b[0];
    assert b == [x];
    if DecodeGroups(t) == Some(b) { ShortIsPadded(t, b); }
    if |t| == 4 {
      IsDigitIff(t[0], x as int / 4);
      DigitRoundTrip(x as int % 4 * 16);
      assert t[2..] == [t[2], t[3]];
      if DigitValue(t[0]) >= 0 && DigitValue(t[1]) >= 0 && t[2] == '=' && t[3] == '=' {
        DecodePadded(t);
        OneByteIff(DigitValue(t[0]), DigitValue(t[1]), x);
      }
    }
    hide Digit, DigitValue;
  }

  lemma DecodesToTwoIff(t: string, b: seq<byte>)
    requires |b| == 2
    ensures DecodeGroups(t) == Some(b) <==> |t| == 4 && SpellsGroup(t, b)
  {
    hide DecodeGroups, Triple;
    var x, y := b[0], b[1];
    assert b == [x, y];
    if DecodeGroups(t) == Some(b) { ShortIsPadded(t, b); }
    if |t| == 4 {
      IsDigitIff(t[0], x as int / 4);
      IsDigitIff(t[1], x as int % 4 * 16 + y as int / 16);
      DigitRoundTrip(y as int % 16 * 4);
      assert t[..2] == [t[0], t[1]];
      if DigitValue(t[0]) >= 0 && DigitValue(t[1]) >= 0 && DigitValue(t[2]) >= 0 && t[3] == '=' {
        DecodePadded(t);
        TwoBytesIff(DigitValue(t[0]), DigitValue(t[1]), DigitValue(t[2]), x, y);
      }
    }
    hide Digit, DigitValue;
  }

  predicate FourDigits(t: string) {
    |t| >= 4 && DigitValue(t[0]) >= 0 && DigitValue(t[1]) >= 0 && DigitValue(t[2]) >= 0 && DigitValue(t[3]) >= 0
  }

  lemma DecodeFullGroup(t: string)
    requires FourDigits(t)
    ensures DecodeGroups(t)
         == match DecodeGroups(t[4..])
            case Some(rest) =>
              Some(Triple(DigitValue(t[0]), DigitValue(t[1]), DigitValue(t[2]), DigitValue(t[3])) + rest)
            case None => None
  {
    DigitOfValue(t[2]);
    DigitOfValue(t[3]);
    hide Triple, DigitValue, Digit;
  }

  lemma ShortGroupIsShort(t: string, b: seq<byte>)
    requires !FourDigits(t) && DecodeGroups(t) == Some(b)
    ensures |b| < 3
  {
    hide DigitValue;
  }

  lemma GroupIsFourDigitsIff(t: string, x: byte, y: byte, z: byte)
    requires |t| >= 4
    ensures t[..4] == Group([x, y, z])
       <==> FourDigits(t) && Triple(DigitValue(t[0]), DigitValue(t[1]), DigitValue(t[2]), DigitValue(t[3])) == [x, y, z]
  {
    IsDigitIff(t[0], x as int / 4);
    IsDigitIff(t[1], x as int % 4 * 16 + y as int / 16);
    IsDigitIff(t[2], y as int % 16 * 4 + z as int / 64);
    IsDigitIff(t[3], z as int % 64);
    if FourDigits(t) {
      ThreeBytesIff(DigitValue(t[0]), DigitValue(t[1]), DigitValue(t[2]), DigitValue(t[3]), x, y, z);
    }
    hide Digit, DigitValue, Triple;
    assert t[..4] == [t[0], t[1], t[2], t[3]];
  }

  lemma SameFront(u: seq<byte>, r: seq<byte>, b: seq<byte>)
    requires |u| == 3 && |b| >= 3
    ensures u + r == b <==> u == b[..3] && r == b[3..]
  {
    assert (u + r)[..3] == u && (u + r)[3..] == r;
    assert b == b[..3] + b[3..];
  }

  /** Four digits and what follows. */
  lemma DecodesToThreeIff(t: string, b: seq<byte>)
    requires |b| >= 3
    ensures DecodeGroups(t) == Some(b)
       <==> |t| >= 4 && t[..4] == Group(b[..3]) && DecodeGroups(t[4..]) == Some(b[3..])
  {
    hide DecodeGroups, Group, FourDigits;
    assert b[..3] == [b[0], b[1], b[2]];
    if |t| >= 4 { GroupIsFourDigitsIff(t, b[0], b[1], b[2]); }
    if FourDigits(t) {
      LongEnough(t);
      DecodeFullGroup(t);
      var u := Triple(DigitValue(t[0]), DigitValue(t[1]), DigitValue(t[2]), DigitValue(t[3]));
      if DecodeGroups(t[4..]).Some? { SameFront(u, DecodeGroups(t[4..]).value, b); }
    } else if DecodeGroups(t) == Some(b) {
      ShortGroupIsShort(t, b);
    }
  }

  lemma LongEnough(t: string)
    requires FourDigits(t)
    ensures |t| >= 4 && DigitValue(t[0]) >= 0 && DigitValue(t[1]) >= 0 && DigitValue(t[2]) >= 0 && DigitValue(t[3]) >= 0
  {
  }

  lemma DecodesToNothingIff(t: string)
    ensures DecodeGroups(t) == Some([]) <==> t == ""
  {
    hide DigitValue;
  }

  lemma {:induction false} DecodesIff(t: string, b: seq<byte>)
    requires b != []
    ensures DecodeGroups(t) == Some(b) <==> Spells(t, b)
  {
    if |b| == 1 {
      DecodesToOneIff(t, b);
    } else if |b| == 2 {
      DecodesToTwoIff(t, b);
    } else {
      DecodesToThreeIff(t, b);
      if |b| == 3 {
        assert b[..3] == b && b[3..] == [];
        if |t| >= 4 {
          DecodesToNothingIff(t[4..]);
          if |t| == 4 { assert t[..4] == t; }
        }
      } else if |t| >= 4 {
        DecodesIff(t[4..], b[3..]);
      }
    }
    hide DecodeGroups, Group;
  }

  // ---- Round trip ----

  ghost predicate NoBlanks(s: string) { forall c | c in s :: !IsBlank(c) }

  lemma GroupHasNoBlank(b: seq<byte>)
    requires 1 <= |b| <= 3
    ensures NoBlanks(Group(b))
  {
    var b1 := if |b| > 1 then b[1] as int else 0;
    var b2 := if |b| > 2 then b[2] as int else 0;
    DigitRoundTrip(b[0] as int / 4);
    DigitRoundTrip(b[0] as int % 4 * 16 + b1 / 16);
    DigitRoundTrip(b1 % 16 * 4 + b2 / 64);
    DigitRoundTrip(b2 % 64);
    hide Digit;
  }

  lemma {:induction false} EncodeHasNoBlank(b: seq<byte>)
    ensures NoBlanks(Encode(b))
  {
    hide Group, IsBlank;
    if |b| > 3 {
      GroupHasNoBlank(b[..3]);
      EncodeHasNoBlank(b[3..]);
    } else if b != [] {
      GroupHasNoBlank(b);
    }
  }

  lemma GroupIsSpelled(b: seq<byte>)
    requires 1 <= |b| <= 3
    ensures SpellsGroup(Group(b), b)
  {
    DigitRoundTrip(b[0] as int % 4 * 16);
    if |b| > 1 { DigitRoundTrip(b[1] as int % 16 * 4); }
  }

  lemma {:induction false} EncodeIsSpelled(b: seq<byte>)
    requires b != []
    ensures Spells(Encode(b), b)
  {
    hide Group, SpellsGroup;
    if |b| <= 3 {
      GroupIsSpelled(b);
    } else {
      EncodeIsSpelled(b[3..]);
      assert Encode(b)[..4] == Group(b[..3]) && Encode(b)[4..] == Encode(b[3..]);
    }
  }

  lemma DecodeOfEncode(b: seq<byte>)
    ensures DecodeGroups(Encode(b)) == Some(b)
  {
    if b != [] {
      EncodeIsSpelled(b);
      DecodesIff(Encode(b), b);
    }
    hide Encode;
  }

  /** Standard decoding returns what was encoded. */
  lemma StdDecodeOfEncode(b: seq<byte>)
    ensures StdDecode(Encode(b)) == Some(b)
  {
    EncodeHasNoBlank(b);
    WithoutNothing(Encode(b), IsNewline());
    DecodeOfEncode(b);
  }

  // ---- The lenient decoder ----

  function IsSpace(): char -> bool { c => IsBlank(c) }

  /** stripBase64Space */
  function Strip(s: string): string { Without(s, IsSpace()) }

  /** s is t with blanks put in. */
  ghost predicate Blanked(s: string, t: string) {
    if s == "" then t == ""
    else (s[0] in " \t\r\n" && Blanked(s[1..], t)) || (t != "" && s[0] == t[0] && Blanked(s[1..], t[1..]))
  }

  lemma {:induction false} StripOfBlanked(s: string, t: string)
    requires Blanked(s, t) && forall c | c in t :: !IsBlank(c)
    ensures Strip(s) == t
  {
    if s != "" {
      if s[0] in " \t\r\n" && Blanked(s[1..], t) {
        StripOfBlanked(s[1..], t);
      } else {
        assert t[0] in t && forall c | c in t[1..] :: c in t;
        StripOfBlanked(s[1..], t[1..]);
        HeadTail(t);
      }
    }
  }

  /** What is stripped is a text without blanks that the input is with blanks put in. */
  lemma {:induction false} BlankedOfStrip(s: string)
    ensures Blanked(s, Strip(s)) && forall c | c in Strip(s) :: c !in " \t\r\n"
  {
    if s == "" {
      assert Strip(s) == "";
    } else {
      BlankedOfStrip(s[1..]);
      if IsBlank(s[0]) {
        assert Strip(s) == Strip(s[1..]);
      } else {
        assert Strip(s) == [s[0]] + Strip(s[1..]);
        assert Strip(s)[1..] == Strip(s[1..]);
      }
    }
  }

  function Padding(n: nat): string { if n % 4 == 0 then "" else seq(4 - n % 4, _ => '=') }

  function Lenient(s: string): Option<seq<byte>> {
    var clean := Strip(s);
    if clean == "" then None
    else if StdDecode(clean).Some? then StdDecode(clean)
    else StdDecode(clean + Padding(|clean|))
  }

  lemma GroupPads(b: seq<byte>)
    requires 1 <= |b| <= 3
    ensures forall i | 0 <= i < 4 :: Group(b)[i] == '=' <==> i > |b|
  {
    var b1 := if |b| > 1 then b[1] as int else 0;
    var b2 := if |b| > 2 then b[2] as int else 0;
    DigitRoundTrip(b[0] as int / 4);
    DigitRoundTrip(b[0] as int % 4 * 16 + b1 / 16);
    DigitRoundTrip(b1 % 16 * 4 + b2 / 64);
    DigitRoundTrip(b2 % 64);
    hide Digit;
  }

  function PadCount(n: nat): nat { (3 - n % 3) % 3 }

  lemma EncodeStep(b: seq<byte>)
    requires |b| > 3
    ensures Encode(b) == Group(b[..3]) + Encode(b[3..])
  {
  }

  lemma SamePadCount(n: nat)
    ensures PadCount(n + 3) == PadCount(n)
  {
  }

  lemma {:induction false} EncodeEndsInPads(b: seq<byte>)
    requires b != []
    ensures var e, p := Encode(b), PadCount(|b|);
            && |e| >= 4 && (forall i | |e| - p <= i < |e| :: e[i] == '=') && e[|e| - p - 1] != '='
  {
    hide Group;
    if |b| <= 3 {
      GroupPads(b);
    } else {
      EncodeEndsInPads(b[3..]);
      SamePadCount(|b| - 3);
      hide PadCount, Encode;
      var g, e := Group(b[..3]), Encode(b[3..]);
      EncodeStep(b);
      assert forall i | 4 <= i < |g + e| :: (g + e)[i] == e[i - 4];
    }
  }

  lemma PaddingLength(m: nat, d: nat)
    requires m % 4 == 0 && d < 4 && d <= m
    ensures var p := Padding(m - d); |p| == d && forall i | 0 <= i < |p| :: p[i] == '='
  {
  }

  lemma PadsPutBack(b: seq<byte>, n: nat)
    requires b != [] && n <= |Encode(b)| && |Encode(b)| - n <= PadCount(|b|)
    ensures Encode(b)[..n] + Padding(n) == Encode(b)
  {
    hide Encode, Padding;
    EncodeEndsInPads(b);
    EncodeLength(b);
    var e := Encode(b);
    PaddingLength(|e|, |e| - n);
    assert forall i | n <= i < |e| :: e[i] == '=' == Padding(n)[i - n];
    assert e == e[..n] + Padding(n);
  }

  /** However much white space is put into the Base64 text of a non-empty byte string, and
      however many of its trailing '=' are left out, it decodes to that byte string. */
  lemma LenientDecodes(b: seq<byte>, s: string, n: nat)
    requires b != [] && n <= |Encode(b)| && |Encode(b)| - n <= PadCount(|b|)
    requires Blanked(s, Encode(b)[..n])
    ensures Lenient(s) == Some(b)
  {
    var e := Encode(b);
    EncodeEndsInPads(b);
    EncodeLength(b);
    EncodeHasNoBlank(b);
    assert forall c | c in e[..n] :: c in e;
    StripOfBlanked(s, e[..n]);
    DecodeOfEncode(b);
    PadsPutBack(b, n);
    hide Encode, DecodeGroups, Strip, Blanked;
    WithoutNothing(e[..n], IsNewline());
    WithoutNothing(e, IsNewline());
    if n == |e| { assert e[..n] == e; } else { assert n % 4 != 0; UnevenIsRefused(e[..n]); }
  }

  lemma UnevenIsRefused(t: string)
    requires |t| % 4 != 0
    ensures DecodeGroups(t) == None
  {
    if DecodeGroups(t).Some? { DecodedLength(t); }
  }

  /** The text that is decoded in the end: blanks out, missing padding put back. */
  function Completed(s: string): string { Strip(s) + Padding(|Strip(s)|) }

  lemma {:induction false} DecodedLength(t: string)
    requires DecodeGroups(t).Some?
    ensures |t| % 4 == 0
  {
    hide Triple, DigitValue;
    if |t| > 4 { DecodedLength(t[4..]); }
  }

  lemma {:induction false} WithoutHasNone(s: string, drop: char -> bool)
    ensures forall c | c in Without(s, drop) :: c in s && !drop(c)
  {
    if s != "" { WithoutHasNone(s[1..], drop); }
  }

  lemma StripHasNoBlank(s: string)
    ensures forall c | c in Strip(s) :: !IsBlank(c)
  {
    WithoutHasNone(s, IsSpace());
    forall c | c in Strip(s) ensures !IsBlank(c) { assert !IsSpace()(c); }
  }

  lemma NoNewlines(t: string)
    requires forall c | c in t :: !IsBlank(c)
    ensures StdDecode(t) == DecodeGroups(t)
  {
    hide DecodeGroups;
    WithoutNothing(t, IsNewline());
  }

  /** Decoding as it stands first makes no difference: it only succeeds when no padding is
      missing. */
  lemma LenientIsCompleted(s: string)
    requires Strip(s) != ""
    ensures Lenient(s) == DecodeGroups(Completed(s))
  {
    var clean := Strip(s);
    hide Strip, DecodeGroups;
    StripHasNoBlank(s);
    NoNewlines(clean);
    assert forall c | c in Completed(s) :: c in clean || c == '=';
    NoNewlines(Completed(s));
    hide StdDecode;
    if StdDecode(clean).Some? {
      DecodedLength(clean);
      assert Completed(s) == clean + "" == clean;
    }
  }

  lemma NothingSpelled(s: string)
    requires Strip(s) != ""
    ensures DecodeGroups(Completed(s)) != Some([])
  {
    DecodesToNothingIff(Completed(s));
    hide DecodeGroups;
  }

  /** The lenient decoder answers b exactly when b is non-empty and the text, blanks out and
      padding completed, spells it. */
  lemma LenientIff(s: string, b: seq<byte>)
    ensures Lenient(s) == Some(b) <==> b != [] && Spells(Completed(s), b)
  {
    if Strip(s) != "" {
      LenientIsCompleted(s);
      NothingSpelled(s);
      if b != [] { DecodesIff(Completed(s), b); }
    }
    hide DecodeGroups, StdDecode, Strip;
  }

  method DecodeBase64Lenient(s: string) returns (r: Option<seq<byte>>)
    ensures forall b :: r == Some(b) <==> b != [] && Spells(Completed(s), b)
  {
    forall b ensures Lenient(s) == Some(b) <==> b != [] && Spells(Completed(s), b) { LenientIff(s, b); }
    var clean := Strip(s);
    if clean == "" { return None; }
    r := StdDecode(clean);
    if r.Some? { return; }
    clean := clean + Padding(|clean|);
    r := StdDecode(clean);
  }

  // ---- btoa and atob ----

  predicate FitsLatin1(s: string) {
    forall i | 0 <= i < |s| :: s[i] as int <= 0xff
  }

  function Latin1(s: string): Option<seq<byte>> {
    if FitsLatin1(s) then Some(seq(|s|, i requires 0 <= i < |s| && s[i] as int <= 0xff => s[i] as int)) else None
  }

  /** DecodeString(s, "latin1"): one byte per character, if every one fits. */
  method DecodeLatin1(s: string) returns (r: Option<seq<byte>>)
    ensures r == Latin1(s)
    ensures r.Some? <==> forall i | 0 <= i < |s| :: s[i] as int <= 0xff
    ensures r.Some? ==> |r.value| == |s| && forall i | 0 <= i < |s| :: r.value[i] == s[i] as int
  {
    var out: seq<byte> := [];
    for i := 0 to |s|
      invariant |out| == i && forall j | 0 <= j < i :: s[j] as int <= 0xff && out[j] as int == s[j] as int
    {
      if s[i] as int > 0xff {
        assert !FitsLatin1(s);
        return None;
      }
      out := out + [s[i] as int];
    }
    assert FitsLatin1(s);
    assert out == Latin1(s).value;
    r := Some(out);
  }

  /** EncodeBytes(b, "latin1") */
  function FromLatin1(b: seq<byte>): (s: string)
    ensures |s| == |b| && forall i | 0 <= i < |b| :: s[i] as int == b[i]
  {
    seq(|b|, i requires 0 <= i < |b| => b[i] as int as char)
  }

  function Btoa(s: string): Option<string> {
    match Latin1(s)
    case Some(b) => Some(Encode(b))
    case None => None
  }

  function Atob(s: string): Option<string> {
    match Lenient(s)
    case Some(b) => Some(FromLatin1(b))
    case None => None
  }

  /** atob undoes btoa exactly on the non-empty strings of characters up to U+00FF: any
      other string either has no btoa, or is empty, which atob refuses. */
  lemma AtobOfBtoaIff(s: string)
    ensures Btoa(s).Some? && Atob(Btoa(s).value) == Some(s)
        <==> s != "" && FitsLatin1(s)
  {
    if Latin1(s).Some? {
      var b := Latin1(s).value;
      assert FromLatin1(b) == s;
      if s != "" {
        EncodeHasNoBlank(b);
        WithoutNothing(Encode(b), IsSpace());
        assert Encode(b)[..|Encode(b)|] == Encode(b);
        BlankedOfStrip(Encode(b));
        LenientDecodes(b, Encode(b), |Encode(b)|);
      } else {
        assert Encode(b) == "" && Strip("") == "";
      }
    }
  }
}
