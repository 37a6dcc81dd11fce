/** Hexadecimal text of byte strings. */
module HexText {
  import opened Bits
  import opened Seqs
  import opened Wrappers

  function HexDigit(n: nat): char
    requires n < 16
  {
    if n < 10 then '0' + n as char else 'a' + (n - 10) as char
  }

  /** Both cases are read; -1 is an invalid digit. */
  function HexValue(c: char): (v: int)
    ensures -1 <= v < 16
  {
    if '0' <= c <= '9' then c as int - '0' as int
    else if 'a' <= c <= 'f' then c as int - 'a' as int + 10
    else if 'A' <= c <= 'F' then c as int - 'A' as int + 10
    else -1
  }

  function LowerHex(c: char): char {
    if 'A' <= c <= 'F' then c + 32 as char else c
  }

  function Lower(s: string): (t: string)
    ensures |t| == |s| && forall i | 0 <= i < |s| :: t[i] == LowerHex(s[i])
  {
    if s == "" then "" else [LowerHex(s[0])] + Lower(s[1..])
  }

  function Hex(b: seq<byte>): (h: string)
    ensures |h| == 2 * |b|
  {
    if b == [] then "" else [HexDigit(b[0] / 16), HexDigit(b[0] % 16)] + Hex(b[1..])
  }

  function Unhex(h: string): (b: Option<seq<byte>>)
    ensures b.Some? ==> 2 * |b.value| == |h|
  {
    if h == "" then Some([])
    else if |h| == 1 || HexValue(h[0]) < 0 || HexValue(h[1]) < 0 then None
    else
      match Unhex(h[2..])
      case Some(rest) => Some([HexValue(h[0]) * 16 + HexValue(h[1])] + rest)
      case None => None
  }

  lemma DigitRoundTrip(n: nat)
    requires n < 16
    ensures HexValue(HexDigit(n)) == n && LowerHex(HexDigit(n)) == HexDigit(n)
  {
  }

  /** The sixteen digits, each at its place, and their capitals. */
  lemma DigitsAre(c: char, n: nat)
    requires n < 16
    ensures HexDigit(n) == "0123456789abcdef"[n]
    ensures HexValue(c) == n <==> c == "0123456789abcdef"[n] || c == "0123456789ABCDEF"[n]
  {
  }

  /** Two digits a byte, the high four bits first. */
  lemma {:induction false} HexAt(b: seq<byte>, i: nat)
    requires i < |b|
    ensures Hex(b)[2 * i] == "0123456789abcdef"[b[i] / 16] && Hex(b)[2 * i + 1] == "0123456789abcdef"[b[i] % 16]
  {
    if i == 0 {
      DigitsAre('0', b[0] / 16);
      DigitsAre('0', b[0] % 16);
    } else {
      HexAt(b[1..], i - 1);
      assert Hex(b)[2..] == Hex(b[1..]);
    }
  }

  lemma ValueRoundTrip(c: char)
    requires HexValue(c) >= 0
    ensures HexDigit(HexValue(c)) == LowerHex(c)
  {
  }

  lemma {:induction false} UnhexOfHex(b: seq<byte>)
    ensures Unhex(Hex(b)) == Some(b)
  {
    if b != [] {
      DigitRoundTrip(b[0] / 16);
      DigitRoundTrip(b[0] % 16);
      UnhexOfHex(b[1..]);
      assert Hex(b)[2..] == Hex(b[1..]);
      assert (b[0] as int / 16) * 16 + b[0] as int % 16 == b[0] as int;
      HeadTail(b);
    }
  }

  lemma DigitsApart(high: nat, low: nat)
    requires low < 16
    ensures (high * 16 + low) / 16 == high && (high * 16 + low) % 16 == low
  {
  }

  lemma {:induction false} HexOfUnhex(h: string)
    ensures Unhex(h).Some? ==> Hex(Unhex(h).value) == Lower(h)
  {
    hide HexValue, HexDigit, LowerHex;
    if Unhex(h).Some? && h != "" {
      ValueRoundTrip(h[0]);
      ValueRoundTrip(h[1]);
      HexOfUnhex(h[2..]);
      var b := Unhex(h).value;
      DigitsApart(HexValue(h[0]), HexValue(h[1]));
      assert b[1..] == Unhex(h[2..]).value;
      assert Lower(h) == [LowerHex(h[0]), LowerHex(h[1])] + Lower(h[2..]);
    }
  }

  /** The texts that stand for b are its hexadecimal text and that with capitals. */
  lemma {:induction false} UnhexIff(h: string, b: seq<byte>)
    ensures Unhex(h) == Some(b) <==> Lower(h) == Hex(b)
    decreases |h|
  {
    if Unhex(h) == Some(b) {
      HexOfUnhex(h);
    } else if Lower(h) == Hex(b) && h != "" {
      var x, r := b[0], b[1..];
      assert Lower(h) == [LowerHex(h[0]), LowerHex(h[1])] + Lower(h[2..]);
      assert Lower(h)[2..] == Hex(r);
      UnhexIff(h[2..], r);
      LowerIsDigit(h[0], x / 16);
      LowerIsDigit(h[1], x % 16);
      assert x as int / 16 * 16 + x as int % 16 == x as int;
      HeadTail(b);
      assert false;
    }
  }

  lemma LowerIsDigit(c: char, n: nat)
    requires n < 16 && LowerHex(c) == HexDigit(n)
    ensures HexValue(c) == n
  {
  }

  ghost predicate AllLowerHex(s: string) { forall c | c in s :: HexValue(c) >= 0 && LowerHex(c) == c }

  lemma {:induction false} HexIsLowerHex(b: seq<byte>)
    ensures AllLowerHex(Hex(b))
  {
    if b != [] {
      DigitRoundTrip(b[0] / 16);
      DigitRoundTrip(b[0] % 16);
      HexIsLowerHex(b[1..]);
    }
  }

  lemma {:induction false} LowerOfLower(s: string)
    requires AllLowerHex(s)
    ensures Lower(s) == s
  {
    if s != "" {
      assert s[0] in s && forall c | c in s[1..] :: c in s;
      LowerOfLower(s[1..]);
      HeadTail(s);
    }
  }
}
