/** Optional values. */
module Wrappers {
  datatype Option<+T> = None | Some(value: T)
}

/** Rearranging concatenations, stated once so that proofs can name the step. */
module Seqs {
  lemma Assoc<T>(a: seq<T>, b: seq<T>, c: seq<T>)
    ensures a + (b + c) == (a + b) + c
  {
  }

  lemma HeadTail<T>(s: seq<T>)
    requires s != []
    ensures s == [s[0]] + s[1..]
  {
  }

  lemma PrefixAndRest<T>(p: seq<T>, s: seq<T>)
    requires p <= s
    ensures s == p + s[|p|..]
  {
  }

  lemma TakeNext<T>(s: seq<T>, i: nat)
    requires i < |s|
    ensures s[..i + 1] == s[..i] + [s[i]]
  {
  }

  lemma DropTake<T>(s: seq<T>, at: nat, n: nat)
    requires at + n <= |s|
    ensures s[at..][..n] == s[at..at + n] && s[at..][n..] == s[at + n..]
  {
  }
}

/** strings.TrimSpace. A char stands for one byte, so white space beyond ASCII is the UTF-8
    form of U+0085, U+00A0, U+1680, U+2000 to U+200A, U+2028, U+2029, U+202F, U+205F, U+3000. */
module Text {
  predicate IsSpace(c: char) { c == ' ' || '\t' <= c <= '\r' }

  /** The bytes of one white-space character. */
  predicate IsSpaceRune(b: string) {
    || (|b| == 1 && IsSpace(b[0]))
    || (|b| == 2 && b[0] as int == 0xC2 && (b[1] as int == 0x85 || b[1] as int == 0xA0))
    || (|b| == 3 && b[0] as int == 0xE1 && b[1] as int == 0x9A && b[2] as int == 0x80)
    || (|b| == 3 && b[0] as int == 0xE2 && b[1] as int == 0x80
        && (0x80 <= b[2] as int <= 0x8A || 0xA8 <= b[2] as int <= 0xA9 || b[2] as int == 0xAF))
    || (|b| == 3 && b[0] as int == 0xE2 && b[1] as int == 0x81 && b[2] as int == 0x9F)
    || (|b| == 3 && b[0] as int == 0xE3 && b[1] as int == 0x80 && b[2] as int == 0x80)
  }

  /** The length of the white-space character s starts with, 0 if it does not. */
  function SpaceAtStart(s: string): (n: nat)
    ensures n <= |s|
  {
    if |s| >= 1 && IsSpaceRune(s[..1]) then 1
    else if |s| >= 2 && IsSpaceRune(s[..2]) then 2
    else if |s| >= 3 && IsSpaceRune(s[..3]) then 3
    else 0
  }

  function SpaceAtEnd(s: string): (n: nat)
    ensures n <= |s|
  {
    if |s| >= 1 && IsSpaceRune(s[|s| - 1..]) then 1
    else if |s| >= 2 && IsSpaceRune(s[|s| - 2..]) then 2
    else if |s| >= 3 && IsSpaceRune(s[|s| - 3..]) then 3
    else 0
  }

  function TrimSpace(s: string): string {
    if SpaceAtStart(s) > 0 then TrimSpace(s[SpaceAtStart(s)..])
    else if SpaceAtEnd(s) > 0 then TrimSpace(s[..|s| - SpaceAtEnd(s)])
    else s
  }

  /** The code points of white space. */
  predicate IsWhite(cp: nat) {
    || cp in {9, 10, 11, 12, 13, 32, 0x85, 0xA0, 0x1680, 0x2028, 0x2029, 0x202F, 0x205F, 0x3000}
    || 0x2000 <= cp <= 0x200A
  }

  function Utf8(cp: nat): string
    requires cp < 0xD800
  {
    if cp < 0x80 then [cp as char]
    else if cp < 0x800 then [(0xC0 + cp / 64) as char, (0x80 + cp % 64) as char]
    else [(0xE0 + cp / 4096) as char, (0x80 + cp / 64 % 64) as char, (0x80 + cp % 64) as char]
  }

  lemma WhiteIsSpaceRune(cp: nat)
    requires IsWhite(cp)
    ensures IsSpaceRune(Utf8(cp))
  {
  }

  lemma SpaceRuneIsWhite(b: string) returns (cp: nat)
    requires IsSpaceRune(b)
    ensures IsWhite(cp) && b == Utf8(cp)
  {
    cp := match |b|
      case 1 => b[0] as int
      case 2 => (b[0] as int - 0xC0) * 64 + (b[1] as int - 0x80)
      case _ => (b[0] as int - 0xE0) * 4096 + (b[1] as int - 0x80) * 64 + (b[2] as int - 0x80);
  }

  /** White-space characters one after another. */
  ghost predicate Spaces(s: string) {
    s == "" || exists n: nat :: 0 < n <= |s| && IsSpaceRune(s[..n]) && Spaces(s[n..])
  }

  lemma {:induction false} SpacesSnoc(s: string, b: string)
    requires Spaces(s) && IsSpaceRune(b)
    ensures Spaces(s + b)
    decreases |s|
  {
    hide IsSpaceRune;
    if s == "" {
      assert s + b == b && b[..|b|] == b && b[|b|..] == "" && Spaces("");
      RuneIsNotEmpty(b);
    } else {
      var n: nat :| 0 < n <= |s| && IsSpaceRune(s[..n]) && Spaces(s[n..]);
      assert (s + b)[..n] == s[..n] && (s + b)[n..] == s[n..] + b;
      SpacesSnoc(s[n..], b);
    }
  }

  lemma RuneIsNotEmpty(b: string)
    requires IsSpaceRune(b)
    ensures 1 <= |b| <= 3
  {
  }

  /** t is s less white space on either side, and has none left at its ends. */
  ghost predicate Trimmed(s: string, a: string, t: string, b: string) {
    && s == a + t + b && Spaces(a) && Spaces(b)
    && forall n | 0 <= n <= |t| :: !IsSpaceRune(t[..n]) && !IsSpaceRune(t[n..])
  }

  lemma TrimmedMoreBefore(s: string, i: nat, a: string, t: string, b: string)
    requires 0 < i <= |s| && IsSpaceRune(s[..i]) && Trimmed(s[i..], a, t, b)
    ensures Trimmed(s, s[..i] + a, t, b)
  {
    hide IsSpaceRune;
    var p := s[..i];
    assert (p + a)[..i] == p && (p + a)[i..] == a;
    assert s == p + (a + t + b) == (p + a) + t + b;
  }

  lemma TrimmedMoreAfter(s: string, k: nat, a: string, t: string, b: string)
    requires k < |s| && IsSpaceRune(s[k..]) && Trimmed(s[..k], a, t, b)
    ensures Trimmed(s, a, t, b + s[k..])
  {
    hide IsSpaceRune, Spaces;
    SpacesSnoc(b, s[k..]);
    assert s == (a + t + b) + s[k..] == a + t + (b + s[k..]);
  }

  lemma NothingTrimmed(s: string)
    requires SpaceAtStart(s) == 0 && SpaceAtEnd(s) == 0
    ensures Trimmed(s, "", s, "")
  {
    hide IsSpaceRune, SpaceAtStart, SpaceAtEnd;
    NoRuneAtEnds(s);
    assert s == "" + s + "";
  }

  lemma {:induction false} TrimSpaceIs(s: string) returns (a: string, b: string)
    ensures Trimmed(s, a, TrimSpace(s), b)
    decreases |s|
  {
    hide IsSpaceRune, Trimmed;
    var i, j := SpaceAtStart(s), SpaceAtEnd(s);
    if i > 0 {
      a, b := TrimSpaceIs(s[i..]);
      TrimmedMoreBefore(s, i, a, TrimSpace(s), b);
      a := s[..i] + a;
    } else if j > 0 {
      var k := |s| - j;
      a, b := TrimSpaceIs(s[..k]);
      TrimmedMoreAfter(s, k, a, TrimSpace(s), b);
      b := b + s[k..];
    } else {
      a, b := "", "";
      NothingTrimmed(s);
    }
  }

  lemma NoRuneAtEnds(s: string)
    requires SpaceAtStart(s) == 0 && SpaceAtEnd(s) == 0
    ensures forall n | 0 <= n <= |s| :: !IsSpaceRune(s[..n]) && !IsSpaceRune(s[n..])
  {
    hide IsSpaceRune;
    forall n | 0 <= n <= |s| ensures !IsSpaceRune(s[..n]) && !IsSpaceRune(s[n..]) {
      if IsSpaceRune(s[..n]) { RuneIsNotEmpty(s[..n]); }
      if IsSpaceRune(s[n..]) { RuneIsNotEmpty(s[n..]); }
    }
  }

  /** ASCII blanks around a text without any at its ends come off. */
  lemma {:induction false} BlanksComeOff(a: string, s: string, b: string)
    requires s != "" && !IsSpace(s[0]) && !IsSpace(s[|s| - 1])
    requires forall c | c in s :: c as int < 0x80
    requires forall c | c in a || c in b :: c in " \t\r\n"
    ensures TrimSpace(a + s + b) == s
    decreases |a| + |b|
  {
    hide IsSpaceRune, IsSpace;
    var t := a + s + b;
    if a != "" {
      assert t[0] == a[0] && a[0] in a && t[..1] == [a[0]] && t[1..] == a[1..] + s + b;
      BlankIsRune(a[0]);
      BlanksComeOff(a[1..], s, b);
    } else if b != "" {
      var c, init := b[|b| - 1], b[..|b| - 1];
      assert c in b && t[|t| - 1..] == [c] && t[..|t| - 1] == a + s + init;
      BlankIsRune(c);
      assert t == s + b && s[0] in s;
      NoSpaceAhead(s, b);
      assert SpaceAtEnd(t) == 1;
      BlanksComeOff(a, s, init);
    } else {
      assert t == s;
      NothingToTrim(s);
    }
  }

  lemma BlankIsRune(c: char)
    requires c in " \t\r\n"
    ensures IsSpaceRune([c])
  {
  }

  lemma NoSpaceAhead(s: string, b: string)
    requires s != "" && !IsSpace(s[0]) && s[0] as int < 0x80
    ensures SpaceAtStart(s + b) == 0
  {
    hide IsSpaceRune, IsSpace;
    var t := s + b;
    forall k | 1 <= k <= |t| && k <= 3 ensures !IsSpaceRune(t[..k]) {
      assert t[..k][0] == s[0];
      AsciiIsSpaceIff(t[..k]);
    }
  }

  lemma AsciiIsSpaceIff(b: string)
    requires b != "" && b[0] as int < 0x80
    ensures IsSpaceRune(b) <==> |b| == 1 && IsSpace(b[0])
  {
  }

  lemma {:induction false} NoSpaceAtEnds(s: string)
    requires s != "" && !IsSpace(s[0]) && !IsSpace(s[|s| - 1])
    requires forall c | c in s :: c as int < 0x80
    ensures SpaceAtStart(s) == 0 && SpaceAtEnd(s) == 0
  {
    hide IsSpaceRune, IsSpace;
    var n := |s|;
    forall k | 1 <= k <= n && k <= 3 ensures !IsSpaceRune(s[..k]) && !IsSpaceRune(s[n - k..]) {
      assert s[0] in s && s[n - k] in s;
      assert s[..k][0] == s[0] && s[n - k..][0] == s[n - k];
      AsciiIsSpaceIff(s[..k]);
      AsciiIsSpaceIff(s[n - k..]);
    }
  }

  lemma {:induction false} NothingToTrim(s: string)
    requires s != "" && !IsSpace(s[0]) && !IsSpace(s[|s| - 1])
    requires forall c | c in s :: c as int < 0x80
    ensures TrimSpace(s) == s
  {
    NoSpaceAtEnds(s);
    hide SpaceAtStart, SpaceAtEnd;
  }
}
