/** Time-based UUIDs and their text form (internal/script/uuid.go; RFC 9562, section 5.1). */
module Uuid {
  import opened Bits
  import opened HexText
  import opened Numbers
  import opened Octets
  import opened Text
  import opened Wrappers

  // ---- The 8-4-4-4-12 form ----

  function Dashed(h: string): (s: string)
    requires |h| == 32
    ensures |s| == 36
  {
    h[0..8] + "-" + h[8..12] + "-" + h[12..16] + "-" + h[16..20] + "-" + h[20..32]
  }

  function Format(b: seq<byte>): string
    requires |b| == 16
  {
    Dashed(Hex(b))
  }

  function TrimPrefix(s: string, p: string): string { if p <= s then s[|p|..] else s }

  function TrimSuffix(s: string, p: string): string {
    if |p| <= |s| && s[|s| - |p|..] == p then s[..|s| - |p|] else s
  }

  /** White space, urn prefix and braces taken off. */
  function Stripped(s: string): string {
    var t := TrimPrefix(TrimPrefix(TrimSpace(s), "urn:uuid:"), "urn:UUID:");
    TrimPrefix(TrimSuffix(t, "}"), "{")
  }

  function Undashed(t: string): Option<string> {
    if |t| != 36 || t[8] != '-' || t[13] != '-' || t[18] != '-' || t[23] != '-' then None
    else Some(t[0..8] + t[9..13] + t[14..18] + t[19..23] + t[24..36])
  }

  function Parse(s: string): (b: Option<seq<byte>>)
    ensures b.Some? ==> |b.value| == 16
  {
    match Undashed(Stripped(s))
    case None => None
    case Some(h) => Unhex(h)
  }

  lemma UndashedOfDashed(h: string)
    requires |h| == 32
    ensures Undashed(Dashed(h)) == Some(h)
  {
    var t := Dashed(h);
    assert t[0..8] == h[0..8] && t[9..13] == h[8..12] && t[14..18] == h[12..16];
    assert t[19..23] == h[16..20] && t[24..36] == h[20..32];
    assert h == h[0..8] + h[8..12] + h[12..16] + h[16..20] + h[20..32];
  }

  lemma DashedOfUndashed(t: string)
    requires Undashed(t).Some?
    ensures Dashed(Undashed(t).value) == t
  {
    var h := Undashed(t).value;
    assert h[0..8] == t[0..8] && h[8..12] == t[9..13] && h[12..16] == t[14..18];
    assert h[16..20] == t[19..23] && h[20..32] == t[24..36];
    assert t == t[0..8] + [t[8]] + t[9..13] + [t[13]] + t[14..18] + [t[18]] + t[19..23] + [t[23]] + t[24..36];
  }

  lemma NothingToStrip(s: string)
    requires s != "" && !IsSpace(s[0]) && !IsSpace(s[|s| - 1])
    requires s[0] != 'u' && s[0] != '{' && s[|s| - 1] != '}'
    requires forall c | c in s :: c as int < 0x80
    ensures Stripped(s) == s
  {
    NothingToTrim(s);
    hide TrimSpace;
  }

  lemma DashedIsAscii(h: string)
    requires |h| == 32 && forall c | c in h :: c as int < 0x80
    ensures forall c | c in Dashed(h) :: c as int < 0x80
  {
    assert forall c | c in h[0..8] || c in h[8..12] || c in h[12..16] || c in h[16..20] || c in h[20..32] :: c in h;
  }

  /** parseUUID inverts formatUUID. */
  lemma ParseOfFormat(b: seq<byte>)
    requires |b| == 16
    ensures Parse(Format(b)) == Some(b)
  {
    var h := Hex(b);
    HexIsLowerHex(b);
    assert h[0] in h && h[31] in h;
    assert Format(b)[0] == h[0] && Format(b)[35] == h[31];
    DashedIsAscii(h);
    NothingToStrip(Format(b));
    UndashedOfDashed(h);
    UnhexOfHex(b);
  }

  /** Anything parseUUID accepts is some id's canonical text, up to case, once spaces, urn
      prefix and braces are off. */
  lemma FormatOfParse(s: string)
    requires Parse(s).Some?
    ensures Format(Parse(s).value) == Lower(Stripped(s))
  {
    var t := Stripped(s);
    var h := Undashed(t).value;
    hide Stripped;
    HexOfUnhex(h);
    DashedOfUndashed(t);
    LowerOfDashed(h);
  }

  /** Texts of b: exactly those that are its canonical text, capitals aside, once spaces,
      urn prefix and braces are off. */
  lemma ParsesIff(s: string, b: seq<byte>)
    requires |b| == 16
    ensures Parse(s) == Some(b) <==> Lower(Stripped(s)) == Format(b)
  {
    var t := Stripped(s);
    if Parse(s) == Some(b) {
      FormatOfParse(s);
    } else if Lower(t) == Format(b) {
      HexIsLowerHex(b);
      DashedFromLower(t, Hex(b));
      var h := Undashed(t).value;
      DashedOfUndashed(t);
      LowerOfDashed(h);
      UndashedOfDashed(Lower(h));
      UndashedOfDashed(Hex(b));
      UnhexIff(h, b);
      assert false;
    }
  }

  lemma DashedFromLower(t: string, h: string)
    requires |h| == 32 && Lower(t) == Dashed(h)
    ensures Undashed(t).Some?
  {
    var u := Dashed(h);
    assert u[8] == '-' && u[13] == '-' && u[18] == '-' && u[23] == '-';
    forall i | 0 <= i < 36 && u[i] == '-' ensures t[i] == '-' { assert LowerHex(t[i]) == u[i]; }
  }

  /** The i-th byte's place in the text, after two digits a byte and the dashes before it. */
  function PlaceOf(i: nat): nat {
    2 * i + (if i < 4 then 0 else if i < 6 then 1 else if i < 8 then 2 else if i < 10 then 3 else 4)
  }

  /** The canonical text character by character. */
  lemma FormatIs(b: seq<byte>, i: nat)
    requires |b| == 16 && i < 16
    ensures var t, p := Format(b), PlaceOf(i);
            && t[p] == "0123456789abcdef"[b[i] / 16] && t[p + 1] == "0123456789abcdef"[b[i] % 16]
            && t[8] == '-' && t[13] == '-' && t[18] == '-' && t[23] == '-'
  {
    HexAt(b, i);
    DashedAt(Hex(b), 2 * i);
    DashedAt(Hex(b), 2 * i + 1);
  }

  lemma DashedAt(h: string, k: nat)
    requires |h| == 32 && k < 32
    ensures Dashed(h)[PlaceOf(k / 2) + k % 2] == h[k]
    ensures Dashed(h)[8] == '-' && Dashed(h)[13] == '-' && Dashed(h)[18] == '-' && Dashed(h)[23] == '-'
  {
  }

  lemma CoreForms(b: seq<byte>, s: string)
    requires |b| == 16
    requires s == Format(b) || s == "{" + Format(b) + "}"
          || s == "urn:uuid:" + Format(b) || s == "urn:UUID:" + Format(b)
    ensures s != "" && !IsSpace(s[0]) && !IsSpace(s[|s| - 1]) && forall c | c in s :: c as int < 0x80
    ensures var t := TrimPrefix(TrimPrefix(s, "urn:uuid:"), "urn:UUID:");
            TrimPrefix(TrimSuffix(t, "}"), "{") == Format(b)
  {
    var h, f := Hex(b), Format(b);
    HexIsLowerHex(b);
    assert h[0] in h && h[31] in h;
    assert f[0] == h[0] && f[35] == h[31];
    DashedIsAscii(h);
    assert HexValue(f[0]) >= 0 && HexValue(f[35]) >= 0;
    hide Format, Hex, Dashed;
    CoreEnds(f, s);
    CoreIsBared(f, s);
  }

  lemma CoreEnds(f: string, s: string)
    requires |f| == 36 && HexValue(f[0]) >= 0 && HexValue(f[35]) >= 0 && forall c | c in f :: c as int < 0x80
    requires s == f || s == "{" + f + "}" || s == "urn:uuid:" + f || s == "urn:UUID:" + f
    ensures s != "" && !IsSpace(s[0]) && !IsSpace(s[|s| - 1]) && forall c | c in s :: c as int < 0x80
  {
  }

  lemma CoreIsBared(f: string, s: string)
    requires |f| == 36 && HexValue(f[0]) >= 0 && HexValue(f[35]) >= 0
    requires s == f || s == "{" + f + "}" || s == "urn:uuid:" + f || s == "urn:UUID:" + f
    ensures var t := TrimPrefix(TrimPrefix(s, "urn:uuid:"), "urn:UUID:");
            TrimPrefix(TrimSuffix(t, "}"), "{") == f
  {
    assert f[0] != '{' && f[0] != 'u' && f[35] != '}';
    hide HexValue, TrimPrefix;
    PrefixAbsent(f, "{");
    PrefixAbsent(f, "urn:uuid:");
    PrefixAbsent(f, "urn:UUID:");
    if s == "{" + f + "}" {
      var g := "{" + f;
      PrefixAbsent(s, "urn:uuid:");
      PrefixAbsent(s, "urn:UUID:");
      assert s[..37] == g && s[37..] == "}";
      PrefixGone("{", f);
    } else if s == "urn:UUID:" + f {
      OtherCase(f);
      PrefixGone("urn:UUID:", f);
    } else if s == "urn:uuid:" + f {
      PrefixGone("urn:uuid:", f);
    }
  }

  lemma PrefixAbsent(s: string, p: string)
    requires s != "" && p != "" && s[0] != p[0]
    ensures TrimPrefix(s, p) == s
  {
  }

  lemma PrefixGone(p: string, s: string)
    ensures TrimPrefix(p + s, p) == s
  {
  }

  lemma OtherCase(f: string)
    ensures TrimPrefix("urn:UUID:" + f, "urn:uuid:") == "urn:UUID:" + f
  {
    var s := "urn:UUID:" + f;
    assert s[4] == 'U' && "urn:uuid:"[4] == 'u';
  }

  /** The forms that are read: plain, in braces, and behind either urn prefix, with blanks
      around. */
  lemma FormsAreRead(b: seq<byte>, before: string, s: string, after: string)
    requires |b| == 16
    requires s == Format(b) || s == "{" + Format(b) + "}"
          || s == "urn:uuid:" + Format(b) || s == "urn:UUID:" + Format(b)
    requires forall c | c in before || c in after :: c in " \t\r\n"
    ensures Parse(before + s + after) == Some(b)
  {
    CoreForms(b, s);
    hide TrimSpace, IsSpace;
    BlanksComeOff(before, s, after);
    UndashedOfDashed(Hex(b));
    UnhexOfHex(b);
  }

  lemma LowerAppend(a: string, b: string)
    ensures Lower(a + b) == Lower(a) + Lower(b)
  {
  }

  lemma LowerSlice(h: string, i: nat, j: nat)
    requires i <= j <= |h|
    ensures Lower(h[i..j]) == Lower(h)[i..j]
  {
  }

  lemma LowerOfDashed(h: string)
    requires |h| == 32
    ensures Lower(Dashed(h)) == Dashed(Lower(h))
  {
    var a, b, c, d, e := h[0..8], h[8..12], h[12..16], h[16..20], h[20..32];
    assert Lower("-") == "-";
    LowerSlice(h, 0, 8);
    LowerSlice(h, 8, 12);
    LowerSlice(h, 12, 16);
    LowerSlice(h, 16, 20);
    LowerSlice(h, 20, 32);
    hide Lower;
    LowerAppend(a, "-");
    LowerAppend(a + "-", b);
    LowerAppend(a + "-" + b, "-");
    LowerAppend(a + "-" + b + "-", c);
    LowerAppend(a + "-" + b + "-" + c, "-");
    LowerAppend(a + "-" + b + "-" + c + "-", d);
    LowerAppend(a + "-" + b + "-" + c + "-" + d, "-");
    LowerAppend(a + "-" + b + "-" + c + "-" + d + "-", e);
  }

  // ---- Version 1 ----

  const TWO60 := 0x1000_0000_0000_0000

  /** The 16 bytes newV1 assembles. */
  function Pack(ts: nat, clockSeq: nat, node: seq<byte>): (id: seq<byte>)
    requires |node| == 6
    ensures |id| == 16
  {
    I2OSP(ts % 0x1_0000_0000, 4) + I2OSP(ts / 0x1_0000_0000 % 0x1_0000, 2)
    + I2OSP(ts / 0x1_0000_0000_0000 % 0x1000 + 0x1000, 2)
    + [0x80 + clockSeq / 256 % 64, clockSeq % 256] + node
  }

  /** The 60-bit timestamp an id carries. */
  function Timestamp(id: seq<byte>): int
    requires |id| == 16
  {
    OS2IP(id[0..4]) + OS2IP(id[4..6]) * 0x1_0000_0000 + (OS2IP(id[6..8]) - 0x1000) * 0x1_0000_0000_0000
  }

  lemma SmallPowers()
    ensures Pow(256, 2) == 0x1_0000 && Pow(256, 4) == 0x1_0000_0000
  {
  }

  lemma Digits60(ts: nat)
    ensures ts % 0x1_0000_0000 + ts / 0x1_0000_0000 % 0x1_0000 * 0x1_0000_0000
          + ts / 0x1_0000_0000_0000 % 0x1000 * 0x1_0000_0000_0000 == ts % TWO60
  {
    var a, r := ts / 0x1_0000_0000, ts % 0x1_0000_0000;
    var c, m := a / 0x1_0000, a % 0x1_0000;
    var d, h := c / 0x1000, c % 0x1000;
    assert c == ts / 0x1_0000_0000_0000;
    assert ts == d * TWO60 + (h * 0x1_0000_0000_0000 + m * 0x1_0000_0000 + r);
  }

  /** Packing keeps the low 60 bits of the timestamp, and marks version 1, variant 10. */
  lemma PackKeepsTimestamp(ts: nat, clockSeq: nat, node: seq<byte>)
    requires |node| == 6
    ensures var id := Pack(ts, clockSeq, node);
            Timestamp(id) == ts % TWO60 && id[6] / 16 == 1 && id[8] / 64 == 2
  {
    var lo, mid, hi := ts % 0x1_0000_0000, ts / 0x1_0000_0000 % 0x1_0000, ts / 0x1_0000_0000_0000 % 0x1000 + 0x1000;
    SmallPowers();
    OS2IPofI2OSP(lo, 4);
    OS2IPofI2OSP(mid, 2);
    OS2IPofI2OSP(hi, 2);
    Digits60(ts);
    assert I2OSP(hi / 256, 1) == [] + [hi / 256 % 256];
    hide I2OSP, OS2IP;
    var a, b, c := I2OSP(lo, 4), I2OSP(mid, 2), I2OSP(hi, 2);
    var id := Pack(ts, clockSeq, node);
    assert id[0..4] == a && id[4..6] == b && id[6..8] == c;
    VersionDigit(hi);
    assert id[6] == c[0];
  }

  /** What an id says: timestamp, clock sequence and node, as version 1, variant 10. */
  ghost predicate Says(id: seq<byte>, ts: nat, clockSeq: nat, node: seq<byte>)
    requires |id| == 16
  {
    && Timestamp(id) == ts % 0x1000_0000_0000_0000 && id[6] / 16 == 1 && id[8] / 64 == 2
    && (id[8] as int - 0x80) * 256 + id[9] as int == clockSeq && id[10..] == node
  }

  lemma PackSays(ts: nat, clockSeq: nat, node: seq<byte>)
    requires |node| == 6 && clockSeq < 0x4000
    ensures Says(Pack(ts, clockSeq, node), ts, clockSeq, node)
  {
    hide I2OSP, OS2IP, Timestamp;
    PackKeepsTimestamp(ts, clockSeq, node);
  }

  lemma VersionDigit(hi: nat)
    requires 0x1000 <= hi < 0x2000
    ensures I2OSP(hi, 2)[0] / 16 == 1
  {
    assert I2OSP(hi, 2) == I2OSP(hi / 256, 1) + [hi % 256];
    assert I2OSP(hi / 256, 1) == [] + [hi / 256 % 256];
  }

  /** The process-wide generator. */
  class Generator {
    var lastTS: nat
    var clockSeq: nat
    const node: seq<byte>

    constructor (node: seq<byte>, clockSeq: nat)
      requires |node| == 6 && clockSeq < 0x4000
      ensures Valid() && this.node == node && this.clockSeq == clockSeq && lastTS == 0
    {
      this.node, this.clockSeq, lastTS := node, clockSeq, 0;
    }

    ghost predicate Valid() reads this { |node| == 6 && clockSeq < 0x4000 }

    /** newV1 for a clock reading in 100 ns ticks since the UUID epoch. A reading that is not
        later than the last timestamp is replaced by the one after that. */
    method NewV1(reading: nat) returns (id: string)
      requires Valid()
      modifies this
      ensures Valid() && Parse(id).Some? && Says(Parse(id).value, lastTS, clockSeq, node)
      ensures reading > old(lastTS) ==> lastTS == reading && clockSeq == old(clockSeq)
      ensures reading <= old(lastTS) ==>
                lastTS == old(lastTS) + 1 && clockSeq == if old(clockSeq) == 0x3FFF then 0 else old(clockSeq) + 1
      ensures lastTS == NextTS(old(lastTS), reading) && clockSeq == NextSeq(old(lastTS), old(clockSeq), reading)
      ensures id == Format(Pack(lastTS, clockSeq, node))
    {
      hide Format, Pack, Parse, Says;
      var ts := reading;
      if ts <= lastTS {
        ts := lastTS + 1;
        clockSeq := (clockSeq + 1) % 0x4000;
      }
      lastTS := ts;
      id := Format(Pack(ts, clockSeq, node));
      ParseOfFormat(Pack(ts, clockSeq, node));
      PackSays(ts, clockSeq, node);
    }
  }

  function NextTS(last: nat, reading: nat): nat { if reading <= last then last + 1 else reading }

  function NextSeq(last: nat, seqNo: nat, reading: nat): nat {
    if reading <= last then (seqNo + 1) % 0x4000 else seqNo
  }

  /** Timestamp and clock sequence after a run of readings. */
  function StateAfter(seqNo: nat, readings: seq<nat>): (nat, nat) {
    if readings == [] then (0, seqNo)
    else
      var (ts, s) := StateAfter(seqNo, readings[..|readings| - 1]);
      (NextTS(ts, readings[|readings| - 1]), NextSeq(ts, s, readings[|readings| - 1]))
  }

  /** The i-th id of a process. */
  function IdAt(seqNo: nat, node: seq<byte>, readings: seq<nat>, i: nat): string
    requires |node| == 6 && i < |readings|
  {
    var (ts, s) := StateAfter(seqNo, readings[..i + 1]);
    Format(Pack(ts, s, node))
  }

  /** Whatever the clock does, timestamps strictly increase. */
  lemma {:induction false} TimestampsIncrease(seqNo: nat, readings: seq<nat>, i: nat, j: nat)
    requires i < j <= |readings|
    ensures StateAfter(seqNo, readings[..i]).0 < StateAfter(seqNo, readings[..j]).0
    decreases j
  {
    assert readings[..j][..j - 1] == readings[..j - 1];
    if i < j - 1 { TimestampsIncrease(seqNo, readings, i, j - 1); }
  }

  /** No two ids of a process are equal while the timestamp stays below 2^60. */
  lemma IdsNeverRepeat(seqNo: nat, node: seq<byte>, readings: seq<nat>, i: nat, j: nat)
    requires |node| == 6 && i < j < |readings|
    requires StateAfter(seqNo, readings[..j + 1]).0 < TWO60
    ensures IdAt(seqNo, node, readings, i) != IdAt(seqNo, node, readings, j)
  {
    TimestampsIncrease(seqNo, readings, i + 1, j + 1);
    var a, b := StateAfter(seqNo, readings[..i + 1]), StateAfter(seqNo, readings[..j + 1]);
    hide StateAfter, Format, Pack;
    TimestampsTellIdsApart(a.0, a.1, b.0, b.1, node);
  }

  lemma FormatIsInjective(a: seq<byte>, b: seq<byte>)
    requires |a| == 16 && |b| == 16 && Format(a) == Format(b)
    ensures a == b
  {
    hide Format, Parse;
    ParseOfFormat(a);
    ParseOfFormat(b);
  }

  lemma TimestampsTellIdsApart(t: nat, s: nat, t': nat, s': nat, node: seq<byte>)
    requires |node| == 6 && t < t' < TWO60
    ensures Format(Pack(t, s, node)) != Format(Pack(t', s', node))
  {
    hide Format, Pack, Timestamp;
    PackKeepsTimestamp(t, s, node);
    PackKeepsTimestamp(t', s', node);
    if Format(Pack(t, s, node)) == Format(Pack(t', s', node)) {
      FormatIsInjective(Pack(t, s, node), Pack(t', s', node));
    }
  }
}
