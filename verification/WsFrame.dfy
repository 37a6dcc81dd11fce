/** WebSocket frames (internal/executor/wsframe.go; RFC 6455, section 5.2). */
module WsFrame {
  import opened Bits
  import opened Numbers
  import opened Octets
  import opened Seqs

  const MAX_FRAME := 0x10_0000

  datatype Frame = Frame(fin: bool, opcode: nat, payload: seq<byte>)

  datatype Masking = Plain | Key(key: seq<byte>)

  predicate Valid(m: Masking) {
    m.Key? ==> |m.key| == 4
  }

  // ---- The wire form of section 5.2 ----

  /** Section 5.3: octet i is combined with octet i mod 4 of the key. */
  function ApplyKey(key: seq<byte>, p: seq<byte>): (r: seq<byte>)
    requires |key| == 4
    ensures |r| == |p|
  {
    seq(|p|, i requires 0 <= i < |p| => XorByte(p[i], key[i % 4]))
  }

  function Payload(m: Masking, p: seq<byte>): (r: seq<byte>)
    requires Valid(m)
    ensures |r| == |p|
  {
    if m.Key? then ApplyKey(m.key, p) else p
  }

  function KeyBytes(m: Masking): (r: seq<byte>)
    requires Valid(m)
    ensures |r| == if m.Key? then 4 else 0
  {
    if m.Key? then m.key else []
  }

  function LengthCode(len: nat): (c: nat)
    ensures c < 128
  {
    if len < 126 then len else if len < 0x1_0000 then 126 else 127
  }

  function ExtendedBytes(code: nat): nat {
    if code == 126 then 2 else if code == 127 then 8 else 0
  }

  function Start(f: Frame, m: Masking): (b: seq<byte>)
    requires f.opcode < 16
    ensures |b| == 2
  {
    [(if f.fin then 0x80 else 0) + f.opcode, (if m.Key? then 0x80 else 0) + LengthCode(|f.payload|)]
  }

  function Extended(len: nat): seq<byte> {
    I2OSP(len, ExtendedBytes(LengthCode(len)))
  }

  function Header(f: Frame, m: Masking): seq<byte>
    requires Valid(m) && f.opcode < 16
  {
    Start(f, m) + Extended(|f.payload|) + KeyBytes(m)
  }

  function Encode(f: Frame, m: Masking): seq<byte>
    requires Valid(m) && f.opcode < 16
  {
    Header(f, m) + Payload(m, f.payload)
  }

  // ---- What readFrame makes of a byte stream ----

  datatype Read = Got(frame: Frame) | Short | TooBig | NegativeLength

  /** The int64 that holds a 64-bit unsigned value. */
  function Signed64(x: nat): int {
    if x < 0x8000_0000_0000_0000 then x else x - 0x1_0000_0000_0000_0000
  }

  function DeclaredLength(s: seq<byte>): int
    requires |s| >= 2 && |s| >= 2 + ExtendedBytes(s[1] % 128)
  {
    var code := s[1] % 128;
    var ext := ExtendedBytes(code);
    if ext == 0 then code else if ext == 2 then OS2IP(s[2..4]) else Signed64(OS2IP(s[2..10]))
  }

  function Unmask(s: seq<byte>, at: nat, len: nat): seq<byte>
    requires |s| >= 2 && 4 <= at && at + len <= |s|
  {
    ApplyKey(s[at - 4..at], s[at..at + len])
  }

  /** The outcome and the bytes left unread. */
  function Parse(s: seq<byte>): (r: (Read, seq<byte>))
    ensures r.0.Got? ==> |r.1| < |s| && |r.0.frame.payload| <= 0x10_0000 && r.0.frame.opcode < 16
  {
    if |s| < 2 then (Short, [])
    else
      var ext := ExtendedBytes(s[1] % 128);
      if |s| < 2 + ext then (Short, [])
      else ParseBody(s, 2 + ext, DeclaredLength(s))
  }

  /** The same from the end of the length field on. */
  function ParseBody(s: seq<byte>, from: nat, len: int): (r: (Read, seq<byte>))
    requires 2 <= from <= |s|
    ensures r.0.Got? ==> |r.1| < |s| && |r.0.frame.payload| <= 0x10_0000 && r.0.frame.opcode < 16
  {
    var masked := s[1] >= 128;
    var at := from + (if masked then 4 else 0);
    if len > MAX_FRAME then (TooBig, s[from..])
    else if |s| < at then (Short, [])
    else if len < 0 then (NegativeLength, s[at..])
    else if |s| < at + len then (Short, [])
    else
      var p := if masked then Unmask(s, at, len) else s[at..at + len];
      (Got(Frame(s[0] >= 128, s[0] % 16, p)), s[at + len..])
  }

  // ---- Round trip ----

  lemma ApplyKeyTwice(key: seq<byte>, p: seq<byte>)
    requires |key| == 4
    ensures ApplyKey(key, ApplyKey(key, p)) == p
  {
    forall i | 0 <= i < |p| ensures ApplyKey(key, ApplyKey(key, p))[i] == p[i] {
      XorByteTwice(p[i], key[i % 4]);
    }
  }

  lemma PowersOf256()
    ensures Pow(256, 2) == 0x1_0000 && Pow(256, 8) == 0x1_0000_0000_0000_0000
  {
    assert Pow(256, 4) == 0x1_0000_0000;
  }

  lemma LengthRoundTrip(len: nat)
    requires len <= MAX_FRAME
    ensures var ext := ExtendedBytes(LengthCode(len));
            ext == 0 || OS2IP(Extended(len)) == len
  {
    PowersOf256();
    var ext := ExtendedBytes(LengthCode(len));
    if ext != 0 { OS2IPofI2OSP(len, ext); }
  }

  /** Where the parts of an encoded frame lie in a stream that starts with it. */
  lemma Layout(f: Frame, m: Masking, s: seq<byte>)
    requires Valid(m) && f.opcode < 16 && |f.payload| <= MAX_FRAME
    requires Encode(f, m) <= s
    ensures var ext := ExtendedBytes(LengthCode(|f.payload|));
            var at := 2 + ext + |KeyBytes(m)|;
            && |Encode(f, m)| == at + |f.payload| <= |s|
            && s[..2] == Start(f, m) && s[2..2 + ext] == Extended(|f.payload|)
            && s[2 + ext..at] == KeyBytes(m) && s[at..at + |f.payload|] == Payload(m, f.payload)
  {
    hide Start, I2OSP, ApplyKey;
    var a, b, c, d := Start(f, m), Extended(|f.payload|), KeyBytes(m), Payload(m, f.payload);
    var e := a + b + c + d;
    assert Encode(f, m) == e;
    Slices(a, b, c, d, s);
  }

  lemma Slices(a: seq<byte>, b: seq<byte>, c: seq<byte>, d: seq<byte>, s: seq<byte>)
    requires a + b + c + d <= s
    ensures s[..|a|] == a && s[|a|..|a| + |b|] == b
    ensures s[|a| + |b|..|a| + |b| + |c|] == c
    ensures s[|a| + |b| + |c|..|a| + |b| + |c| + |d|] == d
  {
    var e := a + b + c + d;
    assert e == s[..|e|];
    assert e[..|a|] == a && e[|a|..|a| + |b|] == b;
    assert e[|a| + |b|..|a| + |b| + |c|] == c;
    assert e[|a| + |b| + |c|..] == d;
  }

  lemma StartBits(f: Frame, m: Masking)
    requires f.opcode < 16
    ensures var b := Start(f, m);
            && (b[0] >= 128 <==> f.fin) && b[0] % 16 == f.opcode
            && (b[1] >= 128 <==> m.Key?) && b[1] % 128 == LengthCode(|f.payload|)
  {
  }

  lemma DeclaredLengthIs(f: Frame, m: Masking, s: seq<byte>)
    requires Valid(m) && f.opcode < 16 && |f.payload| <= MAX_FRAME
    requires Encode(f, m) <= s
    ensures |s| >= 2 && |s| >= 2 + ExtendedBytes(s[1] % 128) && DeclaredLength(s) == |f.payload|
  {
    Layout(f, m, s);
    StartBits(f, m);
    assert s[..2][1] == s[1];
    hide Start, Encode, I2OSP, OS2IP, KeyBytes, Payload;
    LengthRoundTrip(|f.payload|);
  }

  /** A frame followed by anything reads back as that frame and leaves exactly the rest. */
  lemma ParseOfEncode(f: Frame, m: Masking, rest: seq<byte>)
    requires Valid(m) && f.opcode < 16 && |f.payload| <= MAX_FRAME
    ensures Parse(Encode(f, m) + rest) == (Got(f), rest)
  {
    var s := Encode(f, m) + rest;
    var at := 2 + ExtendedBytes(LengthCode(|f.payload|)) + |KeyBytes(m)|;
    assert Encode(f, m) <= s;
    Layout(f, m, s);
    DeclaredLengthIs(f, m, s);
    StartBits(f, m);
    assert s[..2][0] == s[0] && s[..2][1] == s[1];
    assert s[at + |f.payload|..] == rest;
    if m.Key? { ApplyKeyTwice(m.key, f.payload); }
    hide Start, Encode, DeclaredLength, ApplyKey;
  }

  lemma DeclaredLengthOfPrefix(s: seq<byte>, n: nat)
    requires 2 <= n <= |s| && n >= 2 + ExtendedBytes(s[1] % 128)
    ensures s[..n][1] == s[1] && DeclaredLength(s[..n]) == DeclaredLength(s)
  {
    var p, ext := s[..n], ExtendedBytes(s[1] % 128);
    assert p[1] == s[1] && p[2..2 + ext] == s[2..2 + ext];
  }

  /** A frame that has not fully arrived is not read as anything else. */
  lemma ParseOfPrefix(f: Frame, m: Masking, n: nat)
    requires Valid(m) && f.opcode < 16 && |f.payload| <= MAX_FRAME
    requires n < |Encode(f, m)|
    ensures Parse(Encode(f, m)[..n]) == (Short, [])
  {
    hide Start, Encode, DeclaredLength, Extended, Payload, KeyBytes;
    var e := Encode(f, m);
    Layout(f, m, e);
    DeclaredLengthIs(f, m, e);
    StartBits(f, m);
    assert e[..2][1] == e[1];
    if n >= 2 + ExtendedBytes(e[1] % 128) { DeclaredLengthOfPrefix(e, n); }
  }

  // ---- The wire form, written out ----

  /** Every octet of a frame in each of the three length forms. */
  lemma WireForm(f: Frame, m: Masking)
    requires Valid(m) && f.opcode < 16 && |f.payload| <= 0x10_0000
    ensures var n, key := |f.payload|, if m.Key? then m.key else [];
            var b0, mask := (if f.fin then 128 else 0) + f.opcode, if m.Key? then 128 else 0;
            var head := if n < 126 then [b0, mask + n]
                        else if n < 65536 then [b0, mask + 126, n / 256, n % 256]
                        else [b0, mask + 127, 0, 0, 0, 0, 0, n / 65536, n / 256 % 256, n % 256];
            && Encode(f, m) == head + key + Payload(m, f.payload)
            && forall j | 0 <= j < n ::
                 Payload(m, f.payload)[j]
                 == if m.Key? then XorByte(f.payload[j], m.key[j % 4]) else f.payload[j]
  {
    var n := |f.payload|;
    var b0 := (if f.fin then 128 else 0) + f.opcode;
    hide I2OSP, XorByte;
    if n < 126 {
      NoDigits(n);
      assert Start(f, m) + [] == Start(f, m);
    } else if n < 65536 {
      TwoDigits(n);
    } else {
      EightDigits(n);
    }
  }

  lemma NoDigits(n: nat)
    ensures I2OSP(n, 0) == []
  {
  }

  lemma TwoDigits(n: nat)
    requires n < 0x1_0000
    ensures I2OSP(n, 2) == [n / 256, n % 256]
  {
    assert I2OSP(n / 256, 1) == [] + [n / 256 % 256];
  }

  lemma EightDigits(n: nat)
    requires n <= 0x10_0000
    ensures I2OSP(n, 8) == [0, 0, 0, 0, 0, n / 65536, n / 256 % 256, n % 256]
  {
    var a, b := n / 256, n / 256 / 256;
    assert b == n / 0x1_0000 && b < 256;
    NoMoreDigits(5);
    NextDigit(n, 7);
    NextDigit(a, 6);
    NextDigit(b, 5);
    hide I2OSP;
    assert Zeros(5) == [0, 0, 0, 0, 0];
  }

  lemma {:induction false} NoMoreDigits(k: nat)
    ensures I2OSP(0, k) == Zeros(k)
  {
    if k > 0 { NoMoreDigits(k - 1); }
  }

  lemma NextDigit(x: nat, k: nat)
    ensures I2OSP(x, k + 1) == I2OSP(x / 256, k) + [x % 256]
  {
  }

  /** A 64-bit length above 2^20 is refused before anything of the frame is read; one with
      its top bit set is negative to the reader, which finds out after the masking key. */
  lemma LongLengthsAreRefused(b0: byte, masked: bool, n: nat, rest: seq<byte>)
    requires 0x10_0000 < n < 0x1_0000_0000_0000_0000
    ensures var s := [b0, if masked then 255 else 127] + I2OSP(n, 8) + rest;
            if n < 0x8000_0000_0000_0000 then Parse(s) == (TooBig, rest)
            else if masked && |rest| < 4 then Parse(s) == (Short, [])
            else Parse(s) == (NegativeLength, if masked then rest[4..] else rest)
  {
    var b1: byte := if masked then 255 else 127;
    var s := [b0, b1] + I2OSP(n, 8) + rest;
    PowersOf256();
    OS2IPofI2OSP(n, 8);
    hide I2OSP, OS2IP;
    assert s[1] == b1 && s[2..10] == I2OSP(n, 8) && s[10..] == rest;
    if masked && |rest| >= 4 { assert s[14..] == rest[4..]; }
    assert DeclaredLength(s) == Signed64(n);
  }

  // ---- The connection ----

  /** reader holds the bytes the peer will have sent, wire those written to it. */
  class Conn {
    var reader: seq<byte>
    var wire: seq<byte>

    constructor (incoming: seq<byte>)
      ensures reader == incoming && wire == []
    {
      reader, wire := incoming, [];
    }

    /** io.ReadFull: all n bytes or an error, after which nothing is left. */
    method ReadFull(n: nat) returns (ok: bool, b: seq<byte>)
      modifies this`reader
      ensures ok == (n <= |old(reader)|)
      ensures ok ==> b == old(reader)[..n] && reader == old(reader)[n..]
      ensures !ok ==> reader == []
    {
      ok, b := n <= |reader|, [];
      if ok {
        b, reader := reader[..n], reader[n..];
      } else {
        reader := [];
      }
    }

    method ReadLength(code: nat) returns (ok: bool, length: int)
      requires code < 128
      modifies this`reader
      ensures ok == (|old(reader)| >= ExtendedBytes(code))
      ensures ok ==> reader == old(reader)[ExtendedBytes(code)..]
      ensures ok && code < 126 ==> length == code
      ensures ok && code == 126 ==> length == OS2IP(old(reader)[..2])
      ensures ok && code == 127 ==> length == Signed64(OS2IP(old(reader)[..8]))
      ensures !ok ==> reader == []
    {
      ok, length := true, code;
      if code >= 126 {
        var ext;
        ok, ext := ReadFull(ExtendedBytes(code));
        if ok {
          var acc: nat := 0;
          for i := 0 to |ext|
            invariant acc == OS2IP(ext[..i])
          {
            assert ext[..i + 1][..i] == ext[..i];
            acc := acc * 256 + ext[i];
          }
          assert ext[..|ext|] == ext;
          length := if code == 126 then acc else Signed64(acc);
        }
      }
    }

    method ReadFrame() returns (r: Read)
      modifies this`reader
      ensures (r, reader) == Parse(old(reader))
    {
      hide OS2IP, Signed64, ParseBody;
      ghost var s := reader;
      var ok, hdr := ReadFull(2);
      if !ok { return Short; }
      var code, length := hdr[1] % 128, 0;
      ok, length := ReadLength(code);
      if !ok { return Short; }
      ghost var ext := ExtendedBytes(code);
      DropTake(s, 2, ext);
      assert length == DeclaredLength(s);
      r := ReadBody(hdr, length, s, 2 + ext);
    }

    /** readFrame, once the length is known. */
    method ReadBody(hdr: seq<byte>, length: int, ghost s: seq<byte>, ghost from: nat) returns (r: Read)
      requires 2 <= from <= |s| && hdr == s[..2] && reader == s[from..]
      modifies this`reader
      ensures (r, reader) == ParseBody(s, from, length)
    {
      hide ApplyKey;
      if length > MAX_FRAME { return TooBig; }
      var ok, fin, opcode, masked := true, hdr[0] >= 128, hdr[0] % 16, hdr[1] >= 128;
      ghost var at := from + (if masked then 4 else 0);
      var key := [0, 0, 0, 0];
      if masked {
        ok, key := ReadFull(4);
        if !ok { return Short; }
        DropTake(s, at - 4, 4);
      }
      assert reader == s[at..];
      if length < 0 { return NegativeLength; }
      var payload;
      ok, payload := ReadFull(length);
      if !ok { return Short; }
      DropTake(s, at, length);
      if masked { payload := Unmasked(key, payload); }
      r := Got(Frame(fin, opcode, payload));
    }

    /** writeFrame: refuses an oversized payload, otherwise appends one final frame. */
    method WriteFrame(opcode: nat, payload: seq<byte>, m: Masking) returns (ok: bool)
      requires opcode < 16 && Valid(m)
      modifies this`wire
      ensures ok == (|payload| <= 0x10_0000)
      ensures wire == if ok then old(wire) + Encode(Frame(true, opcode, payload), m) else old(wire)
    {
      if |payload| > MAX_FRAME { return false; }
      var f := Frame(true, opcode, payload);
      var hdr := BuildHeader(f, m);
      wire := wire + hdr;
      assert Payload(m, []) == [];
      if |payload| == 0 { return true; }
      var body := payload;
      if m.Key? { body := Unmasked(m.key, payload); }
      wire := wire + body;
      Assoc(old(wire), hdr, body);
      ok := true;
    }
  }

  /** payload[i] ^= key[i % 4], in a copy */
  method Unmasked(key: seq<byte>, payload: seq<byte>) returns (r: seq<byte>)
    requires |key| == 4
    ensures r == ApplyKey(key, payload)
    ensures |r| == |payload|
    ensures forall j, i: nat | 0 <= j < |payload| && i < 8 ::
              BitAt(r[j], i) == (BitAt(payload[j], i) + BitAt(key[j % 4], i)) % 2
  {
    var a := new byte[|payload|](i requires 0 <= i < |payload| => payload[i]);
    for i := 0 to a.Length
      invariant forall j | 0 <= j < i :: a[j] == XorByte(payload[j], key[j % 4])
      invariant forall j | i <= j < a.Length :: a[j] == payload[j]
    {
      a[i] := XorByte(a[i], key[i % 4]);
    }
    r := a[..];
    hide ApplyKey, XorByte, BitAt;
    forall j, i: nat | 0 <= j < |payload| && i < 8
      ensures BitAt(r[j], i) == (BitAt(payload[j], i) + BitAt(key[j % 4], i)) % 2
    {
      BitOfXorByte(payload[j], key[j % 4], i);
    }
  }

  method BuildHeader(f: Frame, m: Masking) returns (h: seq<byte>)
    requires Valid(m) && f.opcode < 16 && |f.payload| <= 0x10_0000
    ensures h == Header(f, m)
  {
    hide I2OSP;
    var len := |f.payload|;
    var hdr := new byte[14](_ => 0);
    var mbit := if m.Key? then 0x80 else 0;
    hdr[0] := (if f.fin then 0x80 else 0) + f.opcode;
    hdr[1] := mbit + LengthCode(len);
    assert hdr[..2] == Start(f, m);
    var ext := ExtendedBytes(LengthCode(len));
    PutBytes(hdr, 2, ext, len);
    var n := 2 + ext;
    assert hdr[..n] == hdr[..2] + hdr[2..n];
    h := hdr[..n] + KeyBytes(m);
  }

  /** x >> 8 * k */
  function ShiftBytes(x: nat, k: nat): nat {
    if k == 0 then x else ShiftBytes(x, k - 1) / 256
  }

  /** b[at + i] = byte(x >> 8 * (n - 1 - i)) for each i below n. */
  method PutBytes(b: array<byte>, at: nat, n: nat, x: nat)
    requires at + n <= b.Length
    modifies b
    ensures b[at..at + n] == I2OSP(x, n)
    ensures b[..at] == old(b[..at]) && b[at + n..] == old(b[at + n..])
  {
    for i := 0 to n
      invariant b[at..at + i] == I2OSP(ShiftBytes(x, n - i), i)
      invariant b[..at] == old(b[..at]) && b[at + n..] == old(b[at + n..])
    {
      ghost var before := b[at..at + i];
      b[at + i] := ShiftBytes(x, n - 1 - i) % 256;
      assert b[at..at + i + 1] == before + [b[at + i]];
    }
  }
}
