/** Reassembly of messages from frames (ReadMessage in internal/executor/wsframe.go;
    RFC 6455, sections 5.4 and 5.5). */
module WsMessage {
  import opened Bits
  import opened WsFrame
  import opened Seqs

  datatype Outcome =
    | Message(text: seq<byte>)
    | Closed
    | MessageTooBig
    | UnknownOpcode(opcode: nat)
    | ReadFailed(read: Read)

  const CONTINUATION: nat := 0x0
  const CLOSE: nat := 0x8
  const PING: nat := 0x9
  const PONG: nat := 0xA

  predicate IsData(opcode: nat) { opcode == CONTINUATION || opcode == 1 || opcode == 2 }

  function Reply(opcode: nat, payload: seq<byte>): seq<byte>
    requires opcode < 16
  {
    Encode(Frame(true, opcode, payload), Plain)
  }

  /** Result, unread bytes and bytes written, having collected acc so far. */
  function ReadMsg(s: seq<byte>, acc: seq<byte>): (r: (Outcome, seq<byte>, seq<byte>))
    decreases |s|
  {
    var (read, rest) := Parse(s);
    match read
    case Got(f) =>
      if IsData(f.opcode) then
        if f.fin then (Message(acc + f.payload), rest, [])
        else if |acc + f.payload| > MAX_FRAME then (MessageTooBig, rest, [])
        else ReadMsg(rest, acc + f.payload)
      else if f.opcode == CLOSE then (Closed, rest, Reply(CLOSE, []))
      else if f.opcode == PING then
        if |acc| > MAX_FRAME then (MessageTooBig, rest, Reply(PONG, f.payload))
        else
          var (o, left, written) := ReadMsg(rest, acc);
          (o, left, Reply(PONG, f.payload) + written)
      else if f.opcode == PONG then
        if |acc| > MAX_FRAME then (MessageTooBig, rest, []) else ReadMsg(rest, acc)
      else (UnknownOpcode(f.opcode), rest, [])
    case _ => (ReadFailed(read), rest, [])
  }

  /** No message longer than two frames' worth is ever returned, whatever arrives. */
  lemma {:induction false} MessagesAreBounded(s: seq<byte>, acc: seq<byte>)
    requires |acc| <= MAX_FRAME
    ensures var o := ReadMsg(s, acc).0; o.Message? ==> |o.text| <= 0x20_0000
    decreases |s|
  {
    var (read, rest) := Parse(s);
    if read.Got? {
      var f := read.frame;
      if IsData(f.opcode) && !f.fin && |acc + f.payload| <= MAX_FRAME {
        MessagesAreBounded(rest, acc + f.payload);
      } else if f.opcode == PING || f.opcode == PONG {
        MessagesAreBounded(rest, acc);
      }
    }
  }

  method ReadMessage(c: Conn) returns (o: Outcome)
    modifies c
    ensures (o, c.reader) == (ReadMsg(old(c.reader), []).0, ReadMsg(old(c.reader), []).1)
    ensures c.wire == old(c.wire) + ReadMsg(old(c.reader), []).2
    ensures o.Message? ==> |o.text| <= 0x20_0000
  {
    MessagesAreBounded(c.reader, []);
    var msg: seq<byte> := [];
    ghost var written: seq<byte> := [];
    ghost var goal := ReadMsg(c.reader, []);
    assert written + ReadMsg(c.reader, msg).2 == goal.2;
    hide Parse;
    while true
      invariant |msg| <= MAX_FRAME && c.wire == old(c.wire) + written
      invariant ReadMsg(c.reader, msg).0 == goal.0 && ReadMsg(c.reader, msg).1 == goal.1
      invariant written + ReadMsg(c.reader, msg).2 == goal.2
      decreases |c.reader|
    {
      hide Encode;
      ghost var s, before := c.reader, written;
      var read := c.ReadFrame();
      if !read.Got? { return ReadFailed(read); }
      var f := read.frame;
      if IsData(f.opcode) {
        msg := msg + f.payload;
        if f.fin { return Message(msg); }
      } else if f.opcode == CLOSE {
        var _ := c.WriteFrame(CLOSE, [], Plain);
        Assoc(old(c.wire), written, Reply(CLOSE, []));
        return Closed;
      } else if f.opcode == PING {
        var _ := c.WriteFrame(PONG, f.payload, Plain);
        Assoc(old(c.wire), written, Reply(PONG, f.payload));
        Assoc(written, Reply(PONG, f.payload), ReadMsg(c.reader, msg).2);
        written := written + Reply(PONG, f.payload);
      } else if f.opcode != PONG {
        return UnknownOpcode(f.opcode);
      }
      if |msg| > MAX_FRAME { return MessageTooBig; }
    }
  }

  // ---- What a conforming peer sends for one message ----

  /** A fragment of the message, or a control frame between fragments. */
  datatype Item =
    | Piece(data: seq<byte>, m: Masking)
    | Ping(data: seq<byte>, m: Masking)
    | Pong(data: seq<byte>, m: Masking)

  /** The last item is the final fragment. */
  ghost predicate Conforms(items: seq<Item>) {
    && items != [] && items[|items| - 1].Piece?
    && forall it | it in items :: Valid(it.m) && |it.data| <= 0x10_0000
  }

  /** opcode is that of the next fragment: the message's own, then 0. */
  function FrameOf(items: seq<Item>, opcode: nat): Frame
    requires items != []
  {
    match items[0]
    case Piece(d, _) => Frame(|items| == 1, opcode, d)
    case Ping(d, _) => Frame(true, PING, d)
    case Pong(d, _) => Frame(true, PONG, d)
  }

  function NextOpcode(items: seq<Item>, opcode: nat): nat
    requires items != []
  {
    if items[0].Piece? then CONTINUATION else opcode
  }

  ghost function Sent(items: seq<Item>, opcode: nat): seq<byte>
    requires IsData(opcode) && forall it | it in items :: Valid(it.m)
  {
    if items == [] then []
    else Encode(FrameOf(items, opcode), items[0].m) + Sent(items[1..], NextOpcode(items, opcode))
  }

  function Contents(items: seq<Item>): seq<byte> {
    if items == [] then []
    else (if items[0].Piece? then items[0].data else []) + Contents(items[1..])
  }

  /** What the fragments before the final one add up to. */
  function NonFinal(items: seq<Item>): nat {
    if |items| <= 1 then 0
    else (if items[0].Piece? then |items[0].data| else 0) + NonFinal(items[1..])
  }

  /** The pongs owed, in order, each with its ping's payload. */
  function Pongs(items: seq<Item>): seq<byte> {
    if items == [] then []
    else (if items[0].Ping? then Reply(PONG, items[0].data) else []) + Pongs(items[1..])
  }

  lemma ConformingTail(items: seq<Item>)
    requires Conforms(items) && |items| > 1
    ensures Conforms(items[1..])
  {
    assert items[1..][|items| - 2] == items[|items| - 1];
  }

  lemma SentParses(items: seq<Item>, opcode: nat, rest: seq<byte>)
    requires Conforms(items) && IsData(opcode)
    ensures Parse(Sent(items, opcode) + rest)
         == (Got(FrameOf(items, opcode)), Sent(items[1..], NextOpcode(items, opcode)) + rest)
  {
    var e, tail := Encode(FrameOf(items, opcode), items[0].m), Sent(items[1..], NextOpcode(items, opcode));
    assert items[0] in items;
    ParseOfEncode(FrameOf(items, opcode), items[0].m, tail + rest);
    Assoc(e, tail, rest);
  }

  /** What ReadMessage does with the next fragment or control frame of a message. */
  lemma ReadsItem(items: seq<Item>, opcode: nat, rest: seq<byte>, acc: seq<byte>)
    requires Conforms(items) && |items| > 1 && IsData(opcode) && |acc| <= MAX_FRAME
    ensures var (left, d) := (Sent(items[1..], NextOpcode(items, opcode)) + rest, items[0].data);
            ReadMsg(Sent(items, opcode) + rest, acc)
            == match items[0]
               case Piece(_, _) =>
                 if |acc + d| > 0x10_0000 then (MessageTooBig, left, []) else ReadMsg(left, acc + d)
               case Ping(_, _) =>
                 var (o, after, written) := ReadMsg(left, acc);
                 (o, after, Reply(PONG, d) + written)
               case Pong(_, _) => ReadMsg(left, acc)
  {
    hide Parse, Encode, Reply, Sent, Conforms;
    SentParses(items, opcode, rest);
  }

  lemma OnlyPiece(items: seq<Item>, opcode: nat, rest: seq<byte>, acc: seq<byte>)
    requires Conforms(items) && |items| == 1 && IsData(opcode)
    ensures ReadMsg(Sent(items, opcode) + rest, acc) == (Message(acc + Contents(items)), rest, Pongs(items))
  {
    SentParses(items, opcode, rest);
    var d := items[0].data;
    assert items[1..] == [] && items[0].Piece?;
    assert Contents(items[1..]) == [] && Pongs(items[1..]) == [];
    assert Contents(items) == d + [] == d;
    assert Pongs(items) == [] + [] == [];
    assert Sent(items[1..], NextOpcode(items, opcode)) == [];
    assert [] + rest == rest;
    hide Parse, Encode, Contents, Pongs, Sent;
  }

  /** ReadMessage puts any fragmentation back together, answering each ping once and in
      order, exactly when what precedes the final fragment fits one frame. */
  lemma {:induction false} Reassembles(items: seq<Item>, opcode: nat, rest: seq<byte>, acc: seq<byte>)
    requires Conforms(items) && IsData(opcode) && |acc| <= MAX_FRAME
    ensures |acc| + NonFinal(items) <= 0x10_0000 ==>
              ReadMsg(Sent(items, opcode) + rest, acc) == (Message(acc + Contents(items)), rest, Pongs(items))
    ensures |acc| + NonFinal(items) > 0x10_0000 ==>
              ReadMsg(Sent(items, opcode) + rest, acc).0 == MessageTooBig
  {
    if |items| == 1 {
      OnlyPiece(items, opcode, rest, acc);
    } else {
      hide ReadMsg, Parse, Encode, Reply, Sent;
      ReadsItem(items, opcode, rest, acc);
      ConformingTail(items);
      var tail := items[1..];
      var d := items[0].data;
      match items[0]
      case Piece(_, _) =>
        if |acc + d| <= MAX_FRAME {
          Reassembles(tail, CONTINUATION, rest, acc + d);
          Assoc(acc, d, Contents(tail));
          assert [] + Pongs(tail) == Pongs(tail);
        }
      case Ping(_, _) =>
        Reassembles(tail, opcode, rest, acc);
        assert [] + Contents(tail) == Contents(tail);
      case Pong(_, _) =>
        Reassembles(tail, opcode, rest, acc);
        assert [] + Contents(tail) == Contents(tail) && [] + Pongs(tail) == Pongs(tail);
    }
  }

  // ---- How a read can end otherwise ----

  /** Fragments that are not final, pings and pongs, as sent. */
  ghost function OpenFrame(it: Item, opcode: nat): Frame {
    match it
    case Piece(d, _) => Frame(false, opcode, d)
    case Ping(d, _) => Frame(true, 0x9, d)
    case Pong(d, _) => Frame(true, 0xA, d)
  }

  ghost predicate Sendable(items: seq<Item>) {
    forall it | it in items :: Valid(it.m) && |it.data| <= 0x10_0000
  }

  ghost function SentOpen(items: seq<Item>, opcode: nat): seq<byte>
    requires Sendable(items) && opcode <= 2
  {
    if items == [] then []
    else
      Encode(OpenFrame(items[0], opcode), items[0].m)
      + SentOpen(items[1..], if items[0].Piece? then 0x0 else opcode)
  }

  /** The pongs owed for the pings among the items. */
  ghost function PongsFor(items: seq<Item>): seq<byte>
    requires Sendable(items)
  {
    if items == [] then []
    else (if items[0].Ping? then Encode(Frame(true, 0xA, items[0].data), Plain) else []) + PongsFor(items[1..])
  }

  lemma OpenParses(items: seq<Item>, opcode: nat, tail: seq<byte>)
    requires items != [] && Sendable(items) && opcode <= 2
    ensures Sendable(items[1..])
    ensures Parse(SentOpen(items, opcode) + tail)
         == (Got(OpenFrame(items[0], opcode)),
             SentOpen(items[1..], if items[0].Piece? then 0x0 else opcode) + tail)
  {
    assert items[0] in items;
    assert Sendable(items[1..]) by { assert forall it | it in items[1..] :: it in items; }
    var e := Encode(OpenFrame(items[0], opcode), items[0].m);
    var more := SentOpen(items[1..], if items[0].Piece? then 0x0 else opcode);
    ParseOfEncode(OpenFrame(items[0], opcode), items[0].m, more + tail);
    Assoc(e, more, tail);
    hide Encode, Parse;
  }

  /** After the beginning of a message the read goes on with what follows, having collected
      the fragments and answered the pings. */
  lemma {:induction false} ReadsThrough(items: seq<Item>, opcode: nat, tail: seq<byte>, acc: seq<byte>)
    requires Sendable(items) && opcode <= 2 && |acc + Contents(items)| <= 0x10_0000
    ensures var (o, left, written) := ReadMsg(tail, acc + Contents(items));
            ReadMsg(SentOpen(items, opcode) + tail, acc) == (o, left, PongsFor(items) + written)
  {
    if items == [] {
      assert SentOpen(items, opcode) + tail == tail && acc + [] == acc;
      var written := ReadMsg(tail, acc).2;
      assert PongsFor(items) + written == written;
    } else {
      var d, rest := items[0].data, items[1..];
      OpenParses(items, opcode, tail);
      hide Parse, Encode, SentOpen, Sendable;
      match items[0]
      case Piece(_, _) =>
        Assoc(acc, d, Contents(rest));
        ReadsThrough(rest, 0x0, tail, acc + d);
        NothingBefore(PongsFor(rest));
      case Ping(_, _) =>
        NothingBefore(Contents(rest));
        ReadsThrough(rest, opcode, tail, acc);
        Assoc(Encode(Frame(true, 0xA, d), Plain), PongsFor(rest), ReadMsg(tail, acc + Contents(rest)).2);
      case Pong(_, _) =>
        NothingBefore(Contents(rest));
        NothingBefore(PongsFor(rest));
        ReadsThrough(rest, opcode, tail, acc);
    }
  }

  lemma NothingBefore(s: seq<byte>)
    ensures [] + s == s
  {
  }

  /** A close frame, whatever it carries, ends the read: it is answered by an empty close
      frame after the pongs owed, nothing is returned, and what follows is left. */
  lemma CloseEndsRead(items: seq<Item>, opcode: nat, acc: seq<byte>, close: Frame, m: Masking, rest: seq<byte>)
    requires Sendable(items) && opcode <= 2 && |acc + Contents(items)| <= 0x10_0000
    requires close.opcode == 0x8 && |close.payload| <= 0x10_0000 && Valid(m)
    ensures ReadMsg(SentOpen(items, opcode) + (Encode(close, m) + rest), acc)
         == (Closed, rest, PongsFor(items) + [0x88, 0x00])
  {
    hide Parse, Encode, SentOpen, PongsFor, Contents, Sendable;
    ReadsThrough(items, opcode, Encode(close, m) + rest, acc);
    ParseOfEncode(close, m, rest);
    CloseAnswerIs();
  }

  lemma CloseAnswerIs()
    ensures Reply(0x8, []) == [0x88, 0x00]
  {
    WireForm(Frame(true, 0x8, []), Plain);
    assert [0x88, 0x00] + [] + [] == [0x88, 0x00];
  }

  /** So does a frame whose opcode the standard reserves, unanswered. */
  lemma ReservedEndsRead(items: seq<Item>, opcode: nat, acc: seq<byte>, f: Frame, m: Masking, rest: seq<byte>)
    requires Sendable(items) && opcode <= 2 && |acc + Contents(items)| <= 0x10_0000
    requires (0x3 <= f.opcode <= 0x7 || 0xB <= f.opcode <= 0xF) && |f.payload| <= 0x10_0000 && Valid(m)
    ensures ReadMsg(SentOpen(items, opcode) + (Encode(f, m) + rest), acc)
         == (UnknownOpcode(f.opcode), rest, PongsFor(items))
  {
    hide Parse, Encode, SentOpen, PongsFor, Contents;
    ReadsThrough(items, opcode, Encode(f, m) + rest, acc);
    ParseOfEncode(f, m, rest);
    assert PongsFor(items) + [] == PongsFor(items);
  }

  /** And so does anything that is not a frame. */
  lemma FailureEndsRead(items: seq<Item>, opcode: nat, acc: seq<byte>, tail: seq<byte>)
    requires Sendable(items) && opcode <= 2 && |acc + Contents(items)| <= 0x10_0000
    requires !Parse(tail).0.Got?
    ensures ReadMsg(SentOpen(items, opcode) + tail, acc) == (ReadFailed(Parse(tail).0), Parse(tail).1, PongsFor(items))
  {
    hide Parse, Encode, SentOpen, PongsFor, Contents;
    ReadsThrough(items, opcode, tail, acc);
    assert PongsFor(items) + [] == PongsFor(items);
  }

  /** A final fragment ends it with the message, however large that last fragment is. */
  lemma FinalEndsRead(items: seq<Item>, opcode: nat, acc: seq<byte>, f: Frame, m: Masking, rest: seq<byte>)
    requires Sendable(items) && opcode <= 2 && |acc + Contents(items)| <= 0x10_0000
    requires f.fin && f.opcode <= 2 && |f.payload| <= 0x10_0000 && Valid(m)
    ensures ReadMsg(SentOpen(items, opcode) + (Encode(f, m) + rest), acc)
         == (Message(acc + Contents(items) + f.payload), rest, PongsFor(items))
  {
    hide Parse, Encode, SentOpen, PongsFor, Contents;
    ReadsThrough(items, opcode, Encode(f, m) + rest, acc);
    ParseOfEncode(f, m, rest);
    assert PongsFor(items) + [] == PongsFor(items);
  }

  // ---- A whole conversation ----

  datatype Sending = Sending(opcode: nat, items: seq<Item>)

  ghost predicate Readable(x: Sending) {
    (x.opcode == 1 || x.opcode == 2) && Conforms(x.items) && NonFinal(x.items) <= 0x10_0000
  }

  ghost function AllSent(xs: seq<Sending>): seq<byte>
    requires forall x | x in xs :: Readable(x)
  {
    if xs == [] then []
    else
      assert xs[0] in xs && Readable(xs[0]);
      Sent(xs[0].items, xs[0].opcode) + AllSent(xs[1..])
  }

  function AllPongs(xs: seq<Sending>): seq<byte> {
    if xs == [] then [] else Pongs(xs[0].items) + AllPongs(xs[1..])
  }

  function Texts(xs: seq<Sending>): seq<seq<byte>> {
    if xs == [] then [] else [Contents(xs[0].items)] + Texts(xs[1..])
  }

  /** n successive reads. */
  method ReadMessages(c: Conn, ghost xs: seq<Sending>, n: nat) returns (texts: seq<seq<byte>>)
    requires n == |xs| && (forall x | x in xs :: Readable(x)) && c.reader == AllSent(xs)
    modifies c
    ensures texts == Texts(xs) && c.reader == []
    ensures c.wire == old(c.wire) + AllPongs(xs)
  {
    texts := [];
    ghost var pongs: seq<byte> := [];
    assert xs[0..] == xs && [] + Texts(xs) == Texts(xs) && [] + AllPongs(xs) == AllPongs(xs);
    hide Conforms, NonFinal, Sent, ReadMsg, Contents, Pongs;
    for i := 0 to n
      invariant c.reader == AllSent(xs[i..])
      invariant texts + Texts(xs[i..]) == Texts(xs)
      invariant c.wire == old(c.wire) + pongs && pongs + AllPongs(xs[i..]) == AllPongs(xs)
    {
      ghost var x, tail := xs[i], xs[i + 1..];
      assert x in xs && xs[i..][0] == x && xs[i..][1..] == tail;
      ReadsNext(x, AllSent(tail));
      var o := ReadMessage(c);
      Assoc(texts, [o.text], Texts(tail));
      texts := texts + [o.text];
      Assoc(old(c.wire), pongs, Pongs(x.items));
      Assoc(pongs, Pongs(x.items), AllPongs(tail));
      pongs := pongs + Pongs(x.items);
    }
  }

  lemma ReadsNext(x: Sending, rest: seq<byte>)
    requires Readable(x)
    ensures ReadMsg(Sent(x.items, x.opcode) + rest, []) == (Message(Contents(x.items)), rest, Pongs(x.items))
  {
    Reassembles(x.items, x.opcode, rest, []);
    assert [] + Contents(x.items) == Contents(x.items);
  }
}
