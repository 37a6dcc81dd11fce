/** What the event reader of internal/executor/sse.go makes of its input, said over text:
    line by line within a block, and block by block within a body. */
module SseReading {
  import opened Seqs
  import opened Sse
  import opened Text

  // ---- Lines ----

  /** Nothing, or lines that are all ended. */
  ghost predicate WholeLines(a: string) { a == "" || a[|a| - 1] == '\n' }

  lemma {:induction false} SplitAtLF(a: string, b: string)
    ensures Split(a + "\n" + b) == Split(a) + Split(b)
    decreases |a|
  {
    var i := IndexLF(a);
    if i == |a| {
      assert NoLF(a);
      SplitLine(a, b);
      SplitLast(a);
    } else {
      hide Split, IndexLF;
      var l, rest := a[..i], a[i + 1..];
      assert NoLF(l) && a == l + "\n" + rest;
      SplitAtLF(rest, b);
      SplitLine(l, rest);
      assert a + "\n" + b == l + "\n" + (rest + "\n" + b);
      SplitLine(l, rest + "\n" + b);
      Assoc([l], Split(rest), Split(b));
    }
  }

  lemma {:induction false} ParseLinesAppend(f: Fields, a: seq<string>, b: seq<string>)
    ensures ParseLines(f, a + b) == ParseLines(ParseLines(f, a), b)
    decreases |a|
  {
    if a == [] {
      assert a + b == b;
    } else {
      hide ParseLine;
      assert (a + b)[0] == a[0] && (a + b)[1..] == a[1..] + b;
      ParseLinesAppend(ParseLine(f, a[0]), a[1..], b);
    }
  }

  // ---- What a line sets ----

  /** The values of the data lines of a block. */
  function DataOf(block: string): seq<string> { ParseLines(NOTHING, Split(block)).data }

  lemma NothingSet()
    ensures ParseBlock("") == Event("", "", "") && DataOf("") == []
  {
    SplitLast("");
    assert [""][1..] == [];
  }

  lemma ParsedNext(a: string, l: string)
    requires WholeLines(a) && NoLF(l)
    ensures ParseLines(NOTHING, Split(a + l + "\n")) == ParseLine(ParseLines(NOTHING, Split(a)), l)
  {
    hide Split, ParseLine, NoLF;
    SplitLast("");
    if a == "" {
      assert a + l + "\n" == l + "\n" + "";
      SplitLine(l, "");
      ParseEmptyTail(NOTHING, [l]);
      ParseOneLine(NOTHING, l);
      ParseEmptyTail(NOTHING, []);
      assert [] + [""] == [""];
    } else {
      var b := a[..|a| - 1];
      assert a == b + "\n" + "" && a + l + "\n" == b + "\n" + (l + "\n" + "");
      SplitAtLF(b, "");
      SplitAtLF(b, l + "\n" + "");
      SplitLine(l, "");
      ParseEmptyTail(NOTHING, Split(b));
      Assoc(Split(b), [l], [""]);
      ParseEmptyTail(NOTHING, Split(b) + [l]);
      ParseLinesAppend(NOTHING, Split(b), [l]);
      ParseOneLine(ParseLines(NOTHING, Split(b)), l);
    }
  }

  lemma ParseOneLine(f: Fields, l: string)
    ensures ParseLines(f, [l]) == ParseLine(f, l)
  {
    hide ParseLine;
    assert [l][1..] == [];
  }

  lemma JoinNext(ls: seq<string>, l: string)
    ensures Join(ls + [l]) == if ls == [] then l else Join(ls) + "\n" + l
    decreases |ls|
  {
    if ls == [] {
      assert ls + [l] == [l];
    } else {
      assert (ls + [l])[0] == ls[0] && (ls + [l])[1..] == ls[1..] + [l];
      JoinNext(ls[1..], l);
      if |ls| > 1 { assert ls[0] + "\n" + (Join(ls[1..]) + "\n" + l) == ls[0] + "\n" + Join(ls[1..]) + "\n" + l; }
    }
  }

  /** The line carries the value v under the name p: after a colon, after a colon and a
      space that is not part of it, or empty for want of a colon. */
  ghost predicate Carries(l: string, p: string, v: string) {
    && p != "" && ':' !in p
    && ((l == p + ":" + v && (v != "" ==> v[0] != ' ')) || l == p + ": " + v || (l == p && v == ""))
  }

  lemma CarriedIs(l: string, p: string, v: string)
    requires Carries(l, p, v)
    ensures l != "" && l[0] != ':' && l[..IndexColon(l)] == p && ValueOf(l) == v
  {
    assert l[0] == p[0] && p[0] in p;
    if l == p && v == "" {
      ColonFree(p);
    } else if l == p + ":" + v && (v != "" ==> v[0] != ' ') {
      ColonAt(p, v);
      assert l[..|p|] == p && l[|p| + 1..] == v;
    } else {
      assert l == p + ":" + (" " + v);
      ColonAt(p, " " + v);
      assert l[..|p|] == p && l[|p| + 1..] == " " + v;
    }
  }

  lemma {:induction false} ColonFree(p: string)
    requires ':' !in p
    ensures IndexColon(p) == |p|
  {
    if p != "" {
      assert p[0] in p;
      ColonFree(p[1..]);
    }
  }

  /** One more line in a block: by its name, less white space around it, the value becomes
      the type or the id, or is put under the data on a line of its own; a line of any
      other name changes nothing. */
  lemma FieldLine(a: string, l: string, p: string, v: string)
    requires WholeLines(a) && '\n' !in l && Carries(l, p, v)
    ensures var before, after, name := ParseBlock(a), ParseBlock(a + l + "\n"), TrimSpace(p);
            && (name == "event" ==> after == Event(v, before.data, before.id))
            && (name == "id" ==> after == Event(before.typ, before.data, v))
            && (name == "data" ==>
                  && after.typ == before.typ && after.id == before.id
                  && after.data == if DataOf(a) == [] then v else before.data + "\n" + v)
            && (name != "event" && name != "id" && name != "data" ==> after == before)
            && DataOf(a + l + "\n") == if name == "data" then DataOf(a) + [v] else DataOf(a)
  {
    hide Split, ParseLines, TrimSpace, ValueOf, IndexColon, Join;
    CarriedIs(l, p, v);
    ParsedNext(a, l);
    JoinNext(DataOf(a), v);
  }

  /** A comment, and an empty line, change nothing. */
  lemma CommentLine(a: string, l: string)
    requires WholeLines(a) && '\n' !in l && (l == "" || l[0] == ':')
    ensures ParseBlock(a + l + "\n") == ParseBlock(a) && DataOf(a + l + "\n") == DataOf(a)
  {
    hide Split, ParseLines, TrimSpace, ValueOf, IndexColon;
    ParsedNext(a, l);
  }

  /** Every line is of one of these kinds. */
  lemma EveryLine(l: string) returns (p: string, v: string)
    ensures l == "" || l[0] == ':' || Carries(l, p, v)
  {
    var i := IndexColon(l);
    p, v := l[..i], "";
    BeforeColon(l);
    if i < |l| {
      v := l[i + 1..];
      assert l == p + ":" + v;
      if v != "" && v[0] == ' ' {
        assert l == p + ": " + v[1..];
        v := v[1..];
      }
    }
  }

  lemma {:induction false} BeforeColon(l: string)
    ensures ':' !in l[..IndexColon(l)] && (IndexColon(l) < |l| ==> l[IndexColon(l)] == ':')
  {
    if l != "" && l[0] != ':' {
      BeforeColon(l[1..]);
      assert l[..IndexColon(l)] == [l[0]] + l[1..][..IndexColon(l[1..])];
    }
  }

  // ---- Line endings ----

  /** Line by line the same, line endings aside. */
  ghost predicate Alike(ls: seq<string>, ms: seq<string>) {
    |ls| == |ms| && forall i | 0 <= i < |ls| :: TrimRight(ls[i]) == TrimRight(ms[i])
  }

  lemma {:induction false} FeedAlike(r: Reader, ls: seq<string>, ms: seq<string>, lim: Limits)
    requires Alike(ls, ms)
    ensures FeedAll(r, ls, lim) == FeedAll(r, ms, lim)
    decreases |ls|
  {
    if ls != [] {
      hide TrimRight, Flush, Grown;
      assert TrimRight(ls[0]) == TrimRight(ms[0]);
      FeedAlike(Feed(r, ls[0], lim), ls[1..], ms[1..], lim);
    }
  }

  lemma ReturnIsTrimmed(l: string)
    ensures TrimRight(l + "\r") == TrimRight(l)
  {
    assert (l + "\r")[..|l|] == l;
  }

  lemma {:induction false} SplitReturn(a: string)
    ensures |Split(a + "\r")| == |Split(a)|
    ensures Split(a + "\r") == Split(a)[..|Split(a)| - 1] + [Split(a)[|Split(a)| - 1] + "\r"]
    decreases |a|
  {
    var i := IndexLF(a);
    if i == |a| {
      assert NoLF(a) && NoLF(a + "\r");
      SplitLast(a);
      SplitLast(a + "\r");
    } else {
      hide Split, IndexLF;
      var l, rest := a[..i], a[i + 1..];
      assert NoLF(l) && a == l + "\n" + rest && a + "\r" == l + "\n" + (rest + "\r");
      hide NoLF;
      SplitLine(l, rest);
      SplitLine(l, rest + "\r");
      SplitReturn(rest);
      var ls, n := Split(rest), |Split(rest)| - 1;
      assert ([l] + ls)[..n + 1] == [l] + ls[..n] && ([l] + ls)[n + 1] == ls[n];
      Assoc([l], ls[..n], [ls[n] + "\r"]);
    }
  }

  lemma LinesAlike(a: string, b: string)
    ensures Alike(Lines(a + "\r\n" + b), Lines(a + "\n" + b))
  {
    hide Split, TrimRight;
    assert a + "\r\n" + b == (a + "\r") + "\n" + b;
    SplitAtLF(a + "\r", b);
    SplitAtLF(a, b);
    SplitReturn(a);
    ReturnIsTrimmed(Split(a)[|Split(a)| - 1]);
  }

  /** A line ended by a carriage return and a line feed reads as one ended by a line
      feed, anywhere in any body. */
  lemma CrLfReadsAsLf(a: string, b: string, lim: Limits)
    ensures EventsOf(a + "\r\n" + b, lim) == EventsOf(a + "\n" + b, lim)
  {
    hide FeedAll, Finish, Lines, TrimRight;
    var ls, ms := Lines(a + "\r\n" + b), Lines(a + "\n" + b);
    LinesAlike(a, b);
    FeedAlike(START, ls, ms, lim);
    if Cancelled(ls, lim.cancel) {
      var n := lim.cancel.value + 1;
      assert Alike(ls[..n], ms[..n]);
      FeedAlike(START, ls[..n], ms[..n], lim);
    }
  }

  // ---- Blocks ----

  /** The events before do not matter to what comes. */
  lemma {:induction false} EarlierEventsStay(es: seq<Event>, r: Reader, ls: seq<string>)
    requires !r.stopped
    ensures var s, t := FeedAll(r, ls, NoLimit()), FeedAll(Reader(r.block, es + r.events, false), ls, NoLimit());
            t == Reader(s.block, es + s.events, false) && !s.stopped
    decreases |ls|
  {
    if ls != [] {
      var next := Feed(r, ls[0], NoLimit());
      FeedAddsTo(es, r, ls[0]);
      hide Feed;
      EarlierEventsStay(es, next, ls[1..]);
    }
  }

  lemma FeedAddsTo(es: seq<Event>, r: Reader, l: string)
    requires !r.stopped
    ensures var s, t := Feed(r, l, NoLimit()), Feed(Reader(r.block, es + r.events, false), l, NoLimit());
            t == Reader(s.block, es + s.events, false) && !s.stopped
  {
    hide ParseBlock, TrimRight, Grown;
    Assoc(es, r.events, [ParseBlock(r.block)]);
  }

  lemma PlainIsWhole(ls: seq<string>)
    requires Plain(ls)
    ensures NoLFs(ls) && NoLFs(ls + [""])
  {
  }

  /** A block of lines within the limit, closed by an empty line, is one event, unless it
      sets nothing; the rest of the body reads as if it stood alone. */
  lemma BlockReads(ls: seq<string>, rest: string)
    requires Plain(ls) && ls != [] && |Cat(ls)| <= 0x10_0000
    ensures EventsOf(Cat(ls) + "\n" + rest, NoLimit())
         == (if ParseBlock(Cat(ls)) == Event("", "", "") then [] else [ParseBlock(Cat(ls))])
            + EventsOf(rest, NoLimit())
  {
    hide Plain, Split, ParseBlock, FeedAll, Cat, NoLimit, TrimRight;
    PlainIsWhole(ls);
    CatSnoc(ls, "");
    assert Cat(ls) + ("" + "\n") + rest == Cat(ls) + "\n" + rest;
    LinesAfter(ls + [""], rest);
    var k := BlockAfter([], ls);
    assert ls[0..] == ls;
    CatNonEmpty(ls);
    var out := FlushResult(Cat(ls), []);
    assert [] + out == out;
    FeedAllAppend(START, ls + [""], Lines(rest), NoLimit());
    FeedAllAppend(START, ls, [""], NoLimit());
    RestReads(out, rest);
    Unlimited(Cat(ls) + "\n" + rest);
  }

  lemma LinesAfter(ls: seq<string>, rest: string)
    requires NoLFs(ls)
    ensures Lines(Cat(ls) + rest) == ls + Lines(rest)
  {
    hide Split, Cat;
    SplitCat(ls, rest);
  }

  lemma RestReads(es: seq<Event>, rest: string)
    ensures Finish(FeedAll(Reader("", es, false), Lines(rest), NoLimit())) == es + EventsOf(rest, NoLimit())
  {
    hide Lines, FeedAll, ParseBlock;
    assert es + [] == es;
    EarlierEventsStay(es, START, Lines(rest));
    var s := FeedAll(START, Lines(rest), NoLimit());
    Assoc(es, s.events, [ParseBlock(s.block)]);
    Unlimited(rest);
  }

  /** An empty line where no block is open changes nothing. */
  lemma EmptyLineReads(rest: string)
    ensures EventsOf("\n" + rest, NoLimit()) == EventsOf(rest, NoLimit())
  {
    hide ParseBlock, FeedAll, Cat, Lines, FeedAll;
    assert Cat([""]) + rest == "\n" + rest by { CatOne(); }
    LinesAfter([""], rest);
    FeedAllAppend(START, [""], Lines(rest), NoLimit());
    var out := FlushResult("", []);
    assert [] + out == [];
    Unlimited(rest);
    Unlimited("\n" + rest);
  }

  lemma CatOne()
    ensures Cat([""]) == "\n"
  {
    assert [""][1..] == [];
  }

  /** A block the body ends in counts when it has a type or data; an id alone is not
      enough there. */
  lemma OpenBlockReads(ls: seq<string>)
    requires Plain(ls) && ls != [] && |Cat(ls)| <= 0x10_0000
    ensures var ev := ParseBlock(Cat(ls));
            EventsOf(Cat(ls), NoLimit()) == if ev.data != "" || ev.typ != "" then [ev] else []
  {
    hide Plain, Split, ParseBlock, FeedAll, Cat, Lines, NoLimit;
    PlainIsWhole(ls);
    LinesOfCat(ls);
    var k := BlockAfter([], ls);
    assert ls[0..] == ls;
    CatNonEmpty(ls);
    Unlimited(Cat(ls));
  }

  /** Lines that outgrow the limit with the last of them are dropped, all of them. */
  lemma OversizedBlockIsDropped(ls: seq<string>, l: string, rest: string)
    requires Plain(ls + [l]) && |Cat(ls)| <= 0x10_0000 < |Cat(ls + [l])|
    ensures EventsOf(Cat(ls + [l]) + rest, NoLimit()) == EventsOf(rest, NoLimit())
  {
    assert Plain(ls) && Clean(l) && l != "" && NoLF(l) by {
      assert forall x | x in ls :: x in ls + [l];
      assert l in ls + [l];
    }
    PlainIsWhole(ls + [l]);
    hide Plain, Split, ParseBlock, FeedAll, Cat, Lines, NoLimit, Clean;
    LinesAfter(ls + [l], rest);
    FeedAllAppend(START, ls + [l], Lines(rest), NoLimit());
    var k := BlockAfter([], ls);
    BlockStep([], ls, l, 0);
    assert (ls + [l])[0..] == ls + [l] && (ls + [l])[|ls| + 1..] == [];
    CatNil();
    Unlimited(rest);
    Unlimited(Cat(ls + [l]) + rest);
  }

  // ---- The relay ----

  lemma {:induction false} PassingAppend(es: seq<Event>, fs: seq<Event>, filter: string)
    ensures Passing(es + fs, filter) == Passing(es, filter) + Passing(fs, filter)
    decreases |fs|
  {
    if fs == [] {
      assert es + fs == es && Passing(es, filter) + [] == Passing(es, filter);
    } else {
      var n := |fs| - 1;
      assert (es + fs)[..|es| + n] == es + fs[..n] && (es + fs)[|es| + n] == fs[n];
      PassingAppend(es, fs[..n], filter);
      Assoc(Passing(es, filter), Passing(fs[..n], filter),
            if filter == "" || fs[n].typ == "" || fs[n].typ == filter then [fs[n]] else []);
    }
  }

  /** Without a filter everything passes; with one an event passes in its place when it has
      that type or none. */
  lemma PassingIs(es: seq<Event>, e: Event, fs: seq<Event>, filter: string)
    ensures Passing(es + [e] + fs, filter)
         == Passing(es, filter)
            + (if filter != "" && e.typ != "" && e.typ != filter then [] else [e]) + Passing(fs, filter)
    ensures Passing([], filter) == []
  {
    PassingAppend(es + [e], fs, filter);
    PassingAppend(es, [e], filter);
    assert [e][..0] == [];
  }

  /** What an event with one line of data looks like on the wire. */
  lemma PrintedIs(e: Event)
    requires '\n' !in e.data
    ensures Print(e) == (if e.typ == "" then "" else "event: " + e.typ + "\n")
                        + (if e.id == "" then "" else "id: " + e.id + "\n") + "data: " + e.data + "\n\n"
  {
    hide Split, Cat, Heads;
    SplitLast(e.data);
    var h, d := Heads(e), "data: " + e.data;
    OneDataLine(e.data);
    CatSnoc(h, d);
    HeadsPrinted(e);
    Assoc(Cat(h), d, "\n");
    Assoc(Cat(h) + "data: ", e.data, "\n");
    assert Cat(h) + "data: " + e.data + "\n" + "\n" == Cat(h) + "data: " + e.data + "\n\n";
  }

  lemma OneDataLine(d: string)
    ensures DataLines([d]) == ["data: " + d]
  {
    assert [d][1..] == [];
  }

  lemma OneLine(l: string)
    ensures Cat([l]) == l + "\n"
  {
    assert [l][1..] == [];
  }

  lemma HeadsPrinted(e: Event)
    ensures Cat(Heads(e)) == (if e.typ == "" then "" else "event: " + e.typ + "\n")
                             + (if e.id == "" then "" else "id: " + e.id + "\n")
  {
    hide Cat;
    var t, i := "event: " + e.typ, "id: " + e.id;
    CatAppend(if e.typ != "" then [t] else [], if e.id != "" then [i] else []);
    CatNil();
    OneLine(t);
    OneLine(i);
  }
}
