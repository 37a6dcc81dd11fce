/** Server-sent events: the reader (internal/executor/sse.go) and the relay's printer
    (internal/httpapi/realtime.go). A char stands for one byte. */
module Sse {
  import opened Redact
  import opened Seqs
  import opened Text
  import opened Wrappers

  const MAX_BLOCK := 0x10_0000

  datatype Event = Event(typ: string, data: string, id: string)

  // ---- Lines ----

  function IndexLF(s: string): (i: nat)
    ensures i <= |s| && forall j | 0 <= j < i :: s[j] != '\n'
    ensures i < |s| ==> s[i] == '\n'
  {
    if s == "" || s[0] == '\n' then 0 else 1 + IndexLF(s[1..])
  }

  /** strings.Split(s, "\n") */
  function Split(s: string): (ls: seq<string>)
    ensures ls != []
    decreases |s|
  {
    var i := IndexLF(s);
    if i == |s| then [s] else [s[..i]] + Split(s[i + 1..])
  }

  /** strings.Join(ls, "\n") */
  function Join(ls: seq<string>): string {
    if ls == [] then "" else if |ls| == 1 then ls[0] else ls[0] + "\n" + Join(ls[1..])
  }

  /** Every line with its line feed. */
  function Cat(ls: seq<string>): string {
    if ls == [] then "" else ls[0] + "\n" + Cat(ls[1..])
  }

  predicate NoLF(s: string) { '\n' !in s }

  ghost predicate NoLFs(ls: seq<string>) { forall l | l in ls :: NoLF(l) }

  lemma IndexOfLine(l: string, rest: string)
    requires NoLF(l)
    ensures IndexLF(l + "\n" + rest) == |l|
  {
    var s := l + "\n" + rest;
    assert s[|l|] == '\n';
    assert forall j | 0 <= j < |l| :: s[j] == l[j] && l[j] in l;
  }

  lemma SplitLine(l: string, rest: string)
    requires NoLF(l)
    ensures Split(l + "\n" + rest) == [l] + Split(rest)
  {
    IndexOfLine(l, rest);
    var s := l + "\n" + rest;
    assert s[..|l|] == l && s[|l| + 1..] == rest;
  }

  lemma SplitLast(l: string)
    requires NoLF(l)
    ensures Split(l) == [l]
  {
    assert forall j | 0 <= j < |l| :: l[j] in l;
  }

  lemma {:induction false} SplitCat(ls: seq<string>, rest: string)
    requires NoLFs(ls)
    ensures Split(Cat(ls) + rest) == ls + Split(rest)
  {
    hide Split, NoLF;
    if ls == [] {
      assert "" + rest == rest;
    } else {
      assert NoLFs(ls[1..]);
      assert ls[0] + "\n" + Cat(ls[1..]) + rest == ls[0] + "\n" + (Cat(ls[1..]) + rest);
      SplitLine(ls[0], Cat(ls[1..]) + rest);
      SplitCat(ls[1..], rest);
      Assoc([ls[0]], ls[1..], Split(rest));
      HeadTail(ls);
    }
  }

  lemma {:induction false} SplitHasNoLF(s: string)
    ensures NoLFs(Split(s))
    decreases |s|
  {
    var i := IndexLF(s);
    if i < |s| {
      SplitHasNoLF(s[i + 1..]);
      assert NoLF(s[..i]);
    } else {
      assert s[..i] == s;
      assert NoLF(s[..i]);
    }
  }

  lemma JoinCons(l: string, ls: seq<string>)
    requires ls != []
    ensures Join([l] + ls) == l + "\n" + Join(ls)
  {
    assert ([l] + ls)[1..] == ls;
  }

  lemma {:induction false} JoinSplit(s: string)
    ensures Join(Split(s)) == s
    decreases |s|
  {
    hide Join, IndexLF;
    var i := IndexLF(s);
    if i < |s| {
      JoinSplit(s[i + 1..]);
      JoinCons(s[..i], Split(s[i + 1..]));
      assert s == s[..i] + "\n" + s[i + 1..];
    } else {
      JoinOne(s);
    }
  }

  lemma JoinOne(l: string)
    ensures Join([l]) == l
  {
  }

  lemma {:induction false} SplitJoin(ls: seq<string>)
    requires ls != [] && NoLFs(ls)
    ensures Split(Join(ls)) == ls
  {
    hide Split, NoLF;
    HeadTail(ls);
    if |ls| == 1 {
      SplitLast(ls[0]);
    } else {
      SplitLine(ls[0], Join(ls[1..]));
      assert NoLFs(ls[1..]);
      SplitJoin(ls[1..]);
    }
  }

  // ---- ParseSSEEvent ----

  /** What the lines of a block have set so far. */
  datatype Fields = Fields(typ: string, data: seq<string>, id: string)

  function IndexColon(s: string): (i: nat)
    ensures i <= |s|
  {
    if s == "" || s[0] == ':' then 0 else 1 + IndexColon(s[1..])
  }

  /** The text after the first colon, less one leading space. */
  function ValueOf(line: string): string {
    var i := IndexColon(line);
    var v := if i < |line| then line[i + 1..] else "";
    if v != "" && v[0] == ' ' then v[1..] else v
  }

  function ParseLine(f: Fields, line: string): Fields {
    if line == "" || line[0] == ':' then f
    else
      var name := TrimSpace(line[..IndexColon(line)]);
      if name == "event" then f.(typ := ValueOf(line))
      else if name == "data" then f.(data := f.data + [ValueOf(line)])
      else if name == "id" then f.(id := ValueOf(line))
      else f
  }

  function ParseLines(f: Fields, ls: seq<string>): Fields
    decreases |ls|
  {
    if ls == [] then f else ParseLines(ParseLine(f, ls[0]), ls[1..])
  }

  const NOTHING := Fields("", [], "")

  function EventOf(f: Fields): Event { Event(f.typ, Join(f.data), f.id) }

  function ParseBlock(block: string): Event { EventOf(ParseLines(NOTHING, Split(block))) }

  method ParseSSEEvent(block: string) returns (ev: Event)
    ensures ev == ParseBlock(block)
  {
    var lines := Split(block);
    var f := NOTHING;
    assert lines[0..] == lines;
    for i := 0 to |lines|
      invariant ParseLines(NOTHING, lines) == ParseLines(f, lines[i..])
    {
      assert lines[i..][0] == lines[i] && lines[i..][1..] == lines[i + 1..];
      f := ParseLine(f, lines[i]);
    }
    ev := EventOf(f);
  }

  // ---- The read loop ----

  datatype Reader = Reader(block: string, events: seq<Event>, stopped: bool)

  /** maxEvents <= 0 means no limit; more is what yield answers; cancel is the line, counted
      from 0, after which the context is found done, provided that line is not empty. */
  datatype Limits = Limits(maxEvents: int, more: Event -> bool, cancel: Option<nat>)

  function NoLimit(): Limits { Limits(0, _ => true, None) }

  /** strings.TrimRight(line, "\r\n") */
  function TrimRight(s: string): (t: string)
    ensures t <= s && (t != "" ==> t[|t| - 1] !in "\r\n") && forall i | |t| <= i < |s| :: s[i] in "\r\n"
  {
    if s != "" && (s[|s| - 1] == '\r' || s[|s| - 1] == '\n') then TrimRight(s[..|s| - 1]) else s
  }

  function Flush(r: Reader, lim: Limits): Reader {
    if r.block == "" then r
    else
      var ev := ParseBlock(r.block);
      if ev == Event("", "", "") then r.(block := "")
      else if lim.maxEvents > 0 && |r.events| >= lim.maxEvents then Reader("", r.events, true)
      else Reader("", r.events + [ev], !lim.more(ev))
  }

  function Feed(r: Reader, line: string, lim: Limits): Reader {
    if r.stopped then r
    else
      var l := TrimRight(line);
      if l == "" then Flush(r, lim) else r.(block := Grown(r.block, l))
  }

  /** The block with one more line; a block grown too large is dropped. */
  function Grown(block: string, l: string): string {
    var b := block + l + "\n";
    if |b| > MAX_BLOCK then "" else b
  }

  function FeedAll(r: Reader, ls: seq<string>, lim: Limits): Reader
    decreases |ls|
  {
    if ls == [] then r else FeedAll(Feed(r, ls[0], lim), ls[1..], lim)
  }

  /** At end of input a block that was not closed by an empty line still counts. */
  function Finish(r: Reader): seq<Event> {
    if r.stopped || r.block == "" then r.events
    else
      var ev := ParseBlock(r.block);
      if ev.data != "" || ev.typ != "" then r.events + [ev] else r.events
  }

  const START := Reader("", [], false)

  /** A line that is not ended by a line feed is never seen. */
  function Lines(body: string): seq<string> {
    var ls := Split(body);
    ls[..|ls| - 1]
  }

  predicate Cancelled(ls: seq<string>, cancel: Option<nat>) {
    cancel.Some? && cancel.value < |ls| && TrimRight(ls[cancel.value]) != ""
  }

  /** A cancelled read drops the block it is in. */
  function EventsOf(body: string, lim: Limits): seq<Event> {
    var ls := Lines(body);
    if Cancelled(ls, lim.cancel) then FeedAll(START, ls[..lim.cancel.value + 1], lim).events
    else Finish(FeedAll(START, ls, lim))
  }

  /** The flush closure. */
  method FlushBlock(r: Reader, lim: Limits) returns (next: Reader)
    ensures next == Flush(r, lim)
  {
    hide ParseBlock;
    if r.block == "" { return r; }
    var ev := ParseSSEEvent(r.block);
    if ev == Event("", "", "") { return r.(block := ""); }
    if lim.maxEvents > 0 && |r.events| >= lim.maxEvents { return Reader("", r.events, true); }
    next := Reader("", r.events + [ev], !lim.more(ev));
  }

  /** The context's error is returned for a read that was cancelled before it stopped. */
  ghost predicate EndsCancelled(body: string, lim: Limits) {
    var ls := Lines(body);
    Cancelled(ls, lim.cancel) && !FeedAll(START, ls[..lim.cancel.value + 1], lim).stopped
  }

  method DialSSE(body: string, lim: Limits) returns (events: seq<Event>, cancelled: bool)
    ensures events == EventsOf(body, lim) && cancelled == EndsCancelled(body, lim)
  {
    hide ParseBlock, TrimRight, Split, FeedAll, Flush, Grown;
    var lines := Lines(body);
    var r := START;
    FeedNone(START, lim);
    assert lines[..0] == [];
    for i := 0 to |lines|
      invariant !r.stopped && r == FeedAll(START, lines[..i], lim)
      invariant Cancelled(lines, lim.cancel) ==> lim.cancel.value >= i
    {
      FeedNext(START, lines, i, lim);
      var line := TrimRight(lines[i]);
      if line == "" {
        r := FlushBlock(r, lim);
        if r.stopped {
          StoppedStays(START, lines, i + 1, |lines|, lim);
          if Cancelled(lines, lim.cancel) { StoppedStays(START, lines, i + 1, lim.cancel.value + 1, lim); }
          assert lines[..|lines|] == lines;
          return r.events, false;
        }
      } else {
        r := r.(block := Grown(r.block, line));
        if lim.cancel == Some(i) { return r.events, true; }
      }
    }
    assert lines[..|lines|] == lines;
    events, cancelled := r.events, false;
    if r.block != "" {
      var ev := ParseSSEEvent(r.block);
      if ev.data != "" || ev.typ != "" { events := events + [ev]; }
    }
  }

  lemma FeedNone(r: Reader, lim: Limits)
    ensures FeedAll(r, [], lim) == r
  {
  }

  lemma {:induction false} FeedAllAppend(r: Reader, a: seq<string>, b: seq<string>, lim: Limits)
    ensures FeedAll(r, a + b, lim) == FeedAll(FeedAll(r, a, lim), b, lim)
    decreases |a|
  {
    if a == [] {
      assert a + b == b;
    } else {
      hide Feed;
      assert (a + b)[0] == a[0] && (a + b)[1..] == a[1..] + b;
      FeedAllAppend(Feed(r, a[0], lim), a[1..], b, lim);
    }
  }

  lemma FeedNext(r: Reader, ls: seq<string>, i: nat, lim: Limits)
    requires i < |ls|
    ensures FeedAll(r, ls[..i + 1], lim) == Feed(FeedAll(r, ls[..i], lim), ls[i], lim)
  {
    TakeNext(ls, i);
    FeedAllAppend(r, ls[..i], [ls[i]], lim);
    hide Feed;
    var s := FeedAll(r, ls[..i], lim);
    assert [ls[i]][1..] == [];
    assert FeedAll(s, [ls[i]], lim) == Feed(s, ls[i], lim);
  }

  lemma {:induction false} StoppedStays(r: Reader, ls: seq<string>, i: nat, n: nat, lim: Limits)
    requires i <= n <= |ls| && FeedAll(r, ls[..i], lim).stopped
    ensures FeedAll(r, ls[..n], lim) == FeedAll(r, ls[..i], lim)
    decreases n
  {
    if i < n {
      StoppedStays(r, ls, i, n - 1, lim);
      FeedNext(r, ls, n - 1, lim);
      hide FeedAll;
    }
  }

  // ---- What limits do ----

  /** Reading goes on from one reader to the other. */
  ghost predicate Ahead(r: Reader, s: Reader) { r.events <= s.events }

  lemma FeedGrows(r: Reader, l: string, lim: Limits)
    ensures Ahead(r, Feed(r, l, lim))
  {
    hide ParseBlock, TrimRight, Grown;
  }

  lemma {:induction false} FeedAllGrows(r: Reader, ls: seq<string>, n: nat, lim: Limits)
    requires n <= |ls|
    ensures Ahead(FeedAll(r, ls[..n], lim), FeedAll(r, ls, lim))
    decreases |ls|
  {
    if n == |ls| {
      assert ls[..n] == ls;
    } else {
      var m := |ls| - 1;
      assert ls[..m][..n] == ls[..n] && ls[..m + 1] == ls;
      FeedAllGrows(r, ls[..m], n, lim);
      FeedNext(r, ls, m, lim);
      FeedGrows(FeedAll(r, ls[..m], lim), ls[m], lim);
      hide FeedAll, Feed;
    }
  }

  ghost predicate AllButLast(lim: Limits, es: seq<Event>) {
    forall i | 0 <= i < |es| - 1 :: lim.more(es[i])
  }

  /** r, read under limits, against s, read without: the same as long as r goes on, every
      event accepted; behind once r has stopped. */
  ghost predicate Behind(r: Reader, s: Reader, lim: Limits) {
    && !s.stopped && Ahead(r, s) && AllButLast(lim, r.events)
    && (!r.stopped ==> r == s && forall e | e in r.events :: lim.more(e))
  }

  lemma FeedStaysBehind(r: Reader, s: Reader, l: string, lim: Limits)
    requires Behind(r, s, lim)
    ensures Behind(Feed(r, l, lim), Feed(s, l, NoLimit()), lim)
  {
    FeedGrows(s, l, NoLimit());
    hide ParseBlock, TrimRight, Grown;
  }

  lemma {:induction false} FeedAllStaysBehind(ls: seq<string>, lim: Limits)
    ensures Behind(FeedAll(START, ls, lim), FeedAll(START, ls, NoLimit()), lim)
    decreases |ls|
  {
    if ls != [] {
      var m := |ls| - 1;
      assert ls[..m + 1] == ls;
      FeedAllStaysBehind(ls[..m], lim);
      FeedNext(START, ls, m, lim);
      FeedNext(START, ls, m, NoLimit());
      FeedStaysBehind(FeedAll(START, ls[..m], lim), FeedAll(START, ls[..m], NoLimit()), ls[m], lim);
      hide FeedAll, Feed, Behind;
    }
  }

  /** Whatever stops the read, it has yielded the beginning of what would have come without,
      and at most its last event was refused. */
  lemma LimitsGivePrefix(body: string, lim: Limits)
    ensures EventsOf(body, lim) <= EventsOf(body, NoLimit()) && AllButLast(lim, EventsOf(body, lim))
  {
    var ls := Lines(body);
    FeedAllStaysBehind(ls, lim);
    if Cancelled(ls, lim.cancel) {
      var n := lim.cancel.value + 1;
      FeedAllStaysBehind(ls[..n], lim);
      FeedAllGrows(START, ls, n, NoLimit());
    }
    hide FeedAll, Lines, ParseBlock, TrimRight;
  }

  function MaxOnly(n: nat): Limits { Limits(n, _ => true, None) }

  /** The events closed by an empty line. */
  function Closed(body: string): seq<Event> { FeedAll(START, Lines(body), NoLimit()).events }

  ghost predicate Capped(r: Reader, s: Reader, n: nat) {
    && !s.stopped
    && if |s.events| <= n then r == s else r.stopped && r.events == s.events[..n]
  }

  lemma FeedStaysCapped(r: Reader, s: Reader, l: string, n: nat)
    requires Capped(r, s, n) && n > 0
    ensures Capped(Feed(r, l, MaxOnly(n)), Feed(s, l, NoLimit()), n)
  {
    hide ParseBlock, TrimRight, Grown;
  }

  lemma {:induction false} FeedAllStaysCapped(ls: seq<string>, n: nat)
    requires n > 0
    ensures Capped(FeedAll(START, ls, MaxOnly(n)), FeedAll(START, ls, NoLimit()), n)
    decreases |ls|
  {
    if ls != [] {
      var m := |ls| - 1;
      assert ls[..m + 1] == ls;
      FeedAllStaysCapped(ls[..m], n);
      FeedNext(START, ls, m, MaxOnly(n));
      FeedNext(START, ls, m, NoLimit());
      FeedStaysCapped(FeedAll(START, ls[..m], MaxOnly(n)), FeedAll(START, ls[..m], NoLimit()), ls[m], n);
      hide FeedAll, Feed, Capped;
    }
  }

  /** A limit of n events cuts off after n when more than n events are closed, and otherwise
      changes nothing: an event left open at the end then still comes, as one too many when
      exactly n were closed. */
  lemma LimitedEvents(body: string, n: nat)
    requires n > 0
    ensures EventsOf(body, MaxOnly(n))
         == if |Closed(body)| > n then EventsOf(body, NoLimit())[..n] else EventsOf(body, NoLimit())
    ensures |EventsOf(body, MaxOnly(n))| <= n
       <==> |Closed(body)| != n || EventsOf(body, NoLimit()) == Closed(body)
  {
    FeedAllStaysCapped(Lines(body), n);
    hide FeedAll, Lines, ParseBlock;
  }

  // ---- The relay's printer ----

  function DataLines(ls: seq<string>): seq<string> {
    if ls == [] then [] else ["data: " + ls[0]] + DataLines(ls[1..])
  }

  function Heads(e: Event): seq<string> {
    (if e.typ != "" then ["event: " + e.typ] else []) + (if e.id != "" then ["id: " + e.id] else [])
  }

  function PrintLines(e: Event): seq<string> { Heads(e) + DataLines(Split(e.data)) }

  function Print(e: Event): string { Cat(PrintLines(e)) + "\n" }

  function PrintAll(es: seq<Event>): string {
    if es == [] then "" else Print(es[0]) + PrintAll(es[1..])
  }

  lemma {:induction false} CatSnoc(ls: seq<string>, l: string)
    ensures Cat(ls + [l]) == Cat(ls) + (l + "\n")
  {
    if ls == [] {
      assert [] + [l] == [l] && Cat([]) == "";
    } else {
      assert (ls + [l])[1..] == ls[1..] + [l];
      CatSnoc(ls[1..], l);
    }
  }

  lemma {:induction false} DataLinesSnoc(ls: seq<string>, l: string)
    ensures DataLines(ls + [l]) == DataLines(ls) + ["data: " + l]
  {
    if ls != [] {
      assert (ls + [l])[1..] == ls[1..] + [l];
      DataLinesSnoc(ls[1..], l);
    }
  }

  /** Only the data is redacted. */
  function MaskedEvent(values: seq<string>, e: Event): Event
    requires "" !in values
  {
    e.(data := Masked(values, e.data))
  }

  /** The callback that writes one event to the browser. */
  method WriteEvent(redactor: Redactor, e: Event) returns (w: string)
    requires redactor.Valid()
    ensures w == Print(MaskedEvent(redactor.values, e))
  {
    hide Split, Masked;
    var red := redactor.Text(e.data);
    w := "";
    ghost var out: seq<string> := [];
    if e.typ != "" {
      CatSnoc(out, "event: " + e.typ);
      w, out := w + ("event: " + e.typ + "\n"), out + ["event: " + e.typ];
    }
    if e.id != "" {
      CatSnoc(out, "id: " + e.id);
      w, out := w + ("id: " + e.id + "\n"), out + ["id: " + e.id];
    }
    assert out == Heads(e) && w == Cat(out);
    var lines := Split(red);
    assert out + DataLines(lines[..0]) == out;
    hide Cat, DataLines, Heads;
    for i := 0 to |lines|
      invariant w == Cat(out + DataLines(lines[..i]))
    {
      TakeNext(lines, i);
      DataLinesSnoc(lines[..i], lines[i]);
      Assoc(out, DataLines(lines[..i]), ["data: " + lines[i]]);
      CatSnoc(out + DataLines(lines[..i]), "data: " + lines[i]);
      w := w + ("data: " + lines[i] + "\n");
    }
    assert lines[..|lines|] == lines;
    w := w + "\n";
  }

  // ---- What the reader can produce ----

  /** No line feed, and no carriage return at the end. */
  ghost predicate Clean(v: string) {
    NoLF(v) && (v != "" ==> v[|v| - 1] != '\r')
  }

  ghost predicate AllClean(ls: seq<string>) { forall l | l in ls :: Clean(l) }

  /** An event that sets something and whose every line survives TrimRight. */
  ghost predicate Expressible(e: Event) {
    Clean(e.typ) && Clean(e.id) && AllClean(Split(e.data)) && e != Event("", "", "")
  }

  ghost predicate CleanFields(f: Fields) { Clean(f.typ) && Clean(f.id) && AllClean(f.data) }

  lemma SuffixIsClean(l: string, i: nat)
    requires Clean(l) && i <= |l|
    ensures Clean(l[i..])
  {
    assert forall c | c in l[i..] :: c in l;
  }

  lemma ValueIsClean(l: string)
    requires Clean(l)
    ensures Clean(ValueOf(l))
  {
    var i := IndexColon(l);
    if i < |l| {
      SuffixIsClean(l, i + 1);
      var v := l[i + 1..];
      if v != "" { SuffixIsClean(v, 1); }
    }
  }

  lemma {:induction false} ParsedIsClean(f: Fields, ls: seq<string>)
    requires CleanFields(f) && AllClean(ls)
    ensures CleanFields(ParseLines(f, ls))
    decreases |ls|
  {
    if ls != [] {
      ValueIsClean(ls[0]);
      hide ValueOf, Clean, TrimSpace;
      assert CleanFields(ParseLine(f, ls[0]));
      ParsedIsClean(ParseLine(f, ls[0]), ls[1..]);
    }
  }

  lemma ParseBlockOfCat(ls: seq<string>)
    requires AllClean(ls)
    ensures ParseBlock(Cat(ls)) == EventOf(ParseLines(NOTHING, ls + [""]))
  {
    SplitCat(ls, "");
    SplitLast("");
    assert Cat(ls) + "" == Cat(ls);
  }

  /** An event read from clean lines is expressible again, unless it sets nothing. */
  lemma EventIsExpressible(ls: seq<string>)
    requires AllClean(ls) && ParseBlock(Cat(ls)) != Event("", "", "")
    ensures Expressible(ParseBlock(Cat(ls)))
  {
    ParseBlockOfCat(ls);
    assert AllClean(ls + [""]);
    ParsedIsClean(NOTHING, ls + [""]);
    var f := ParseLines(NOTHING, ls + [""]);
    hide ParseBlock, ParseLines;
    if f.data == [] {
      SplitLast("");
    } else {
      assert NoLFs(f.data);
      SplitJoin(f.data);
    }
  }

  ghost predicate Sane(r: Reader) {
    && (exists ls :: AllClean(ls) && r.block == Cat(ls))
    && forall e | e in r.events :: Expressible(e)
  }

  lemma TrimIsClean(l: string)
    requires NoLF(l)
    ensures Clean(TrimRight(l))
  {
    var t := TrimRight(l);
    assert forall c | c in t :: c in l;
  }

  lemma FeedIsSane(r: Reader, line: string)
    requires Sane(r) && NoLF(line)
    ensures Sane(Feed(r, line, NoLimit()))
  {
    var ls :| AllClean(ls) && r.block == Cat(ls);
    TrimIsClean(line);
    var l := TrimRight(line);
    hide Expressible, Clean, ParseBlock, TrimRight;
    assert AllClean([]) && Cat([]) == "";
    if l == "" {
      if r.block != "" && ParseBlock(r.block) != Event("", "", "") { EventIsExpressible(ls); }
    } else {
      CatSnoc(ls, l);
      assert AllClean(ls + [l]) && r.block + l + "\n" == Cat(ls + [l]);
    }
  }

  lemma {:induction false} FeedAllIsSane(r: Reader, ls: seq<string>)
    requires Sane(r) && NoLFs(ls)
    ensures Sane(FeedAll(r, ls, NoLimit()))
    decreases |ls|
  {
    if ls != [] {
      FeedIsSane(r, ls[0]);
      hide Sane, Feed;
      assert NoLFs(ls[1..]);
      FeedAllIsSane(Feed(r, ls[0], NoLimit()), ls[1..]);
    }
  }

  /** Whatever the body, every event read from it is expressible. */
  lemma ReadIsExpressible(body: string)
    ensures forall e | e in EventsOf(body, NoLimit()) :: Expressible(e)
  {
    var ls := Split(body);
    SplitHasNoLF(body);
    assert AllClean([]) && Cat([]) == "";
    assert NoLFs(ls[..|ls| - 1]);
    FeedAllIsSane(START, ls[..|ls| - 1]);
    var r := FeedAll(START, ls[..|ls| - 1], NoLimit());
    hide FeedAll, Expressible, Split, ParseBlock, Clean;
    var xs :| AllClean(xs) && r.block == Cat(xs);
    if r.block != "" && ParseBlock(r.block) != Event("", "", "") { EventIsExpressible(xs); }
  }

  // ---- Reading back what was printed ----

  ghost predicate Plain(ls: seq<string>) { forall l | l in ls :: Clean(l) && l != "" }

  lemma TrimKeepsClean(l: string)
    requires Clean(l)
    ensures TrimRight(l) == l
  {
    if l != "" { assert l[|l| - 1] in l; }
  }

  ghost predicate HoldsFrom(es: seq<Event>, ls: seq<string>, k: nat) {
    && k <= |ls| && FeedAll(Reader("", es, false), ls, NoLimit()) == Reader(Cat(ls[k..]), es, false)
    && (k == 0 <==> |Cat(ls)| <= MAX_BLOCK)
  }

  lemma BlockStep(es: seq<Event>, init: seq<string>, l: string, k: nat)
    requires HoldsFrom(es, init, k) && Clean(l) && l != ""
    ensures HoldsFrom(es, init + [l], if |Cat((init + [l])[k..])| > MAX_BLOCK then |init| + 1 else k)
  {
    hide Clean, TrimRight;
    var ls := init + [l];
    TrimKeepsClean(l);
    FeedAllAppend(Reader("", es, false), init, [l], NoLimit());
    CatSnoc(init, l);
    assert ls[k..] == init[k..] + [l];
    CatSnoc(init[k..], l);
    CatSuffixIsShorter(ls, k);
    FeedOne(Cat(init[k..]), es, l);
    CatNil();
    assert ls[|ls|..] == [];
    if k == 0 { assert ls[k..] == ls; }
    hide Cat, FeedAll;
  }

  /** After lines with no empty one the block holds those since the last time it grew too
      big: all of them exactly when they fit. */
  lemma {:induction false} BlockAfter(es: seq<Event>, ls: seq<string>) returns (k: nat)
    requires Plain(ls)
    ensures HoldsFrom(es, ls, k)
  {
    if ls == [] {
      k := 0;
    } else {
      var init, l := ls[..|ls| - 1], ls[|ls| - 1];
      assert Plain(init) && Clean(l) && l != "";
      assert ls == init + [l];
      hide Plain, Clean, HoldsFrom;
      k := BlockAfter(es, init);
      BlockStep(es, init, l, k);
      k := if |Cat(ls[k..])| > MAX_BLOCK then |ls| else k;
    }
  }

  lemma CatNil()
    ensures Cat([]) == ""
  {
  }

  lemma {:induction false} CatSuffixIsShorter(ls: seq<string>, k: nat)
    requires k <= |ls|
    ensures |Cat(ls[k..])| <= |Cat(ls)|
  {
    if k > 0 {
      assert ls[1..][k - 1..] == ls[k..];
      CatSuffixIsShorter(ls[1..], k - 1);
    } else {
      assert ls[0..] == ls;
    }
  }

  lemma FeedOne(block: string, es: seq<Event>, l: string)
    requires TrimRight(l) == l != ""
    ensures var b := block + (l + "\n");
            FeedAll(Reader(block, es, false), [l], NoLimit()) == Reader(if |b| > MAX_BLOCK then "" else b, es, false)
  {
    hide TrimRight, Flush;
    Assoc(block, l, "\n");
    assert [l][1..] == [];
  }

  // ---- Parsing printed lines ----

  lemma FieldOf(name: string, v: string)
    requires name == "event" || name == "data" || name == "id"
    ensures var l := name + ": " + v;
            IndexColon(l) == |name| && TrimSpace(l[..IndexColon(l)]) == name && ValueOf(l) == v && l[0] != ':'
  {
    var l := name + ": " + v;
    assert l[..|name|] == name && l[|name| + 1..] == " " + v;
    ColonAt(name, " " + v);
    assert l == name + ":" + (" " + v);
    NothingToTrim(name);
    hide TrimSpace;
  }

  lemma {:induction false} ColonAt(name: string, rest: string)
    requires ':' !in name
    ensures IndexColon(name + ":" + rest) == |name|
  {
    var s := name + ":" + rest;
    if name != "" {
      assert s[0] == name[0] && name[0] in name && s[1..] == name[1..] + ":" + rest;
      ColonAt(name[1..], rest);
    }
  }

  lemma {:induction false} ParseDataLines(f: Fields, ls: seq<string>)
    ensures ParseLines(f, DataLines(ls)) == f.(data := f.data + ls)
    decreases |ls|
  {
    if ls == [] {
      assert f.data + [] == f.data;
    } else {
      FieldOf("data", ls[0]);
      hide ValueOf, TrimSpace, IndexColon;
      assert "data" + ": " + ls[0] == "data: " + ls[0];
      var f' := f.(data := f.data + [ls[0]]);
      assert ParseLine(f, "data: " + ls[0]) == f';
      assert DataLines(ls)[1..] == DataLines(ls[1..]);
      ParseDataLines(f', ls[1..]);
      Assoc(f.data, [ls[0]], ls[1..]);
      HeadTail(ls);
    }
  }

  lemma ParseHead(f: Fields, name: string, v: string, rest: seq<string>)
    requires name == "event" || name == "id"
    ensures ParseLines(f, [name + ": " + v] + rest)
         == ParseLines(if name == "event" then f.(typ := v) else f.(id := v), rest)
  {
    FieldOf(name, v);
    hide ValueOf, TrimSpace, IndexColon;
    assert ([name + ": " + v] + rest)[1..] == rest;
  }

  /** What the head lines from the k-th on set. */
  function HeadFields(e: Event, k: nat): Fields {
    Fields(if k == 0 then e.typ else "", [],
           if k == 0 || (k == 1 && e.typ != "" && e.id != "") then e.id else "")
  }

  lemma ParseHeads(e: Event, k: nat, d: seq<string>)
    requires k <= |Heads(e)|
    ensures ParseLines(NOTHING, Heads(e)[k..] + d) == ParseLines(HeadFields(e, k), d)
  {
    hide ParseLines;
    var t, i := "event: " + e.typ, "id: " + e.id;
    assert "event" + ": " + e.typ == t && "id" + ": " + e.id == i;
    assert [] + d == d;
    if k == 0 && e.typ != "" {
      ParseHead(NOTHING, "event", e.typ, Heads(e)[1..] + d);
      assert Heads(e)[0..] + d == [t] + (Heads(e)[1..] + d);
      if e.id != "" {
        assert Heads(e)[1..] == [i];
        ParseHead(Fields(e.typ, [], ""), "id", e.id, d);
      } else {
        assert Heads(e)[1..] == [];
      }
    } else if e.id != "" && k < |Heads(e)| {
      assert Heads(e)[k..] == [i];
      ParseHead(NOTHING, "id", e.id, d);
    } else {
      assert Heads(e)[k..] == [];
    }
  }

  lemma ParseFrom(e: Event, k: nat, ls: seq<string>)
    requires k <= |Heads(e)|
    ensures ParseLines(NOTHING, Heads(e)[k..] + DataLines(ls)) == HeadFields(e, k).(data := ls)
  {
    hide ParseLines, DataLines, Heads;
    ParseHeads(e, k, DataLines(ls));
    ParseDataLines(HeadFields(e, k), ls);
    assert [] + ls == ls;
  }

  lemma {:induction false} DataLinesFrom(ls: seq<string>, k: nat)
    requires k <= |ls|
    ensures |DataLines(ls)| == |ls| && DataLines(ls)[k..] == DataLines(ls[k..])
  {
    if k > 0 {
      DataLinesFrom(ls[1..], k - 1);
      assert DataLines(ls)[k..] == DataLines(ls[1..])[k - 1..] && ls[1..][k - 1..] == ls[k..];
    } else if ls != [] {
      DataLinesFrom(ls[1..], 0);
      assert DataLines(ls)[0..] == DataLines(ls) && ls[0..] == ls;
    }
  }

  lemma ParseEmptyTail(f: Fields, ls: seq<string>)
    ensures ParseLines(f, ls + [""]) == ParseLines(f, ls)
    decreases |ls|
  {
    if ls == [] {
      assert [] + [""] == [""] && [""][1..] == [];
    } else {
      assert (ls + [""])[0] == ls[0] && (ls + [""])[1..] == ls[1..] + [""];
      ParseEmptyTail(ParseLine(f, ls[0]), ls[1..]);
    }
  }

  /** Parsing what is left of an event's printed lines gives the event back only when
      none is missing. */
  lemma ParseRemainder(e: Event, k: nat)
    requires Expressible(e) && k < |PrintLines(e)|
    ensures EventOf(ParseLines(NOTHING, PrintLines(e)[k..])) == e <==> k == 0
  {
    var h, ls := |Heads(e)|, Split(e.data);
    hide ParseLines, Heads, Split, Join;
    JoinSplit(e.data);
    DataLinesFrom(ls, 0);
    if k <= h {
      assert PrintLines(e)[k..] == Heads(e)[k..] + DataLines(ls);
      ParseFrom(e, k, ls);
      HeadsMissing(e, k);
    } else {
      var m := k - h;
      DataLinesFrom(ls, m);
      assert PrintLines(e)[k..] == DataLines(ls)[m..];
      ParseDataLines(NOTHING, ls[m..]);
      assert [] + ls[m..] == ls[m..];
      SplitHasNoLF(e.data);
      assert NoLFs(ls[m..]);
      SplitJoin(ls[m..]);
      assert |ls[m..]| < |ls|;
    }
  }

  lemma HeadsMissing(e: Event, k: nat)
    requires k <= |Heads(e)|
    ensures k > 0 ==> e.typ != "" || (k == 1 && e.id != "")
  {
  }

  // ---- One event, then many ----

  ghost predicate Fits(e: Event) { |Cat(PrintLines(e))| <= MAX_BLOCK }

  lemma {:induction false} DataLinesPlain(ls: seq<string>)
    requires AllClean(ls)
    ensures Plain(DataLines(ls))
  {
    if ls != [] {
      DataLinesPlain(ls[1..]);
      PrefixedIsClean("data: ", ls[0]);
    }
  }

  lemma PrefixedIsClean(p: string, v: string)
    requires Clean(v) && NoLF(p) && p != "" && p[|p| - 1] == ' '
    ensures Clean(p + v) && p + v != ""
  {
  }

  lemma PrintLinesPlain(e: Event)
    requires Expressible(e)
    ensures Plain(PrintLines(e)) && PrintLines(e) != []
  {
    DataLinesPlain(Split(e.data));
    DataLinesFrom(Split(e.data), 0);
    PrefixedIsClean("event: ", e.typ);
    PrefixedIsClean("id: ", e.id);
  }

  /** Reading one printed event from an empty block yields that event if it fits, and
      otherwise at most one other event. */
  lemma ReadOne(e: Event, es: seq<Event>) returns (out: seq<Event>)
    requires Expressible(e)
    ensures FeedAll(Reader("", es, false), PrintLines(e) + [""], NoLimit()) == Reader("", es + out, false)
    ensures |out| <= 1 && (out == [e] <==> Fits(e))
  {
    var ls := PrintLines(e);
    PrintLinesPlain(e);
    var k := BlockAfter(es, ls);
    FeedAllAppend(Reader("", es, false), ls, [""], NoLimit());
    assert AllClean(ls[k..]) by {
      assert forall l | l in ls[k..] :: l in ls;
    }
    ParseBlockOfCat(ls[k..]);
    ParseEmptyTail(NOTHING, ls[k..]);
    if k < |ls| { ParseRemainder(e, k); }
    hide Plain, Clean, Expressible, PrintLines, ParseBlock, ParseLines;
    out := FlushResult(Cat(ls[k..]), es);
    CatNil();
    if k < |ls| { CatNonEmpty(ls[k..]); }
  }

  lemma CatNonEmpty(ls: seq<string>)
    requires ls != []
    ensures Cat(ls) != ""
  {
  }

  lemma FlushResult(block: string, es: seq<Event>) returns (out: seq<Event>)
    ensures FeedAll(Reader(block, es, false), [""], NoLimit()) == Reader("", es + out, false)
    ensures out == if block == "" || ParseBlock(block) == Event("", "", "") then [] else [ParseBlock(block)]
  {
    hide ParseBlock;
    out := if block == "" || ParseBlock(block) == Event("", "", "") then [] else [ParseBlock(block)];
    assert [""][1..] == [] && TrimRight("") == "" && es + [] == es;
  }

  function AllLines(es: seq<Event>): seq<string> {
    if es == [] then [] else PrintLines(es[0]) + [""] + AllLines(es[1..])
  }

  lemma {:induction false} ReadMany(es: seq<Event>, before: seq<Event>) returns (out: seq<Event>)
    requires forall e | e in es :: Expressible(e)
    ensures FeedAll(Reader("", before, false), AllLines(es), NoLimit()) == Reader("", before + out, false)
    ensures |out| <= |es| && (out == es <==> forall e | e in es :: Fits(e))
  {
    if es == [] {
      out := [];
      assert before + [] == before;
    } else {
      var e, tail := es[0], es[1..];
      hide Expressible, Fits, PrintLines, Feed;
      var out1 := ReadOne(e, before);
      var out2 := ReadMany(tail, before + out1);
      FeedAllAppend(Reader("", before, false), PrintLines(e) + [""], AllLines(tail), NoLimit());
      hide FeedAll;
      out := out1 + out2;
      Assoc(before, out1, out2);
      HeadTail(es);
      SplitOutcome(e, tail, out1, out2);
      assert (forall x | x in es :: Fits(x)) <==> Fits(e) && forall x | x in tail :: Fits(x);
    }
  }

  lemma SplitOutcome(e: Event, tail: seq<Event>, out1: seq<Event>, out2: seq<Event>)
    requires |out1| <= 1 && |out2| <= |tail|
    ensures out1 + out2 == [e] + tail <==> out1 == [e] && out2 == tail
  {
    if out1 + out2 == [e] + tail {
      assert |out1 + out2| == 1 + |tail|;
      assert (out1 + out2)[..1] == out1 && ([e] + tail)[..1] == [e];
      assert (out1 + out2)[1..] == out2 && ([e] + tail)[1..] == tail;
    }
  }

  lemma {:induction false} CatAppend(a: seq<string>, b: seq<string>)
    ensures Cat(a + b) == Cat(a) + Cat(b)
  {
    if a == [] {
      assert [] + b == b && "" + Cat(b) == Cat(b);
    } else {
      assert (a + b)[0] == a[0] && (a + b)[1..] == a[1..] + b;
      CatAppend(a[1..], b);
      Assoc(a[0] + "\n", Cat(a[1..]), Cat(b));
    }
  }

  lemma {:induction false} PrintAllIsCat(es: seq<Event>)
    requires forall e | e in es :: Expressible(e)
    ensures PrintAll(es) == Cat(AllLines(es)) && NoLFs(AllLines(es))
  {
    if es != [] {
      var e, tail := es[0], es[1..];
      PrintAllIsCat(tail);
      PrintLinesPlain(e);
      CatSnoc(PrintLines(e), "");
      assert "" + "\n" == "\n";
      CatAppend(PrintLines(e) + [""], AllLines(tail));
      hide PrintLines, Cat, Expressible;
    }
  }

  lemma ReadPrinted(es: seq<Event>)
    requires forall e | e in es :: Expressible(e)
    ensures EventsOf(PrintAll(es), NoLimit()) == es <==> forall e | e in es :: Fits(e)
  {
    PrintAllIsCat(es);
    var ls := AllLines(es);
    SplitCat(ls, "");
    SplitLast("");
    assert Cat(ls) + "" == Cat(ls);
    assert (ls + [""])[..|ls|] == ls;
    var out := ReadMany(es, []);
    assert [] + out == out;
    hide Expressible, Fits, FeedAll, Split, PrintAll;
  }

  lemma LinesOfCat(ls: seq<string>)
    requires NoLFs(ls)
    ensures Lines(Cat(ls)) == ls
  {
    SplitCat(ls, "");
    SplitLast("");
    assert Cat(ls) + "" == Cat(ls) && (ls + [""])[..|ls|] == ls;
    hide Split, Cat;
  }

  lemma ParsesBack(e: Event)
    requires Expressible(e)
    ensures ParseBlock(Cat(PrintLines(e))) == e
  {
    var ls := PrintLines(e);
    PrintLinesPlain(e);
    hide PrintLines, ParseBlock, Cat, Clean;
    ParseBlockOfCat(ls);
    ParseEmptyTail(NOTHING, ls);
    ParseRemainder(e, 0);
    assert ls[0..] == ls;
  }

  lemma OpenBlock(es: seq<Event>, e: Event)
    requires Expressible(e) && Fits(e)
    ensures FeedAll(Reader("", es, false), PrintLines(e), NoLimit()) == Reader(Cat(PrintLines(e)), es, false)
  {
    var ls := PrintLines(e);
    PrintLinesPlain(e);
    hide PrintLines, Expressible, Plain, FeedAll, Cat;
    var k := BlockAfter(es, ls);
    assert ls[0..] == ls;
  }

  function OpenBody(es: seq<Event>, e: Event): string { PrintAll(es) + Cat(PrintLines(e)) }

  lemma {:induction false} OpenBodyLines(es: seq<Event>, e: Event)
    requires Expressible(e) && forall x | x in es :: Expressible(x)
    ensures Lines(OpenBody(es, e)) == AllLines(es) + PrintLines(e)
  {
    PrintLinesPlain(e);
    PrintAllIsCat(es);
    hide Expressible, PrintLines, AllLines, PrintAll, Cat, Lines, Clean, NoLFs;
    CatAppend(AllLines(es), PrintLines(e));
    NoLFsAppend(AllLines(es), PrintLines(e));
    LinesOfCat(AllLines(es) + PrintLines(e));
  }

  lemma {:induction false} OpenRead(es: seq<Event>, e: Event)
    requires Expressible(e) && Fits(e) && forall x | x in es :: Expressible(x) && Fits(x)
    ensures FeedAll(START, AllLines(es) + PrintLines(e), NoLimit()) == Reader(Cat(PrintLines(e)), es, false)
  {
    hide Expressible, Fits, PrintLines, AllLines, FeedAll, Cat, NoLimit;
    var out := ReadMany(es, []);
    assert [] + out == out;
    FeedAllAppend(START, AllLines(es), PrintLines(e), NoLimit());
    OpenBlock(es, e);
  }

  /** n closed events and one more left open at the end: under a limit of n all n + 1
      come. */
  lemma {:induction false} OpenEventIsOneTooMany(es: seq<Event>, e: Event)
    requires es != [] && Expressible(e) && Fits(e) && forall x | x in es :: Expressible(x) && Fits(x)
    requires e.data != "" || e.typ != ""
    ensures EventsOf(OpenBody(es, e), MaxOnly(|es|)) == es + [e]
  {
    PrintLinesPlain(e);
    CatNonEmpty(PrintLines(e));
    hide Expressible, Fits, Plain, PrintLines, AllLines, FeedAll, Cat, Lines, ParseBlock;
    hide EventsOf, NoLimit, MaxOnly, OpenBody;
    OpenBodyLines(es, e);
    OpenRead(es, e);
    ParsesBack(e);
    Unlimited(OpenBody(es, e));
    LimitedEvents(OpenBody(es, e), |es|);
  }

  lemma Unlimited(body: string)
    ensures EventsOf(body, NoLimit()) == Finish(FeedAll(START, Lines(body), NoLimit()))
  {
  }

  lemma NoLFsAppend(a: seq<string>, b: seq<string>)
    requires NoLFs(a) && AllClean(b)
    ensures NoLFs(a + b)
  {
  }

  /** Printer and reader undo each other exactly on the event lists in which type and id
      hold no line feed, no line ends in a carriage return, no event is entirely empty and
      each printed block is at most MAX_BLOCK bytes. */
  lemma PrintThenReadIff(es: seq<Event>)
    ensures EventsOf(PrintAll(es), NoLimit()) == es <==> forall e | e in es :: Expressible(e) && Fits(e)
  {
    ReadIsExpressible(PrintAll(es));
    hide Expressible, Fits, EventsOf, PrintAll;
    if forall e | e in es :: Expressible(e) { ReadPrinted(es); }
  }

  // ---- The relay, with redaction ----

  function MaskedAll(values: seq<string>, es: seq<Event>): (ms: seq<Event>)
    requires "" !in values
    ensures |ms| == |es| && forall i | 0 <= i < |es| :: ms[i] == MaskedEvent(values, es[i])
  {
    seq(|es|, i requires 0 <= i < |es| => MaskedEvent(values, es[i]))
  }

  const CRLF: string := "\r\n"

  ghost predicate EndsInCR(s: string) { s != "" && s[|s| - 1] == '\r' }

  lemma CrLfAt(s: string, k: nat)
    ensures OccursAt(s, CRLF, k) <==> k + 1 < |s| && s[k] == '\r' && s[k + 1] == '\n'
  {
    if k + 2 <= |s| { assert s[k..k + 2] == [s[k], s[k + 1]]; }
  }

  lemma CrLfAfterLine(l: string, rest: string)
    requires NoLF(l)
    ensures Contains(l + "\n" + rest, CRLF) <==> EndsInCR(l) || Contains(rest, CRLF)
  {
    var s := l + "\n" + rest;
    hide Contains, OccursAt;
    if EndsInCR(l) {
      CrLfAt(s, |l| - 1);
      ContainsAt(s, CRLF, |l| - 1);
    }
    if Contains(rest, CRLF) {
      assert s[|l| + 1..] == rest;
      ContainsInTail(s, CRLF, |l| + 1);
    }
    if Contains(s, CRLF) {
      var k := FirstOccurrence(s, CRLF);
      CrLfAt(s, k);
      assert forall i | 0 <= i < |l| :: s[i] == l[i] && l[i] in l;
      if k > |l| {
        CrLfAt(rest, k - |l| - 1);
        ContainsAt(rest, CRLF, k - |l| - 1);
      }
    }
  }

  lemma FirstOccurrence(s: string, v: string) returns (k: nat)
    requires Contains(s, v)
    ensures OccursAt(s, v, k)
  {
    k :| OccursAt(s, v, k);
  }

  /** Every line is clean exactly when no carriage return stands before a line feed or at
      the end. */
  lemma {:induction false} AllCleanIff(s: string)
    ensures AllClean(Split(s)) <==> !Contains(s, CRLF) && !EndsInCR(s)
    decreases |s|
  {
    var i := IndexLF(s);
    if i == |s| {
      assert NoLF(s);
      NoCrLfInLine(s);
      AllCleanCons(s, []);
      assert Split(s) == [s] == [s] + [];
    } else {
      var l, rest := s[..i], s[i + 1..];
      assert s == l + "\n" + rest && NoLF(l);
      AllCleanIff(rest);
      CrLfAfterLine(l, rest);
      assert Split(s) == [l] + Split(rest);
      hide Contains, Split;
      assert AllClean([l] + Split(rest)) <==> Clean(l) && AllClean(Split(rest)) by { AllCleanCons(l, Split(rest)); }
    }
  }

  lemma AllCleanCons(l: string, ls: seq<string>)
    ensures AllClean([l] + ls) <==> Clean(l) && AllClean(ls)
  {
    hide Clean;
    assert forall x :: x in [l] + ls <==> x == l || x in ls;
    if AllClean([l] + ls) {
      assert l in [l] + ls;
      forall x | x in ls ensures Clean(x) { assert x in [l] + ls; }
    }
  }

  lemma NoCrLfInLine(s: string)
    requires NoLF(s)
    ensures !Contains(s, CRLF)
  {
    forall k: nat ensures !OccursAt(s, CRLF, k) {
      CrLfAt(s, k);
      if k + 1 < |s| { assert s[k + 1] in s; }
    }
  }

  lemma {:induction false} ReplaceAllKeepsEnd(s: string, v: string)
    requires v != ""
    ensures EndsInCR(ReplaceAll(s, v)) ==> EndsInCR(s)
    ensures ReplaceAll(s, v) == "" <==> s == ""
  {
    if |s| >= |v| {
      var k := if v <= s then |v| else 1;
      ReplaceAllKeepsEnd(s[k..], v);
    }
  }

  lemma {:induction false} MaskedKeepsEnd(values: seq<string>, s: string)
    requires "" !in values
    ensures EndsInCR(Masked(values, s)) ==> EndsInCR(s)
    ensures Masked(values, s) == "" <==> s == ""
  {
    if values != [] {
      ReplaceAllKeepsEnd(s, values[0]);
      MaskedKeepsEnd(values[1..], ReplaceAll(s, values[0]));
    }
  }

  /** Redaction never makes an event unreadable. */
  lemma MaskedIsExpressible(values: seq<string>, e: Event)
    requires "" !in values && Expressible(e)
    ensures Expressible(MaskedEvent(values, e))
  {
    AllCleanIff(e.data);
    AllCleanIff(Masked(values, e.data));
    MaskedKeepsEnd(values, e.data);
    CrLfCannotTouch();
    hide Contains, TouchesMask, Masked, EndsInCR, Split, Clean, ReplaceAll;
    MaskedKeepsAbsent(values, e.data, CRLF);
  }

  lemma CrLfCannotTouch()
    ensures !TouchesMask(CRLF)
  {
    forall i: nat ensures !OccursAt(CRLF, MASK, i) {}
  }

  // ---- Which secrets reach the browser ----

  lemma InsideIsPart(s: string, w: string, k: nat, m: nat)
    requires OccursAt(s, w, k) && k <= m < k + |w|
    ensures s[m] in w
  {
    assert w[m - k] == s[k..k + |w|][m - k];
  }

  lemma ContainsAcrossLF(a: string, b: string, w: string)
    requires w != "" && NoLF(w)
    ensures Contains(a + "\n" + b, w) <==> Contains(a, w) || Contains(b, w)
  {
    var s := a + "\n" + b;
    if i: nat :| OccursAt(a, w, i) {
      assert s[i..i + |w|] == a[i..i + |w|];
      assert OccursAt(s, w, i);
    }
    if Contains(b, w) {
      assert s[|a| + 1..] == b;
      ContainsInTail(s, w, |a| + 1);
    }
    if k: nat :| OccursAt(s, w, k) {
      if k <= |a| < k + |w| {
        InsideIsPart(s, w, k, |a|);
      } else if k < |a| {
        assert a[k..k + |w|] == s[k..k + |w|];
        assert OccursAt(a, w, k);
      } else {
        assert b[k - |a| - 1..k - |a| - 1 + |w|] == s[k..k + |w|];
        assert OccursAt(b, w, k - |a| - 1);
      }
    }
  }

  ghost predicate InALine(ls: seq<string>, w: string) { exists l :: l in ls && Contains(l, w) }

  lemma InALineCons(l: string, ls: seq<string>, w: string)
    ensures InALine([l] + ls, w) <==> Contains(l, w) || InALine(ls, w)
  {
    hide Contains;
    assert forall x :: x in [l] + ls <==> x == l || x in ls;
  }

  lemma {:induction false} CatContainsIff(ls: seq<string>, w: string)
    requires w != "" && NoLF(w)
    ensures Contains(Cat(ls), w) <==> InALine(ls, w)
  {
    if ls == [] {
      assert Cat(ls) == "";
    } else {
      hide Contains, InALine, NoLF;
      CatContainsIff(ls[1..], w);
      ContainsAcrossLF(ls[0], Cat(ls[1..]), w);
      InALineCons(ls[0], ls[1..], w);
      HeadTail(ls);
    }
  }

  lemma {:induction false} SplitContainsIff(s: string, w: string)
    requires w != "" && NoLF(w)
    ensures Contains(s, w) <==> InALine(Split(s), w)
    decreases |s|
  {
    var i := IndexLF(s);
    hide Contains, InALine, NoLF;
    if i == |s| {
      InALineCons(s, [], w);
      assert [s] + [] == [s];
      NoLines(w);
    } else {
      assert s == s[..i] + "\n" + s[i + 1..];
      SplitContainsIff(s[i + 1..], w);
      ContainsAcrossLF(s[..i], s[i + 1..], w);
      InALineCons(s[..i], Split(s[i + 1..]), w);
    }
  }

  lemma NoLines(w: string)
    ensures !InALine([], w)
  {
  }

  /** w can be read somewhere in what is printed for e. */
  ghost predicate Shown(e: Event, w: string) { InALine(PrintLines(e), w) }

  ghost predicate SomeShown(es: seq<Event>, w: string) { exists e :: e in es && Shown(e, w) }

  lemma SomeShownCons(es: seq<Event>, w: string)
    requires es != []
    ensures SomeShown(es, w) <==> Shown(es[0], w) || SomeShown(es[1..], w)
  {
    hide Shown;
    HeadTail(es);
    assert forall x :: x in es <==> x == es[0] || x in es[1..];
  }

  lemma PrintContainsIff(e: Event, rest: string, w: string)
    requires w != "" && NoLF(w)
    ensures Contains(Print(e) + rest, w) <==> Shown(e, w) || Contains(rest, w)
  {
    hide Contains, InALine, PrintLines, NoLF, Cat;
    ContainsAcrossLF(Cat(PrintLines(e)), rest, w);
    CatContainsIff(PrintLines(e), w);
  }

  lemma {:induction false} PrintAllContainsIff(es: seq<Event>, w: string)
    requires w != "" && NoLF(w)
    ensures Contains(PrintAll(es), w) <==> SomeShown(es, w)
  {
    hide Contains, Shown, SomeShown, Print;
    if es == [] {
      NothingInNothing(w);
      NothingShown(w);
    } else {
      PrintAllContainsIff(es[1..], w);
      PrintContainsIff(es[0], PrintAll(es[1..]), w);
      SomeShownCons(es, w);
    }
  }

  lemma NothingShown(w: string)
    ensures !SomeShown([], w)
  {
  }

  /** w begins in one of the first n characters of s. */
  ghost predicate BeginsIn(s: string, w: string, n: nat) { exists k: nat :: k < n && OccursAt(s, w, k) }

  lemma ContainsAfterLabel(tag: string, v: string, w: string)
    ensures Contains(tag + v, w) <==> BeginsIn(tag + v, w, |tag|) || Contains(v, w)
  {
    var s := tag + v;
    if k: nat :| OccursAt(s, w, k) && k >= |tag| {
      OccursShifted(tag, v, w, k - |tag|);
    }
    if k: nat :| OccursAt(v, w, k) {
      OccursShifted(tag, v, w, k);
      assert OccursAt(s, w, |tag| + k);
    }
  }

  lemma {:induction false} DataLinesContainIff(ls: seq<string>, w: string)
    requires !InALine(ls, w)
    ensures InALine(DataLines(ls), w) <==> exists l | l in ls :: BeginsIn("data: " + l, w, 6)
  {
    if ls == [] {
      NoLines(w);
    } else {
      hide Contains, InALine, BeginsIn;
      HeadTail(ls);
      InALineCons(ls[0], ls[1..], w);
      DataLinesContainIff(ls[1..], w);
      InALineCons("data: " + ls[0], DataLines(ls[1..]), w);
      ContainsAfterLabel("data: ", ls[0], w);
    }
  }

  /** Where a redacted event still shows w: in its type or its id, which are printed as
      they came, or across the label of a data line. */
  ghost predicate Exposed(values: seq<string>, e: Event, w: string)
    requires "" !in values
  {
    || (e.typ != "" && Contains("event: " + e.typ, w))
    || (e.id != "" && Contains("id: " + e.id, w))
    || exists l | l in Split(Masked(values, e.data)) :: BeginsIn("data: " + l, w, 6)
  }

  lemma InALineAppend(a: seq<string>, b: seq<string>, w: string)
    ensures InALine(a + b, w) <==> InALine(a, w) || InALine(b, w)
  {
    hide Contains;
    assert forall x :: x in a + b <==> x in a || x in b;
  }

  lemma HeadsContainIff(e: Event, w: string)
    ensures InALine(Heads(e), w)
       <==> (e.typ != "" && Contains("event: " + e.typ, w)) || (e.id != "" && Contains("id: " + e.id, w))
  {
    hide Contains;
    if e.typ != "" { assert "event: " + e.typ in Heads(e); }
    if e.id != "" { assert "id: " + e.id in Heads(e); }
  }

  lemma ShownIffExposed(values: seq<string>, e: Event, w: string)
    requires "" !in values && w in values && !TouchesMask(w) && NoLF(w)
    ensures Shown(MaskedEvent(values, e), w) <==> Exposed(values, e, w)
  {
    hide Contains, TouchesMask, NoLF, Masked, BeginsIn, Heads, DataLines, InALine, Split;
    var m := MaskedEvent(values, e);
    MaskedKeepsAbsent(values, e.data, w);
    SplitContainsIff(m.data, w);
    InALineAppend(Heads(m), DataLines(Split(m.data)), w);
    DataLinesContainIff(Split(m.data), w);
    HeadsContainIff(m, w);
    SameHeads(values, e);
  }

  lemma SameHeads(values: seq<string>, e: Event)
    requires "" !in values
    ensures Heads(MaskedEvent(values, e)) == Heads(e)
  {
  }

  /** Whatever upstream sends, a listed one-line value that cannot touch a mask is readable
      in the relayed bytes if and only if some event exposes it. */
  lemma SecretReachesBrowserIff(values: seq<string>, es: seq<Event>, w: string)
    requires "" !in values && w in values && !TouchesMask(w) && NoLF(w)
    ensures Contains(PrintAll(MaskedAll(values, es)), w) <==> exists e | e in es :: Exposed(values, e, w)
  {
    var ms := MaskedAll(values, es);
    PrintAllContainsIff(ms, w);
    hide Contains, TouchesMask, NoLF, Exposed, Shown, PrintAll, MaskedEvent;
    forall i | 0 <= i < |es| ensures Shown(ms[i], w) <==> Exposed(values, es[i], w) {
      ShownIffExposed(values, es[i], w);
    }
    if m :| m in ms && Shown(m, w) {
      var i :| 0 <= i < |ms| && ms[i] == m;
      assert es[i] in es;
    }
    if e :| e in es && Exposed(values, e, w) {
      var i :| 0 <= i < |es| && es[i] == e;
      assert ms[i] in ms;
    }
  }

  /** w begins with what is left of the tag from some place on, or lies inside it. */
  ghost predicate Overlaps(tag: string, w: string) {
    exists k: nat :: k < |tag| && (tag[k..] <= w || w <= tag[k..])
  }

  ghost predicate ClearOfLabels(w: string) {
    !Overlaps("event: ", w) && !Overlaps("id: ", w) && !Overlaps("data: ", w)
  }

  lemma BeginsInMeansOverlaps(tag: string, v: string, w: string)
    requires BeginsIn(tag + v, w, |tag|)
    ensures Overlaps(tag, w)
  {
    var s := tag + v;
    var k: nat :| k < |tag| && OccursAt(s, w, k);
    if |w| <= |tag| - k {
      assert w == tag[k..][..|w|];
    } else {
      assert tag[k..] == w[..|tag| - k];
    }
  }

  /** For a secret that is clear of the labels, that means: if and only if it is in some
      event's type or id. */
  lemma ExposedIffInTypeOrId(values: seq<string>, e: Event, w: string)
    requires "" !in values && w != "" && ClearOfLabels(w)
    ensures Exposed(values, e, w) <==> Contains(e.typ, w) || Contains(e.id, w)
  {
    hide Contains, BeginsIn, Overlaps, Masked, Split, OccursAt;
    if BeginsIn("event: " + e.typ, w, 7) { BeginsInMeansOverlaps("event: ", e.typ, w); }
    ContainsAfterLabel("event: ", e.typ, w);
    if BeginsIn("id: " + e.id, w, 4) { BeginsInMeansOverlaps("id: ", e.id, w); }
    ContainsAfterLabel("id: ", e.id, w);
    forall l ensures BeginsIn("data: " + l, w, 6) ==> Overlaps("data: ", w) {
      if BeginsIn("data: " + l, w, 6) { BeginsInMeansOverlaps("data: ", l, w); }
    }
    NothingInNothing(w);
  }

  /** Text that, printed after the tag, shows w across it: shorter than w, so it does not
      hold w itself. */
  lemma AcrossTag(tag: string, w: string) returns (v: string)
    requires Overlaps(tag, w) && w != "" && NoLF(w)
    ensures BeginsIn(tag + v, w, |tag|) && |v| < |w| && NoLF(v)
    ensures v == "" ==> BeginsIn(tag + "~", w, |tag|)
    ensures v == "" ==> forall c | c in w :: c in tag
  {
    var k: nat :| k < |tag| && (tag[k..] <= w || w <= tag[k..]);
    var n := |tag| - k;
    if n < |w| {
      v := w[n..];
      assert (tag + v)[k..k + |w|] == tag[k..] + v == w;
      assert OccursAt(tag + v, w, k);
      assert forall c | c in v :: c in w;
    } else {
      v := "";
      assert w == tag[k..k + |w|];
      assert (tag + v)[k..k + |w|] == w && (tag + "~")[k..k + |w|] == w;
      assert OccursAt(tag + v, w, k) && OccursAt(tag + "~", w, k);
    }
  }

  lemma LongerIsNotInside(v: string, w: string)
    requires |v| < |w|
    ensures !Contains(v, w)
  {
  }

  lemma NotOneTilde(w: string)
    requires w != "" && '~' !in w
    ensures !Contains("~", w)
  {
    forall k: nat ensures !OccursAt("~", w, k) {
      if k + |w| <= 1 { assert w[0] in w && w == [w[0]] && "~"[0..1] == "~"; }
    }
  }

  /** A value short of w, put after a tag that w overlaps. */
  lemma TypeOrIdAcross(tag: string, w: string) returns (v: string)
    requires Overlaps(tag, w) && w != "" && NoLF(w) && '~' !in tag
    ensures v != "" && !Contains(v, w) && Contains(tag + v, w)
  {
    v := AcrossTag(tag, w);
    if v == "" {
      v := "~";
      NotOneTilde(w);
    } else {
      LongerIsNotInside(v, w);
    }
    hide Contains, BeginsIn;
    ContainsAfterLabel(tag, v, w);
  }

  /** Exactly the secrets that overlap a label can be shown by an event that has them
      neither in its type nor in its id, even by a redactor of their own. */
  lemma LabelLeakIff(w: string)
    requires w != "" && NoLF(w)
    ensures (exists e: Event :: !Contains(e.typ, w) && !Contains(e.id, w) && Exposed([w], e, w)) <==> !ClearOfLabels(w)
  {
    hide Contains, BeginsIn, Overlaps, NoLF, Exposed;
    NothingInNothing(w);
    if ClearOfLabels(w) {
      forall e: Event ensures Exposed([w], e, w) ==> Contains(e.typ, w) || Contains(e.id, w) {
        ExposedIffInTypeOrId([w], e, w);
      }
    } else {
      var e := LabelLeak(w);
    }
  }

  lemma LabelLeak(w: string) returns (e: Event)
    requires w != "" && NoLF(w) && !ClearOfLabels(w)
    ensures !Contains(e.typ, w) && !Contains(e.id, w) && Exposed([w], e, w)
  {
    hide Contains, BeginsIn, Overlaps, NoLF;
    NothingInNothing(w);
    if Overlaps("event: ", w) {
      var v := TypeOrIdAcross("event: ", w);
      e := Event(v, "", "");
    } else if Overlaps("id: ", w) {
      var v := TypeOrIdAcross("id: ", w);
      e := Event("", "", v);
    } else {
      var v := AcrossTag("data: ", w);
      e := Event("", v, "");
      KeptWhenShorter(v, w);
      SplitLast(v);
      assert v in Split(Masked([w], v));
    }
  }

  lemma KeptWhenShorter(v: string, w: string)
    requires w != "" && |v| < |w|
    ensures Masked([w], v) == v
  {
    ShorterIsKept(v, w);
    assert [w][1..] == [];
  }

  lemma NothingInNothing(w: string)
    requires w != ""
    ensures !Contains("", w)
  {
  }

  const TOKEN := Event("tok", "x", "")

  lemma TokenLines()
    ensures PrintLines(TOKEN) == ["event: tok", "data: x"] && Split(TOKEN.data) == ["x"]
  {
    SplitLast("x");
    hide Split;
    assert ["x"][1..] == [] && "data: " + "x" == "data: x" && "event: " + "tok" == "event: tok";
    assert DataLines(["x"]) == ["data: x"] + DataLines([]) == ["data: x"];
    assert Heads(TOKEN) == ["event: tok"] + [] == ["event: tok"];
  }

  lemma TokenPrints()
    ensures PrintAll([TOKEN]) == "event: tok\ndata: x\n\n" && Expressible(TOKEN) && Fits(TOKEN)
  {
    hide PrintLines, Split;
    TokenLines();
    CatOfTwo("event: tok", "data: x");
    assert [TOKEN][1..] == [];
    assert Clean("tok") && Clean("x") && Clean("");
  }

  lemma CatOfTwo(a: string, b: string)
    ensures Cat([a, b]) == a + "\n" + b + "\n"
  {
    assert [a, b][1..] == [b] && [b][1..] == [];
    assert Cat([b]) == b + "\n" + "";
  }

  /** One event whose type is a listed secret, as it can come from upstream. */
  lemma TypeIsNotMasked()
    ensures var es := EventsOf("event: tok\ndata: x\n\n", NoLimit());
            es == [TOKEN] && Contains(PrintAll(MaskedAll(["tok"], es)), "tok")
  {
    TokenPrints();
    hide Expressible, Fits, EventsOf, PrintAll, Masked;
    PrintThenReadIff([TOKEN]);
    KeptWhenShorter("x", "tok");
    assert MaskedAll(["tok"], [TOKEN]) == [TOKEN];
    assert OccursAt("event: tok\ndata: x\n\n", "tok", 7);
  }

  // ---- Values of several lines ----

  /** Some line feed in w is followed by a character no printed line begins with. */
  ghost predicate BreaksOff(w: string) {
    exists p: nat :: p + 1 < |w| && w[p] == '\n' && w[p + 1] !in "eid\n"
  }

  /** Every line feed is followed by the beginning of a label, another line feed or nothing. */
  ghost predicate Labelled(s: string) {
    && (s != "" ==> s[0] in "eid\n")
    && forall p | 0 <= p < |s| - 1 && s[p] == '\n' :: s[p + 1] in "eid\n"
  }

  ghost predicate LabelledLine(l: string) { NoLF(l) && (l != "" ==> l[0] in "eid") }

  lemma LabelledCons(l: string, rest: string)
    requires LabelledLine(l) && Labelled(rest)
    ensures Labelled(l + "\n" + rest)
  {
    var s := l + "\n" + rest;
    assert forall p | 0 <= p < |l| :: l[p] in l && s[p] == l[p];
    forall p | 0 <= p < |s| - 1 && s[p] == '\n' ensures s[p + 1] in "eid\n" {
      if p > |l| {
        assert rest[p - |l| - 1] == '\n' && s[p + 1] == rest[p - |l|];
      }
    }
  }

  lemma {:induction false} LabelledCat(ls: seq<string>)
    requires forall l | l in ls :: LabelledLine(l)
    ensures Labelled(Cat(ls))
  {
    if ls != [] {
      hide LabelledLine, Labelled;
      HeadTail(ls);
      LabelledCat(ls[1..]);
      LabelledCons(ls[0], Cat(ls[1..]));
    } else {
      assert Cat(ls) == "";
    }
  }

  lemma {:induction false} DataLinesLabelled(ls: seq<string>)
    requires NoLFs(ls)
    ensures forall l | l in DataLines(ls) :: LabelledLine(l)
  {
    if ls != [] {
      assert NoLFs(ls[1..]) && NoLF(ls[0]);
      DataLinesLabelled(ls[1..]);
      PrefixedIsLabelled("data: ", ls[0]);
      hide LabelledLine;
    }
  }

  lemma PrefixedIsLabelled(tag: string, v: string)
    requires LabelledLine(tag) && tag != "" && NoLF(v)
    ensures LabelledLine(tag + v)
  {
  }

  lemma PrintLinesLabelled(e: Event)
    requires Expressible(e)
    ensures forall l | l in PrintLines(e) :: LabelledLine(l)
  {
    SplitHasNoLF(e.data);
    DataLinesLabelled(Split(e.data));
    PrefixedIsLabelled("event: ", e.typ);
    PrefixedIsLabelled("id: ", e.id);
    hide LabelledLine, Split, DataLines;
  }

  lemma {:induction false} AllLinesLabelled(es: seq<Event>)
    requires forall e | e in es :: Expressible(e)
    ensures forall l | l in AllLines(es) :: LabelledLine(l)
  {
    if es != [] {
      PrintLinesLabelled(es[0]);
      AllLinesLabelled(es[1..]);
      assert LabelledLine("");
      hide LabelledLine, PrintLines, Expressible;
    }
  }

  /** A value with a line feed before anything but the beginning of a label or another line
      feed never reaches the browser, listed or not. */
  lemma BrokenOffNeverShown(es: seq<Event>, w: string)
    requires (forall e | e in es :: Expressible(e)) && BreaksOff(w)
    ensures !Contains(PrintAll(es), w)
  {
    AllLinesLabelled(es);
    LabelledCat(AllLines(es));
    PrintAllIsCat(es);
    var s := PrintAll(es);
    hide PrintAll, AllLines, Cat, Expressible;
    var p: nat :| p + 1 < |w| && w[p] == '\n' && w[p + 1] !in "eid\n";
    forall k: nat ensures !OccursAt(s, w, k) {
      if k + |w| <= |s| && s[k + p] == w[p] {
        assert s[k + p + 1] in "eid\n";
        assert s[k..k + |w|][p + 1] == s[k + p + 1];
      } else if k + |w| <= |s| {
        assert s[k..k + |w|][p] == s[k + p];
      }
    }
  }

  lemma WhatBrowserReads(body: string, filter: string, values: seq<string>)
    requires "" !in values
    ensures var sent := Passing(EventsOf(body, NoLimit()), filter);
            var w := PrintAll(MaskedAll(values, sent));
            && (EventsOf(w, NoLimit()) == MaskedAll(values, sent)
                <==> forall e | e in MaskedAll(values, sent) :: Fits(e))
            && (forall v | v in values && !TouchesMask(v) && NoLF(v) ::
                  Contains(w, v) <==> exists e | e in sent :: Exposed(values, e, v))
            && forall v | BreaksOff(v) :: !Contains(w, v)
  {
    hide BreaksOff, Contains, TouchesMask, NoLF, Exposed, Expressible, Fits, EventsOf, PrintAll, Passing;
    var sent := Passing(EventsOf(body, NoLimit()), filter);
    ReadIsExpressible(body);
    PassingIsPart(EventsOf(body, NoLimit()), filter);
    MaskedAllIsExpressible(values, sent);
    PrintThenReadIff(MaskedAll(values, sent));
    forall v | v in values && !TouchesMask(v) && NoLF(v)
      ensures Contains(PrintAll(MaskedAll(values, sent)), v) <==> exists e | e in sent :: Exposed(values, e, v)
    {
      SecretReachesBrowserIff(values, sent, v);
    }
    forall v | BreaksOff(v) ensures !Contains(PrintAll(MaskedAll(values, sent)), v) {
      BrokenOffNeverShown(MaskedAll(values, sent), v);
    }
  }

  /** The relay end to end: everything read from upstream is redacted and written out again,
      except events of another type than the one asked for. */
  method Relay(body: string, filter: string, redactor: Redactor) returns (w: string, sent: seq<Event>)
    requires redactor.Valid()
    ensures sent == Passing(EventsOf(body, NoLimit()), filter) && w == PrintAll(MaskedAll(redactor.values, sent))
    ensures EventsOf(w, NoLimit()) == MaskedAll(redactor.values, sent)
       <==> forall e | e in MaskedAll(redactor.values, sent) :: Fits(e)
    ensures forall v | v in redactor.values && !TouchesMask(v) && NoLF(v) ::
              Contains(w, v) <==> exists e | e in sent :: Exposed(redactor.values, e, v)
    ensures forall v | BreaksOff(v) :: !Contains(w, v)
  {
    hide BreaksOff, Print, Masked, TouchesMask, NoLF, Exposed, Fits, EventsOf, Contains;
    var events, _ := DialSSE(body, NoLimit());
    w, sent := "", [];
    ghost var values := redactor.values;
    assert MaskedAll(values, []) == [];
    for i := 0 to |events|
      invariant sent == Passing(events[..i], filter) && w == PrintAll(MaskedAll(values, sent))
    {
      var e := events[i];
      assert events[..i + 1][..i] == events[..i];
      if filter == "" || e.typ == "" || e.typ == filter {
        var p := WriteEvent(redactor, e);
        assert MaskedAll(values, sent + [e]) == MaskedAll(values, sent) + [MaskedEvent(values, e)];
        PrintAllSnoc(MaskedAll(values, sent), MaskedEvent(values, e));
        w, sent := w + p, sent + [e];
      }
    }
    assert events[..|events|] == events;
    WhatBrowserReads(body, filter, values);
  }

  lemma MaskedAllIsExpressible(values: seq<string>, es: seq<Event>)
    requires "" !in values && forall e | e in es :: Expressible(e)
    ensures forall m | m in MaskedAll(values, es) :: Expressible(m)
  {
    hide Expressible, MaskedEvent;
    forall i | 0 <= i < |es| ensures Expressible(MaskedEvent(values, es[i])) {
      MaskedIsExpressible(values, es[i]);
    }
  }

  /** The event that reports an upstream that could not be read. */
  function ErrorText(values: seq<string>, err: string): string
    requires "" !in values
  {
    "event: error" + "\n" + ("data: " + Masked(values, err)) + "\n" + "\n"
  }

  /** No listed one-line value that cannot touch a mask is readable in it, except in the
      fixed first line or across the label of the second. */
  method ReportError(redactor: Redactor, err: string) returns (w: string)
    requires redactor.Valid()
    ensures w == ErrorText(redactor.values, err)
    ensures forall v | v in redactor.values && !TouchesMask(v) && NoLF(v) ::
              Contains(w, v)
              <==> Contains("event: error", v) || BeginsIn("data: " + Masked(redactor.values, err), v, 6)
  {
    hide Masked, Contains, TouchesMask, NoLF, BeginsIn;
    var red := redactor.Text(err);
    var second := "data: " + red;
    w := "event: error" + "\n" + second + "\n" + "\n";
    forall v | v in redactor.values && !TouchesMask(v) && NoLF(v)
      ensures Contains(w, v) <==> Contains("event: error", v) || BeginsIn(second, v, 6)
    {
      var rest := second + "\n" + "\n";
      assert w == "event: error" + "\n" + rest;
      ContainsAcrossLF("event: error", rest, v);
      ContainsAcrossLF(second, "\n", v);
      assert "" + "\n" + "" == "\n";
      ContainsAcrossLF("", "", v);
      NothingInNothing(v);
      ContainsAfterLabel("data: ", red, v);
    }
  }

  function Passing(es: seq<Event>, filter: string): seq<Event> {
    if es == [] then []
    else
      var e := es[|es| - 1];
      Passing(es[..|es| - 1], filter) + (if filter == "" || e.typ == "" || e.typ == filter then [e] else [])
  }

  lemma {:induction false} PassingIsPart(es: seq<Event>, filter: string)
    ensures forall e | e in Passing(es, filter) :: e in es
  {
    if es != [] { PassingIsPart(es[..|es| - 1], filter); }
  }

  lemma {:induction false} PrintAllSnoc(es: seq<Event>, e: Event)
    ensures PrintAll(es + [e]) == PrintAll(es) + Print(e)
  {
    hide Print;
    if es == [] {
      assert [] + [e] == [e] && [e][1..] == [];
    } else {
      assert (es + [e])[0] == es[0] && (es + [e])[1..] == es[1..] + [e];
      PrintAllSnoc(es[1..], e);
      Assoc(Print(es[0]), PrintAll(es[1..]), Print(e));
    }
  }
}
