/** {{NAME}} substitution (internal/executor/resolve.go) and the script-side
    replaceIn (internal/script/context.go), with the redaction of what was spliced in. */
module Resolve {
  import opened Wrappers
  import opened Redact
  import opened Seqs

  // ---- Scanning: what the pattern \{\{([\w.]+)\}\} matches, leftmost first ----

  datatype Token = Lit(c: char) | Placeholder(name: string)

  predicate IsNameChar(c: char) {
    'a' <= c <= 'z' || 'A' <= c <= 'Z' || '0' <= c <= '9' || c == '_' || c == '.'
  }

  predicate IsName(n: string) {
    n != "" && forall i | 0 <= i < |n| :: IsNameChar(n[i])
  }

  function TokenText(t: Token): string {
    match t
    case Lit(c) => [c]
    case Placeholder(n) => "{{" + n + "}}"
  }

  function Text(ts: seq<Token>): string {
    if ts == [] then "" else TokenText(ts[0]) + Text(ts[1..])
  }

  /** The length of the run of name characters s starts with. */
  function NameRun(s: string): (n: nat)
    ensures n <= |s|
    ensures forall i | 0 <= i < n :: IsNameChar(s[i])
    ensures n < |s| ==> !IsNameChar(s[n])
  {
    if s == "" || !IsNameChar(s[0]) then 0 else 1 + NameRun(s[1..])
  }

  /** The placeholder name s starts with, if the pattern matches at its first byte. */
  function Match(s: string): (m: Option<string>)
    ensures m.Some? ==> IsName(m.value) && "{{" + m.value + "}}" <= s
  {
    if "{{" <= s then
      var n := NameRun(s[2..]);
      if n > 0 && "}}" <= s[2 + n..] then
        assert s == s[..2] + s[2..2 + n] + s[2 + n..];
        Some(s[2..2 + n])
      else None
    else None
  }

  function Tokens(s: string): seq<Token>
    decreases |s|
  {
    if s == "" then []
    else match Match(s)
      case Some(n) => [Placeholder(n)] + Tokens(s[|n| + 4..])
      case None => [Lit(s[0])] + Tokens(s[1..])
  }

  /** Concatenating the scanned tokens gives the input back. */
  lemma {:induction false} TokensRejoin(s: string)
    ensures Text(Tokens(s)) == s
    decreases |s|
  {
    if s == "" {
    } else {
      hide Match, Text, IsName;
      match Match(s)
      case Some(n) =>
        TokensRejoin(s[|n| + 4..]);
        TextCons(Placeholder(n), Tokens(s[|n| + 4..]));
        PrefixAndRest("{{" + n + "}}", s);
      case None =>
        TokensRejoin(s[1..]);
        TextCons(Lit(s[0]), Tokens(s[1..]));
        HeadTail(s);
    }
    assert Text([]) == "" by { TextNothing(); }
  }

  lemma TextNothing()
    ensures Text([]) == ""
  {
  }

  lemma TextCons(t: Token, ts: seq<Token>)
    ensures Text([t] + ts) == TokenText(t) + Text(ts)
  {
    assert ([t] + ts)[1..] == ts;
  }

  lemma {:induction false} NameRunOfPrefix(n: string, rest: string)
    requires forall i | 0 <= i < |n| :: IsNameChar(n[i])
    requires rest != "" ==> !IsNameChar(rest[0])
    ensures NameRun(n + rest) == |n|
  {
    if n == "" {
      assert n + rest == rest;
    } else {
      assert (n + rest)[0] == n[0] && (n + rest)[1..] == n[1..] + rest;
      NameRunOfPrefix(n[1..], rest);
    }
  }

  lemma MatchOfPlaceholder(n: string, rest: string)
    requires IsName(n)
    ensures Match("{{" + n + "}}" + rest) == Some(n)
  {
    var s := "{{" + n + "}}" + rest;
    assert s[2..] == n + ("}}" + rest);
    NameRunOfPrefix(n, "}}" + rest);
    assert s[2 + |n|..] == "}}" + rest;
    assert s[2..2 + |n|] == n;
  }

  /** A reading of a text as literals and placeholders that never passes over a place
      where the pattern matches. */
  ghost predicate LeftmostReading(ts: seq<Token>) {
    ts != [] ==>
      && LeftmostReading(ts[1..])
      && (ts[0].Placeholder? ==> IsName(ts[0].name))
      && (ts[0].Lit? ==> Match(Text(ts)) == None)
  }

  lemma {:induction false} TokensAreLeftmost(s: string)
    ensures LeftmostReading(Tokens(s))
    decreases |s|
  {
    if s == "" {
    } else {
      var ts := Tokens(s);
      TokensRejoin(s);
      match Match(s)
      case Some(n) =>
        TokensAreLeftmost(s[|n| + 4..]);
        assert ts[1..] == Tokens(s[|n| + 4..]);
      case None =>
        TokensAreLeftmost(s[1..]);
        assert ts[1..] == Tokens(s[1..]);
    }
  }

  lemma TokensOfLit(c: char, rest: string)
    requires Match([c] + rest) == None
    ensures Tokens([c] + rest) == [Lit(c)] + Tokens(rest)
  {
    hide Match;
    assert ([c] + rest)[1..] == rest;
  }

  lemma TokensOfPlaceholder(n: string, rest: string)
    requires IsName(n)
    ensures Tokens("{{" + n + "}}" + rest) == [Placeholder(n)] + Tokens(rest)
  {
    hide Match;
    MatchOfPlaceholder(n, rest);
    assert ("{{" + n + "}}" + rest)[|n| + 4..] == rest;
  }

  /** The scan is the only leftmost reading of its input. */
  lemma {:induction false} LeftmostReadingIsUnique(ts: seq<Token>)
    requires LeftmostReading(ts)
    ensures Tokens(Text(ts)) == ts
  {
    if ts == [] {
    } else {
      hide Match, Tokens;
      LeftmostReadingIsUnique(ts[1..]);
      var rest := Text(ts[1..]);
      HeadTail(ts);
      match ts[0]
      case Lit(c) =>
        TokensOfLit(c, rest);
      case Placeholder(n) =>
        TokensOfPlaceholder(n, rest);
    }
  }

  // ---- Substitution ----

  type Lookup = string -> Option<string>

  const SECRET_PREFIX: string := "sec."

  datatype Answer = Value(text: string) | Secret(key: string, text: string) | Unknown

  /** Values win over secrets; only names starting with "sec." reach the vault. */
  function AnswerFor(values: map<string, string>, secret: Lookup, name: string): Answer {
    if name in values then Value(values[name])
    else if SECRET_PREFIX <= name then
      match secret(name[4..])
      case Some(v) => Secret(name[4..], v)
      case None => Unknown
    else Unknown
  }

  function Rendered(values: map<string, string>, secret: Lookup, t: Token): string {
    match t
    case Lit(c) => [c]
    case Placeholder(n) =>
      var a := AnswerFor(values, secret, n);
      if a.Unknown? then TokenText(t) else a.text
  }

  function Render(values: map<string, string>, secret: Lookup, ts: seq<Token>): string {
    if ts == [] then "" else Rendered(values, secret, ts[0]) + Render(values, secret, ts[1..])
  }

  /** The tokens of several texts, in the order they are resolved. */
  function AllTokens(texts: seq<string>): seq<Token> {
    if texts == [] then [] else AllTokens(texts[..|texts| - 1]) + Tokens(texts[|texts| - 1])
  }

  /** The warnings and used maps after the placeholders of ts. */
  function UnknownNames(values: map<string, string>, secret: Lookup, ts: seq<Token>): set<string> {
    if ts == [] then {}
    else
      var before, t := UnknownNames(values, secret, ts[..|ts| - 1]), ts[|ts| - 1];
      if t.Placeholder? && AnswerFor(values, secret, t.name).Unknown? then before + {t.name} else before
  }

  function InjectedSecrets(values: map<string, string>, secret: Lookup, ts: seq<Token>): map<string, string> {
    if ts == [] then map[]
    else
      var before, t := InjectedSecrets(values, secret, ts[..|ts| - 1]), ts[|ts| - 1];
      if t.Placeholder? then
        match AnswerFor(values, secret, t.name)
        case Secret(k, v) => before[k := v]
        case _ => before
      else before
  }

  lemma NotesSnoc(values: map<string, string>, secret: Lookup, ts: seq<Token>, t: Token)
    ensures UnknownNames(values, secret, ts + [t]) == UnknownNames(values, secret, ts)
              + (if t.Placeholder? && AnswerFor(values, secret, t.name).Unknown? then {t.name} else {})
    ensures InjectedSecrets(values, secret, ts + [t]) == InjectedSecrets(values, secret, ts)
              + (if t.Placeholder? && AnswerFor(values, secret, t.name).Secret?
                 then map[AnswerFor(values, secret, t.name).key := AnswerFor(values, secret, t.name).text] else map[])
  {
    assert (ts + [t])[..|ts|] == ts;
  }

  /** A name that is neither a value nor "sec." before the key of a secret. */
  ghost predicate Unanswered(values: map<string, string>, secret: Lookup, n: string) {
    n !in values && forall k | n == "sec." + k :: secret(k) == None
  }

  /** The placeholder "sec." before k stands for the secret k, which is v. */
  ghost predicate SecretIs(values: map<string, string>, secret: Lookup, k: string, v: string) {
    "sec." + k !in values && secret(k) == Some(v)
  }

  lemma AnswerIs(values: map<string, string>, secret: Lookup, n: string)
    ensures AnswerFor(values, secret, n).Unknown? <==> Unanswered(values, secret, n)
    ensures n in values ==> AnswerFor(values, secret, n) == Value(values[n])
    ensures forall k, v :: AnswerFor(values, secret, "sec." + k) == Secret(k, v) <==> SecretIs(values, secret, k, v)
  {
    forall k ensures SECRET_PREFIX <= "sec." + k && ("sec." + k)[4..] == k { }
    if SECRET_PREFIX <= n { SecretNameSplits(n); }
  }

  /** The warnings are exactly the unresolved placeholder names. */
  lemma {:induction false} UnknownNamesExact(values: map<string, string>, secret: Lookup, ts: seq<Token>, n: string)
    ensures n in UnknownNames(values, secret, ts) <==> Placeholder(n) in ts && Unanswered(values, secret, n)
  {
    AnswerIs(values, secret, n);
    if ts != [] {
      UnknownNamesExact(values, secret, ts[..|ts| - 1], n);
      assert ts == ts[..|ts| - 1] + [ts[|ts| - 1]];
    }
  }

  /** The used map holds exactly the secrets that were spliced in, under their values. */
  lemma {:induction false} InjectedSecretsExact(values: map<string, string>, secret: Lookup, ts: seq<Token>,
                                                k: string, v: string)
    ensures k in InjectedSecrets(values, secret, ts) && InjectedSecrets(values, secret, ts)[k] == v
       <==> Placeholder("sec." + k) in ts && SecretIs(values, secret, k, v)
  {
    if ts != [] {
      AnswerIs(values, secret, "sec." + k);
      var init, t := ts[..|ts| - 1], ts[|ts| - 1];
      InjectedSecretsExact(values, secret, init, k, v);
      assert ts == init + [t];
      if t.Placeholder? && SECRET_PREFIX <= t.name { SecretNameSplits(t.name); }
      assert ("sec." + k)[4..] == k;
      if k in InjectedSecrets(values, secret, init) {
        InjectedSecretsExact(values, secret, init, k, InjectedSecrets(values, secret, init)[k]);
      }
    }
  }

  lemma RenderStep(values: map<string, string>, secret: Lookup, t: Token, ts: seq<Token>)
    ensures Render(values, secret, [t] + ts) == Rendered(values, secret, t) + Render(values, secret, ts)
  {
    assert ([t] + ts)[1..] == ts;
  }

  lemma RenderNothing(values: map<string, string>, secret: Lookup)
    ensures Render(values, secret, []) == ""
  {
  }

  lemma {:induction false} RenderSnoc(values: map<string, string>, secret: Lookup, ts: seq<Token>, t: Token)
    ensures Render(values, secret, ts + [t]) == Render(values, secret, ts) + Rendered(values, secret, t)
  {
    hide Rendered;
    if ts == [] {
      assert [t] + [] == [t];
      RenderStep(values, secret, t, []);
    } else {
      assert [ts[0]] + ts[1..] == ts && [ts[0]] + (ts[1..] + [t]) == ts + [t];
      RenderStep(values, secret, ts[0], ts[1..]);
      RenderStep(values, secret, ts[0], ts[1..] + [t]);
      RenderSnoc(values, secret, ts[1..], t);
    }
  }

  lemma SecretNameSplits(name: string)
    requires SECRET_PREFIX <= name
    ensures name == SECRET_PREFIX + name[4..]
  {
  }

  class Resolver {
    const values: map<string, string>
    const secret: Lookup
    var warnings: set<string>
    var used: map<string, string>

    constructor (values: map<string, string>, secret: Lookup)
      ensures this.values == values && this.secret == secret
      ensures warnings == {} && used == map[]
    {
      this.values, this.secret := values, secret;
      warnings, used := {}, map[];
    }

    /** warnings and used record what the tokens seen so far asked for. */
    ghost predicate Records(ts: seq<Token>) reads this {
      && warnings == UnknownNames(values, secret, ts)
      && used == InjectedSecrets(values, secret, ts)
    }

    /** Resolve: one left-to-right pass; answered placeholders are replaced, the others
        stay and are reported. */
    method Resolve(s: string, ghost seen: seq<Token>) returns (out: string, warns: set<string>)
      requires Records(seen)
      modifies this
      ensures out == Render(values, secret, Tokens(s))
      ensures Records(seen + Tokens(s)) && warns == warnings
    {
      hide Render, UnknownNames, InjectedSecrets, Tokens, AnswerFor;
      var ts := Tokens(s);
      out := "";
      RenderNothing(values, secret);
      assert ts[..0] == [] && seen + [] == seen;
      for i := 0 to |ts|
        invariant out == Render(values, secret, ts[..i])
        invariant Records(seen + ts[..i])
      {
        TakeNext(ts, i);
        Assoc(seen, ts[..i], [ts[i]]);
        RenderSnoc(values, secret, ts[..i], ts[i]);
        NotesSnoc(values, secret, seen + ts[..i], ts[i]);
        match ts[i]
        case Lit(c) => out := out + [c];
        case Placeholder(name) =>
          match AnswerFor(values, secret, name)
          case Value(v) => out := out + v;
          case Secret(key, v) =>
            used := used[key := v];
            out := out + v;
          case Unknown =>
            warnings := warnings + {name};
            out := out + TokenText(ts[i]);
      }
      assert ts[..|ts|] == ts;
      warns := warnings;
    }

    /** The distinct injected secret values, for the redactor. */
    method UsedSecrets() returns (out: seq<string>)
      ensures forall v :: v in out <==> v in used.Values
    {
      out := [];
      var todo := used.Keys;
      while todo != {}
        invariant todo <= used.Keys
        invariant forall v :: v in out <==> exists k :: k in used.Keys - todo && used[k] == v
        decreases todo
      {
        var k :| k in todo;
        todo := todo - {k};
        out := out + [used[k]];
      }
    }
  }

  /** A secret's value was spliced into one of the resolved tokens. */
  ghost predicate SplicedIn(values: map<string, string>, secret: Lookup, ts: seq<Token>, v: string) {
    exists k :: Placeholder("sec." + k) in ts && SecretIs(values, secret, k, v)
  }

  lemma SplicedValuesAreUsed(values: map<string, string>, secret: Lookup, ts: seq<Token>, v: string)
    requires SplicedIn(values, secret, ts, v)
    ensures v in InjectedSecrets(values, secret, ts).Values
  {
    var k :| Placeholder("sec." + k) in ts && SecretIs(values, secret, k, v);
    InjectedSecretsExact(values, secret, ts, k, v);
  }

  lemma AllTokensSnoc(texts: seq<string>, i: nat)
    requires i < |texts|
    ensures AllTokens(texts[..i + 1]) == AllTokens(texts[..i]) + Tokens(texts[i])
  {
    assert texts[..i + 1][..i] == texts[..i];
  }

  /** Every text field of a request goes through one resolver. */
  method ResolveFields(values: map<string, string>, secret: Lookup, fields: seq<string>)
    returns (resolved: seq<string>, warns: set<string>, secrets: seq<string>)
    ensures |resolved| == |fields|
    ensures forall i | 0 <= i < |fields| :: resolved[i] == Render(values, secret, Tokens(fields[i]))
    ensures warns == UnknownNames(values, secret, AllTokens(fields))
    ensures forall v :: v in secrets <==> v in InjectedSecrets(values, secret, AllTokens(fields)).Values
  {
    var r := new Resolver(values, secret);
    resolved, warns := [], {};
    hide Render, Tokens;
    for i := 0 to |fields|
      invariant fresh(r) && r.values == values && r.secret == secret
      invariant r.Records(AllTokens(fields[..i])) && warns == r.warnings
      invariant |resolved| == i
      invariant forall j | 0 <= j < i :: resolved[j] == Render(values, secret, Tokens(fields[j]))
    {
      var out;
      AllTokensSnoc(fields, i);
      out, warns := r.Resolve(fields[i], AllTokens(fields[..i]));
      resolved := resolved + [out];
    }
    assert fields[..|fields|] == fields;
    secrets := r.UsedSecrets();
  }

  /** What is stored or shown of a request is masked with a redactor built from the
      secrets its fields pulled in: none that cannot touch a mask is readable there. */
  method ResolveAndMask(values: map<string, string>, secret: Lookup, fields: seq<string>, shown: string)
    returns (resolved: seq<string>, warns: set<string>, masked: string)
    ensures |resolved| == |fields|
    ensures forall i | 0 <= i < |fields| :: resolved[i] == Render(values, secret, Tokens(fields[i]))
    ensures forall n :: n in warns <==> (Placeholder(n) in AllTokens(fields) && Unanswered(values, secret, n))
    ensures forall v | SplicedIn(values, secret, AllTokens(fields), v) && v != "" && !TouchesMask(v) ::
              !Contains(masked, v)
  {
    var secrets;
    resolved, warns, secrets := ResolveFields(values, secret, fields);
    ghost var ts := AllTokens(fields);
    forall n ensures n in warns <==> (Placeholder(n) in ts && Unanswered(values, secret, n)) {
      UnknownNamesExact(values, secret, ts, n);
    }
    forall v | SplicedIn(values, secret, ts, v) ensures v in secrets {
      SplicedValuesAreUsed(values, secret, ts, v);
    }
    var redactor := new Redactor(secrets);
    masked := redactor.Text(shown);
  }

  // ---- What a text becomes ----

  predicate NoOpenBrace(s: string) { '{' !in s }

  function Literals(p: string): seq<Token> {
    if p == "" then [] else [Lit(p[0])] + Literals(p[1..])
  }

  lemma ScanStepsOver(s: string)
    requires s != "" && s[0] != '{'
    ensures Tokens(s) == [Lit(s[0])] + Tokens(s[1..])
  {
    assert !("{{" <= s);
  }

  lemma {:induction false} ScanSkipsPlainText(p: string, rest: string)
    requires NoOpenBrace(p)
    ensures Tokens(p + rest) == Literals(p) + Tokens(rest)
  {
    if p == "" {
      assert p + rest == rest;
    } else {
      var s := p + rest;
      assert s[0] == p[0] && p[0] in p;
      assert s[1..] == p[1..] + rest;
      ScanSkipsPlainText(p[1..], rest);
      ScanStepsOver(s);
      assert [Lit(p[0])] + (Literals(p[1..]) + Tokens(rest)) == Literals(p) + Tokens(rest);
    }
  }

  lemma {:induction false} RenderPlainText(values: map<string, string>, secret: Lookup, p: string, ts: seq<Token>)
    ensures Render(values, secret, Literals(p) + ts) == p + Render(values, secret, ts)
  {
    if p == "" {
      assert Literals(p) + ts == ts;
    } else {
      hide AnswerFor;
      var rest := Literals(p[1..]) + ts;
      Assoc([Lit(p[0])], Literals(p[1..]), ts);
      RenderStep(values, secret, Lit(p[0]), rest);
      RenderPlainText(values, secret, p[1..], ts);
      Assoc([p[0]], p[1..], Render(values, secret, ts));
      HeadTail(p);
    }
  }

  lemma NameCharIs(c: char)
    ensures IsNameChar(c)
       <==> (c in "abcdefghijklmnopqrstuvwxyz" || c in "ABCDEFGHIJKLMNOPQRSTUVWXYZ" || c in "0123456789_.")
  {
  }

  /** A text that opens no placeholder stays as it is. */
  lemma PlainTextStays(values: map<string, string>, secret: Lookup, a: string)
    requires '{' !in a
    ensures Render(values, secret, Tokens(a)) == a
  {
    hide Tokens, Render;
    assert a + "" == a;
    ScanSkipsPlainText(a, "");
    assert Tokens("") == [] by { TokensOfNothing(); }
    RenderPlainText(values, secret, a, []);
    RenderNothing(values, secret);
    assert Literals(a) + [] == Literals(a);
  }

  lemma TokensOfNothing()
    ensures Tokens("") == []
  {
  }

  lemma TextBeforePlaceholder(values: map<string, string>, secret: Lookup, a: string, n: string, b: string)
    requires NoOpenBrace(a) && IsName(n)
    ensures Render(values, secret, Tokens(a + "{{" + n + "}}" + b))
         == a + Rendered(values, secret, Placeholder(n)) + Render(values, secret, Tokens(b))
  {
    hide Tokens, Render, Rendered, NoOpenBrace, IsName;
    var rest := "{{" + n + "}}" + b;
    assert a + "{{" + n + "}}" + b == a + rest;
    ScanSkipsPlainText(a, rest);
    TokensOfPlaceholder(n, b);
    RenderPlainText(values, secret, a, [Placeholder(n)] + Tokens(b));
    RenderStep(values, secret, Placeholder(n), Tokens(b));
    Assoc(a, Rendered(values, secret, Placeholder(n)), Render(values, secret, Tokens(b)));
  }

  /** What a placeholder after plain text becomes: a value comes before a secret, and a
      name that is neither is left as it was written. */
  lemma PlaceholderBecomes(values: map<string, string>, secret: Lookup, a: string, n: string, b: string)
    requires '{' !in a
    requires n != "" && forall c | c in n :: c in "abcdefghijklmnopqrstuvwxyz"
                          || c in "ABCDEFGHIJKLMNOPQRSTUVWXYZ" || c in "0123456789_."
    ensures var out := Render(values, secret, Tokens(a + "{{" + n + "}}" + b));
            var after := Render(values, secret, Tokens(b));
            && (n in values ==> out == a + values[n] + after)
            && (forall k, v | n == "sec." + k && n !in values && secret(k) == Some(v) :: out == a + v + after)
            && (n !in values && (forall k | n == "sec." + k :: secret(k) == None)
                ==> out == a + ("{{" + n + "}}") + after)
  {
    hide Tokens, Render, IsNameChar;
    forall i | 0 <= i < |n| ensures IsNameChar(n[i]) { NameCharIs(n[i]); }
    TextBeforePlaceholder(values, secret, a, n, b);
    AnswerIs(values, secret, n);
    hide AnswerFor;
  }

  /** Braces that do not enclose a name are plain text: the scan goes on after the first. */
  lemma OtherBracesStay(values: map<string, string>, secret: Lookup, a: string, b: string)
    requires '{' !in a
    requires forall n | IsName(n) :: !("{{" + n + "}}" <= "{" + b)
    ensures Render(values, secret, Tokens(a + "{" + b)) == a + "{" + Render(values, secret, Tokens(b))
  {
    hide Tokens, Render, IsName;
    assert a + "{" + b == a + ("{" + b);
    ScanSkipsPlainText(a, "{" + b);
    assert Match("{" + b) == None;
    TokensOfLit('{', b);
    RenderPlainText(values, secret, a, [Lit('{')] + Tokens(b));
    RenderStep(values, secret, Lit('{'), Tokens(b));
    assert Rendered(values, secret, Lit('{')) == "{";
    Assoc(a, "{", Render(values, secret, Tokens(b)));
  }

  // ---- replaceIn before Resolve ----

  function NoSecrets(): Lookup { _ => None }

  /** pm.variables.replaceIn: the same scan, answered from the variable bag only. */
  function ReplaceIn(bag: map<string, string>, s: string): string {
    Render(bag, NoSecrets(), Tokens(s))
  }

  lemma ReplaceInBecomes(bag: map<string, string>, a: string, n: string, b: string)
    requires '{' !in a && IsName(n)
    ensures ReplaceIn(bag, a + "{{" + n + "}}" + b)
         == a + (if n in bag then bag[n] else "{{" + n + "}}") + ReplaceIn(bag, b)
    ensures ReplaceIn(bag, a) == a
  {
    hide Tokens, Render;
    TextBeforePlaceholder(bag, NoSecrets(), a, n, b);
    PlainTextStays(bag, NoSecrets(), a);
  }

  /** A script that expands its variables early changes nothing: when no literal part and
      no expanded value holds a '{', resolving replaceIn's output is resolving the input. */
  lemma {:induction false} ReplaceInThenResolve(bag: map<string, string>, values: map<string, string>,
                                                secret: Lookup, s: string)
    requires forall n | n in bag :: n in values && values[n] == bag[n]
    requires forall t | t in Tokens(s) && t.Lit? :: t.c != '{'
    requires forall n | Placeholder(n) in Tokens(s) && n in bag :: NoOpenBrace(bag[n])
    ensures Render(values, secret, Tokens(ReplaceIn(bag, s))) == Render(values, secret, Tokens(s))
    decreases |s|
  {
    if s == "" {
    } else {
      var ts := Tokens(s);
      match Match(s)
      case None =>
        var rest := s[1..];
        assert ts[1..] == Tokens(rest) && ts[0] in ts;
        ReplaceInThenResolve(bag, values, secret, rest);
        ScanSkipsPlainText([s[0]], ReplaceIn(bag, rest));
        RenderPlainText(values, secret, [s[0]], Tokens(ReplaceIn(bag, rest)));
      case Some(n) =>
        var rest := s[|n| + 4..];
        assert ts[1..] == Tokens(rest) && ts[0] in ts;
        ReplaceInThenResolve(bag, values, secret, rest);
        var r := ReplaceIn(bag, rest);
        if n in bag {
          ScanSkipsPlainText(bag[n], r);
          RenderPlainText(values, secret, bag[n], Tokens(r));
        } else {
          MatchOfPlaceholder(n, r);
          assert ("{{" + n + "}}" + r)[|n| + 4..] == r;
        }
    }
  }
}
