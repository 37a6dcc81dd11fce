/** Masking of secret values in text (internal/executor/redact.go).
    A char stands for one byte of a Go string. */
module Redact {

  const MASK: string := "***"

  predicate OccursAt(s: string, v: string, i: nat) {
    i + |v| <= |s| && s[i..i + |v|] == v
  }

  /** strings.Contains */
  ghost predicate Contains(s: string, v: string) {
    exists i: nat :: OccursAt(s, v, i)
  }

  /** strings.ReplaceAll(s, v, "***"): leftmost, non-overlapping. */
  function ReplaceAll(s: string, v: string): string
    requires v != ""
  {
    if |s| < |v| then s
    else if v <= s then MASK + ReplaceAll(s[|v|..], v)
    else [s[0]] + ReplaceAll(s[1..], v)
  }

  /** What Text computes for the values in the order given. */
  function Masked(values: seq<string>, s: string): string
    requires "" !in values
  {
    if values == [] then s else Masked(values[1..], ReplaceAll(s, values[0]))
  }

  /** The values that can straddle a freshly written mask. */
  ghost predicate TouchesMask(v: string)
    requires v != ""
  {
    v[0] == '*' || v[|v| - 1] == '*' || Contains(v, MASK)
  }

  // ---- A value that cannot touch a mask never survives ----

  lemma OccursShifted(p: string, s: string, v: string, i: nat)
    ensures OccursAt(p + s, v, |p| + i) == OccursAt(s, v, i)
  {
    if i + |v| <= |s| {
      assert (p + s)[|p| + i..|p| + i + |v|] == s[i..i + |v|];
    }
  }

  lemma ContainsInTail(s: string, v: string, k: nat)
    requires k <= |s| && Contains(s[k..], v)
    ensures Contains(s, v)
  {
    var i: nat :| OccursAt(s[k..], v, i);
    OccursShifted(s[..k], s[k..], v, i);
    assert s == s[..k] + s[k..];
  }

  lemma MaskPrefix(u: string, rest: string)
    requires u != "" && u <= MASK + rest
    ensures u[|u| - 1] == '*' || Contains(u, MASK)
  {
    var r := MASK + rest;
    if |u| >= 3 {
      assert u[0..3] == r[0..3] == MASK;
      assert OccursAt(u, MASK, 0);
    } else {
      assert u[|u| - 1] == r[|u| - 1] == MASK[|u| - 1];
    }
  }

  /** A prefix of the replaced text that ends outside any mask was a prefix of the text. */
  lemma {:induction false} PrefixWasThere(s: string, v: string, u: string)
    requires v != "" && u <= ReplaceAll(s, v)
    requires !Contains(u, MASK) && (u != "" ==> u[|u| - 1] != '*')
    ensures u <= s
  {
    if u == "" || |s| < |v| {
    } else if v <= s {
      MaskPrefix(u, ReplaceAll(s[|v|..], v));
    } else {
      var r := ReplaceAll(s[1..], v);
      assert u[1..] <= r;
      if Contains(u[1..], MASK) { ContainsInTail(u, MASK, 1); }
      PrefixWasThere(s[1..], v, u[1..]);
      assert u[0] == s[0];
      assert u == [u[0]] + u[1..] && s == [s[0]] + s[1..];
    }
  }

  lemma AfterMask(rest: string, w: string, i: nat)
    requires w != "" && OccursAt(MASK + rest, w, i)
    ensures TouchesMask(w) || (i >= 3 && OccursAt(rest, w, i - 3))
  {
    if i < 3 {
      assert w[0] == (MASK + rest)[i] == MASK[i];
    } else {
      OccursShifted(MASK, rest, w, i - 3);
    }
  }

  lemma ContainsAt(s: string, w: string, i: nat)
    requires OccursAt(s, w, i)
    ensures Contains(s, w) && |w| <= |s|
    ensures i == 0 ==> w <= s
  {
    if i == 0 { assert s[0..|w|] == s[..|w|]; }
  }

  lemma ContainsPrefix(s: string, w: string)
    requires w <= s
    ensures Contains(s, w)
  {
    assert s[0..|w|] == w;
    assert OccursAt(s, w, 0);
  }

  lemma CannotTouch(w: string)
    requires w != "" && !TouchesMask(w)
    ensures !Contains(w, MASK) && w[|w| - 1] != '*'
  {
  }

  /** Whatever is readable after replacing v was readable before and is not v. */
  lemma {:induction false} WhatIsLeftWasThere(s: string, v: string, w: string, i: nat)
    requires v != "" && w != "" && !TouchesMask(w) && OccursAt(ReplaceAll(s, v), w, i)
    ensures w != v && Contains(s, w)
  {
    hide OccursAt, Contains, TouchesMask;
    ContainsAt(ReplaceAll(s, v), w, i);
    if |s| < |v| {
      ContainsAt(s, w, i);
    } else if v <= s {
      AfterMask(ReplaceAll(s[|v|..], v), w, i);
      WhatIsLeftWasThere(s[|v|..], v, w, i - 3);
      ContainsInTail(s, w, |v|);
    } else if i > 0 {
      OccursShifted([s[0]], ReplaceAll(s[1..], v), w, i - 1);
      WhatIsLeftWasThere(s[1..], v, w, i - 1);
      ContainsInTail(s, w, 1);
    } else {
      CannotTouch(w);
      PrefixWasThere(s, v, w);
      ContainsPrefix(s, w);
    }
  }

  /** Replacing v brings no new occurrence of w, and removes every one of v. */
  lemma ReplaceAllKeepsAbsent(s: string, v: string, w: string)
    requires v != "" && w != "" && !TouchesMask(w)
    requires w == v || !Contains(s, w)
    ensures !Contains(ReplaceAll(s, v), w)
  {
    forall i: nat | OccursAt(ReplaceAll(s, v), w, i) ensures false {
      WhatIsLeftWasThere(s, v, w, i);
    }
  }

  lemma {:induction false} MaskedKeepsAbsent(values: seq<string>, s: string, w: string)
    requires "" !in values && w != "" && !TouchesMask(w)
    requires w in values || !Contains(s, w)
    ensures !Contains(Masked(values, s), w)
  {
    if values == [] {
    } else {
      if w == values[0] || !Contains(s, w) {
        ReplaceAllKeepsAbsent(s, values[0], w);
      }
      MaskedKeepsAbsent(values[1..], ReplaceAll(s, values[0]), w);
    }
  }

  // ---- A value that can touch a mask survives in some text ----

  lemma NoMatchNoChange(s: string, v: string)
    requires v != "" && !Contains(s, v)
    ensures ReplaceAll(s, v) == s
  {
    if |s| >= |v| {
      if v <= s { assert OccursAt(s, v, 0); }
      if Contains(s[1..], v) { ContainsInTail(s, v, 1); }
      NoMatchNoChange(s[1..], v);
    }
  }

  /** A text in which no listed value occurs stays as it is. */
  lemma {:induction false} NothingListedNothingMasked(values: seq<string>, s: string)
    requires "" !in values && forall v | v in values :: !Contains(s, v)
    ensures Masked(values, s) == s
  {
    if values != [] {
      hide Contains;
      assert values[0] in values && forall v | v in values[1..] :: v in values;
      NoMatchNoChange(s, values[0]);
      NothingListedNothingMasked(values[1..], s);
    }
  }

  lemma {:induction false} FirstMatchReplaced(a: string, v: string, b: string)
    requires v != ""
    requires forall j: nat | j < |a| :: !OccursAt(a + v + b, v, j)
    ensures ReplaceAll(a + v + b, v) == a + "***" + ReplaceAll(b, v)
  {
    var s := a + v + b;
    if a == "" {
      assert s[|v|..] == b && v <= s;
    } else {
      var s' := a[1..] + v + b;
      assert s == [a[0]] + s' && s[1..] == s';
      forall j: nat | j < |a| ensures OccursAt(s', v, j) == OccursAt(s, v, j + 1) {
        OccursShifted([a[0]], s', v, j);
      }
      assert !(v <= s) by {
        assert !OccursAt(s, v, 0);
        if v <= s { PrefixOccurs(s, v); }
      }
      hide OccursAt;
      FirstMatchReplaced(a[1..], v, b);
      assert [a[0]] + (a[1..] + MASK + ReplaceAll(b, v)) == a + MASK + ReplaceAll(b, v);
    }
  }

  lemma PrefixOccurs(s: string, v: string)
    requires v <= s
    ensures OccursAt(s, v, 0)
  {
  }

  lemma ShorterIsKept(s: string, v: string)
    requires |s| < |v|
    ensures ReplaceAll(s, v) == s
  {
  }

  lemma {:induction false} SurvivesWithLeadingStar(v: string)
    requires v != "" && v[0] == '*'
    ensures Contains(ReplaceAll(v + v[1..], v), v)
  {
    assert "" + v + v[1..] == v + v[1..];
    FirstMatchReplaced("", v, v[1..]);
    ShorterIsKept(v[1..], v);
    hide ReplaceAll;
    var r := ReplaceAll(v + v[1..], v);
    assert r == MASK + v[1..];
    assert r[2..2 + |v|] == v;
    assert OccursAt(r, v, 2);
  }

  lemma EarlyMatchMeansLeadingStar(a: string, v: string, j: nat)
    requires v == a + "*" && j < |a|
    requires OccursAt(a + v + "", v, j)
    ensures v[0] == '*'
  {
    var n, s := |a|, a + v + "";
    assert v[0] == s[j..j + |v|][0] == v[j];
    assert v[n] == s[j..j + |v|][n] == v[j];
  }

  lemma StartsWithItself(a: string, v: string)
    requires v == a + "*"
    ensures Contains(a + MASK + "", v)
  {
    var r := a + MASK + "";
    assert r[0..|v|] == v;
    assert OccursAt(r, v, 0);
  }

  lemma SurvivesWithTrailingStar(a: string, v: string)
    requires v == a + "*" && v[0] != '*'
    ensures Contains(ReplaceAll(a + v + "", v), v)
  {
    forall j: nat | j < |a| ensures !OccursAt(a + v + "", v, j) {
      if OccursAt(a + v + "", v, j) { EarlyMatchMeansLeadingStar(a, v, j); }
    }
    FirstMatchReplaced(a, v, "");
    StartsWithItself(a, v);
  }

  /** The first "***" of v, with what surrounds it: v == a + "***" + b. */
  lemma FirstMask(v: string) returns (a: string, b: string)
    requires Contains(v, MASK)
    ensures v == a + MASK + b
    ensures forall i: nat | i < |a| :: !OccursAt(v, MASK, i)
  {
    var k: nat :| OccursAt(v, MASK, k);
    var i := 0;
    while !OccursAt(v, MASK, i)
      invariant i <= k
      invariant forall j: nat | j < i :: !OccursAt(v, MASK, j)
      decreases k - i
    {
      i := i + 1;
    }
    a, b := v[..i], v[i + 3..];
    assert v == v[..i] + v[i..i + 3] + v[i + 3..];
  }

  lemma EarlyMatchMeansEarlierMask(v: string, a: string, b: string, j: nat)
    requires v == a + MASK + b && j < |a|
    requires OccursAt(a + v + b, v, j)
    ensures exists i: nat :: i < |a| && OccursAt(v, MASK, i)
  {
    // v's own mask would have to lie across the second copy of a.
    var n, s := |a|, a + v + b;
    var o := s[j..j + |v|];
    assert o == v;
    assert s[j + n] == o[n] == '*' && s[j + n + 1] == o[n + 1] == '*' && s[j + n + 2] == o[n + 2] == '*';
    assert s[j + n] == v[j] && s[j + n + 1] == v[j + 1] && s[j + n + 2] == v[j + 2];
    assert v[j..j + 3] == MASK;
    assert OccursAt(v, MASK, j);
  }

  lemma SurvivesWithMaskInside(v: string, a: string, b: string)
    requires v == a + MASK + b
    requires forall i: nat | i < |a| :: !OccursAt(v, MASK, i)
    ensures ReplaceAll(a + v + b, v) == a + MASK + ReplaceAll(b, v) == v
  {
    var n, s := |a|, a + v + b;
    forall j: nat | j < n ensures !OccursAt(s, v, j) {
      if OccursAt(s, v, j) { EarlyMatchMeansEarlierMask(v, a, b, j); }
    }
    FirstMatchReplaced(a, v, b);
    NoMatchNoChange(b, v);
    assert ReplaceAll(b, v) == b;
  }

  ghost predicate SurvivesIn(v: string, s: string)
    requires v != ""
  {
    Contains(Masked([v], s), v)
  }

  /** A one-value redactor leaves its value in some text exactly when the value
      starts or ends with '*' or contains "***". */
  lemma SurvivesIff(v: string)
    requires v != ""
    ensures (exists s :: SurvivesIn(v, s)) <==> TouchesMask(v)
  {
    if TouchesMask(v) {
      var s;
      if v[0] == '*' {
        s := v + v[1..];
        SurvivesWithLeadingStar(v);
      } else if v[|v| - 1] == '*' {
        var a := v[..|v| - 1];
        s := a + v + "";
        SurvivesWithTrailingStar(a, v);
      } else {
        var a, b := FirstMask(v);
        s := a + v + b;
        SurvivesWithMaskInside(v, a, b);
        assert OccursAt(v, v, 0);
      }
      assert Masked([v], s) == ReplaceAll(s, v);
      assert SurvivesIn(v, s);
    } else {
      forall s ensures !SurvivesIn(v, s) {
        MaskedKeepsAbsent([v], s, v);
      }
    }
  }

  lemma OccursThrough(s: string, v: string, u: string, i: nat, j: nat)
    requires OccursAt(s, v, i) && OccursAt(v, u, j)
    ensures OccursAt(s, u, i + j)
  {
    SliceOfSlice(s, i, i + |v|, j, j + |u|);
  }

  lemma SliceOfSlice(s: string, i: nat, n: nat, j: nat, m: nat)
    requires i <= n <= |s| && j <= m <= n - i
    ensures s[i..n][j..m] == s[i + j..i + m]
  {
    var a, b := s[i..n][j..m], s[i + j..i + m];
    assert |a| == |b| && forall k | 0 <= k < |a| :: a[k] == b[k];
  }

  lemma ContainsThrough(s: string, v: string, u: string)
    requires Contains(s, v) && Contains(v, u)
    ensures Contains(s, u)
  {
    var i: nat :| OccursAt(s, v, i);
    var j: nat :| OccursAt(v, u, j);
    OccursThrough(s, v, u, i, j);
  }

  /** In a list, a value that can touch a mask is gone as well if it holds another listed
      value that cannot. */
  lemma HoldingAnotherNeverSurvives(values: seq<string>, s: string, v: string, u: string)
    requires "" !in values && u in values && !TouchesMask(u) && Contains(v, u)
    ensures !Contains(Masked(values, s), v)
  {
    MaskedKeepsAbsent(values, s, u);
    hide Contains, Masked, TouchesMask;
    if Contains(Masked(values, s), v) { ContainsThrough(Masked(values, s), v, u); }
  }

  // ---- Longest first ----

  ghost predicate LongestFirst(values: seq<string>) {
    forall i, j | 0 <= i < j < |values| :: |values[i]| >= |values[j]|
  }

  lemma StarsOnly(v: string, i: nat)
    requires v != "" && OccursAt(MASK, v, i)
    ensures v == "*" || v == "**" || v == MASK
  {
    assert v == MASK[i..i + |v|];
  }

  lemma {:induction false} MaskIsStable(values: seq<string>)
    requires "" !in values && "*" !in values && "**" !in values
    ensures Masked(values, MASK) == MASK
  {
    if values == [] {
    } else {
      var v := values[0];
      assert ReplaceAll(MASK, v) == MASK by {
        if |v| == 3 && v <= MASK {
          assert v == MASK;
          assert ReplaceAll(MASK[3..], v) == "";
        } else if |v| <= 3 {
          if Contains(MASK, v) {
            var i: nat :| OccursAt(MASK, v, i);
            StarsOnly(v, i);
          }
          NoMatchNoChange(MASK, v);
        }
      }
      MaskIsStable(values[1..]);
    }
  }

  lemma NoLongerInside(v: string, w: string)
    requires |w| >= |v| && Contains(v, w)
    ensures w == v
  {
    var j: nat :| OccursAt(v, w, j);
    assert v[j..j + |w|] == v;
  }

  /** Because longer values go first, a listed value on its own becomes exactly one
      mask: no shorter value can bite a piece out of it and leave the rest readable. */
  lemma {:induction false} WholeValueBecomesOneMask(values: seq<string>, v: string)
    requires v in values && LongestFirst(values)
    requires "" !in values && "*" !in values && "**" !in values
    ensures Masked(values, v) == MASK
  {
    var w := values[0];
    if w == v {
      assert v[0..|v|] == v;
      assert ReplaceAll(v, v) == MASK by { assert v[|v|..] == ""; }
      MaskIsStable(values[1..]);
    } else {
      var i :| 0 <= i < |values| && values[i] == v;
      assert |w| >= |v|;
      if Contains(v, w) { NoLongerInside(v, w); }
      NoMatchNoChange(v, w);
      assert values[1..][i - 1] == v;
      WholeValueBecomesOneMask(values[1..], v);
    }
  }

  // ---- The redactor ----

  /** sort.Slice by descending length. sort.Slice is not stable; this fixes one of the
      orders it may produce, and every result above holds for all of them. */
  function Insert(x: string, sorted: seq<string>): (r: seq<string>)
    requires LongestFirst(sorted)
    ensures LongestFirst(r) && multiset(r) == multiset(sorted) + multiset{x}
  {
    if sorted == [] || |x| >= |sorted[0]| then [x] + sorted
    else
      var rest := Insert(x, sorted[1..]);
      InsertKeepsOrder(x, sorted, rest);
      [sorted[0]] + rest
  }

  lemma InsertKeepsOrder(x: string, sorted: seq<string>, rest: seq<string>)
    requires LongestFirst(sorted) && sorted != [] && |x| < |sorted[0]|
    requires LongestFirst(rest) && multiset(rest) == multiset(sorted[1..]) + multiset{x}
    ensures LongestFirst([sorted[0]] + rest)
    ensures multiset([sorted[0]] + rest) == multiset(sorted) + multiset{x}
  {
    assert sorted == [sorted[0]] + sorted[1..];
    forall y | y in rest ensures |y| <= |sorted[0]| {
      assert y in multiset(rest);
    }
  }

  function SortLongestFirst(values: seq<string>): (r: seq<string>)
    ensures LongestFirst(r) && multiset(r) == multiset(values)
  {
    if values == [] then []
    else
      assert values == [values[0]] + values[1..];
      Insert(values[0], SortLongestFirst(values[1..]))
  }

  class Redactor {
    var values: seq<string>

    ghost predicate Valid() reads this {
      "" !in values && LongestFirst(values) && forall i, j | 0 <= i < j < |values| :: values[i] != values[j]
    }

    /** NewRedactor: drops empty and repeated values, longest first. */
    constructor (input: seq<string>)
      ensures Valid()
      ensures forall v :: v in values <==> v in input && v != ""
    {
      var seen: set<string> := {};
      var out: seq<string> := [];
      for n := 0 to |input|
        invariant seen == set v | v in input[..n] && v != ""
        invariant forall v :: v in out <==> v in seen
        invariant forall i, j | 0 <= i < j < |out| :: out[i] != out[j]
      {
        var v := input[n];
        assert input[..n + 1] == input[..n] + [v];
        if v != "" && v !in seen {
          seen := seen + {v};
          out := out + [v];
        }
      }
      assert input[..|input|] == input;
      values := SortLongestFirst(out);
      new;
      assert forall v :: v in out <==> v in multiset(out);
      assert forall v :: v in values <==> v in multiset(values);
      NoRepeats(out, values);
    }

    /** Text: one replacement pass per value, in order. No listed value that cannot
        touch a mask is left in the result. */
    method Text(s: string) returns (t: string)
      requires Valid()
      ensures t == Masked(values, s)
      ensures forall v | v in values && !TouchesMask(v) :: !Contains(t, v)
    {
      t := s;
      for n := 0 to |values|
        invariant Masked(values, s) == Masked(values[n..], t)
      {
        assert values[n..][0] == values[n] && values[n..][1..] == values[n + 1..];
        assert values[n] != "" by { assert values[n] in values; }
        t := ReplaceAll(t, values[n]);
      }
      forall v | v in values && !TouchesMask(v) ensures !Contains(t, v) {
        MaskedKeepsAbsent(values, s, v);
      }
    }
  }

  lemma RepeatCounts(ys: seq<string>, i: nat, j: nat)
    requires i < j < |ys| && ys[i] == ys[j]
    ensures multiset(ys)[ys[i]] >= 2
  {
    assert ys == ys[..i] + [ys[i]] + ys[i + 1..j] + [ys[j]] + ys[j + 1..];
  }

  lemma CountsOnce(xs: seq<string>, x: string)
    requires x in xs && forall i, j | 0 <= i < j < |xs| :: xs[i] != xs[j]
    ensures multiset(xs)[x] == 1
  {
    var k :| 0 <= k < |xs| && xs[k] == x;
    assert xs == xs[..k] + [x] + xs[k + 1..];
    assert x !in xs[..k] && x !in xs[k + 1..];
    assert multiset(xs) == multiset(xs[..k]) + multiset{x} + multiset(xs[k + 1..]);
  }

  lemma NoRepeats(xs: seq<string>, ys: seq<string>)
    requires multiset(xs) == multiset(ys)
    requires forall i, j | 0 <= i < j < |xs| :: xs[i] != xs[j]
    ensures forall i, j | 0 <= i < j < |ys| :: ys[i] != ys[j]
  {
    forall x | x in xs ensures multiset(xs)[x] == 1 { CountsOnce(xs, x); }
    forall i, j | 0 <= i < j < |ys| ensures ys[i] != ys[j] {
      if ys[i] == ys[j] {
        assert false by { RepeatCounts(ys, i, j); }
      }
    }
  }
}
