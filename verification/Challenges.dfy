/** The single-use challenge store of the login handshake (internal/auth/loginenc.go).
    Times are nanoseconds; each call reads the clock once and gets the reading as now. */
module Challenges {
  import opened Wrappers

  const TTL := 120_000_000_000
  const MAX_CHALLENGES := 4096

  datatype Challenge = Challenge(exp: int, order: nat)

  type Table = map<string, Challenge>

  datatype Store = Store(table: Table, next: nat)

  // ---- One call ----

  predicate Expired(c: Challenge, now: int) { now > c.exp }

  function Sweep(m: Table, now: int): Table {
    map k | k in m && !Expired(m[k], now) :: m[k]
  }

  ghost predicate Oldest(m: Table, k: string) {
    k in m && forall j | j in m :: m[k].order <= m[j].order
  }

  /** A full table loses its oldest entry. */
  ghost function Evict(m: Table): Table {
    if |m| < MAX_CHALLENGES then m else map k | k in m && !Oldest(m, k) :: m[k]
  }

  ghost function Issue(s: Store, ch: string, now: int): Store {
    Store(Evict(Sweep(s.table, now))[ch := Challenge(now + TTL, s.next + 1)], s.next + 1)
  }

  function Consume(s: Store, ch: string, now: int): (Store, bool) {
    if ch == "" || ch !in s.table then (s, false)
    else (s.(table := s.table - {ch}), !Expired(s.table[ch], now))
  }

  /** Orders are distinct and no larger than the counter. */
  ghost predicate Ordered(s: Store) {
    && (forall k | k in s.table :: s.table[k].order <= s.next)
    && (forall j, k | j in s.table && k in s.table && s.table[j].order == s.table[k].order :: j == k)
  }

  lemma EvictOldest(m: Table)
    requires forall j, k | j in m && k in m && m[j].order == m[k].order :: j == k
    ensures |m| < MAX_CHALLENGES ==> Evict(m) == m
    ensures |m| >= MAX_CHALLENGES ==> forall k | Oldest(m, k) :: Evict(m) == m - {k}
  {
  }

  class LoginCrypto {
    var challenges: Table
    var nextSeq: nat

    constructor ()
      ensures Contents() == Store(map[], 0)
    {
      challenges, nextSeq := map[], 0;
    }

    ghost function Contents(): Store reads this { Store(challenges, nextSeq) }

    /** NewChallenge, for the nonce ch it drew. */
    method NewChallenge(ch: string, now: int)
      requires Ordered(Contents()) && ch != "" && "" !in challenges
      modifies this
      ensures Contents() == Issue(old(Contents()), ch, now)
    {
      hide Evict, Oldest;
      SweepExpired(now);
      EvictOldest(challenges);
      if |challenges| >= MAX_CHALLENGES {
        var k := FindOldest(challenges);
        challenges := challenges - {k};
      }
      nextSeq := nextSeq + 1;
      challenges := challenges[ch := Challenge(now + TTL, nextSeq)];
    }

    method SweepExpired(now: int)
      modifies this`challenges
      ensures challenges == Sweep(old(challenges), now)
    {
      var todo := challenges.Keys;
      while todo != {}
        invariant todo <= challenges.Keys
        invariant challenges
               == map k | k in old(challenges) && (k in todo || !Expired(old(challenges)[k], now)) :: old(challenges)[k]
        decreases todo
      {
        var k :| k in todo;
        todo := todo - {k};
        if Expired(challenges[k], now) { challenges := challenges - {k}; }
      }
    }

    /** consume: an outstanding challenge is removed whether or not it is still valid. */
    method Redeem(ch: string, now: int) returns (ok: bool)
      modifies this
      ensures (Contents(), ok) == Consume(old(Contents()), ch, now)
    {
      if ch == "" || ch !in challenges { return false; }
      ok := !Expired(challenges[ch], now);
      challenges := challenges - {ch};
    }

    /** Decrypt, from the unwrapped payload on: None is a ciphertext or JSON failure. */
    method Decrypt(payload: Option<(string, string)>, now: int) returns (password: Option<string>)
      modifies this
      ensures payload.None? ==> password.None? && Contents() == old(Contents())
      ensures payload.Some? ==>
                var (after, ok) := Consume(old(Contents()), payload.value.0, now);
                Contents() == after && password == if ok then Some(payload.value.1) else None
    {
      if payload.None? { return None; }
      var ok := Redeem(payload.value.0, now);
      password := if ok then Some(payload.value.1) else None;
    }
  }

  /** The minimum search; "" stands for nothing found yet. */
  method FindOldest(m: Table) returns (oldest: string)
    requires m != map[] && "" !in m
    ensures Oldest(m, oldest)
  {
    oldest := "";
    var todo := m.Keys;
    var oldestSeq: nat := 0;
    while todo != {}
      invariant todo <= m.Keys
      invariant oldest == "" <==> todo == m.Keys
      invariant oldest != "" ==> oldest in m && m[oldest].order == oldestSeq
      invariant oldest != "" ==> forall k | k in m.Keys - todo :: oldestSeq <= m[k].order
      decreases todo
    {
      var k :| k in todo;
      if oldest == "" || m[k].order < oldestSeq { oldest, oldestSeq := k, m[k].order; }
      todo := todo - {k};
    }
  }

  // ---- Runs ----

  datatype Event = Issued(ch: string, now: int) | Redeemed(ch: string, now: int)

  ghost function Step(s: Store, e: Event): Store {
    match e
    case Issued(ch, now) => Issue(s, ch, now)
    case Redeemed(ch, now) => Consume(s, ch, now).0
  }

  ghost function After(run: seq<Event>): Store {
    if run == [] then Store(map[], 0) else Step(After(run[..|run| - 1]), run[|run| - 1])
  }

  ghost predicate Accepted(run: seq<Event>, i: nat)
    requires i < |run|
  {
    run[i].Redeemed? && Consume(After(run[..i]), run[i].ch, run[i].now).1
  }

  /** A clock that never goes back, and nonces drawn once. */
  ghost predicate Plausible(run: seq<Event>) {
    && (forall i, j | 0 <= i < j < |run| :: run[i].now <= run[j].now)
    && (forall i, j | 0 <= i < j < |run| && run[i].Issued? && run[j].Issued? :: run[i].ch != run[j].ch)
    && (forall i | 0 <= i < |run| && run[i].Issued? :: run[i].ch != "")
  }

  /** The store never holds more than its limit, on any run at all. */
  lemma {:induction false} NeverOverfull(run: seq<Event>)
    ensures |After(run).table| <= 4096
  {
    if run != [] {
      var before, e := After(run[..|run| - 1]), run[|run| - 1];
      NeverOverfull(run[..|run| - 1]);
      match e
      case Issued(ch, now) =>
        SubmapSize(Sweep(before.table, now), before.table);
        EvictMakesRoom(Sweep(before.table, now));
      case Redeemed(ch, now) =>
        SubmapSize(Consume(before, ch, now).0.table, before.table);
    }
  }

  lemma SubmapSize(a: Table, b: Table)
    requires a.Keys <= b.Keys
    ensures |a| <= |b|
    ensures a.Keys < b.Keys ==> |a| < |b|
  {
    assert b.Keys == a.Keys + (b.Keys - a.Keys);
    assert |a| == |a.Keys| && |b| == |b.Keys|;
  }

  lemma {:induction false} SomeOldest(m: Table) returns (k: string)
    requires m != map[]
    ensures Oldest(m, k)
    decreases |m|
  {
    k :| k in m;
    var rest := m - {k};
    if rest != map[] {
      SubmapSize(rest, m);
      var j := SomeOldest(rest);
      assert forall i | i in m && i != k :: i in rest && rest[i] == m[i];
      if m[j].order < m[k].order { k := j; }
    } else {
      assert m.Keys == rest.Keys + {k};
    }
  }

  lemma EvictMakesRoom(m: Table)
    requires |m| <= MAX_CHALLENGES
    ensures |Evict(m)| < MAX_CHALLENGES
  {
    if |m| == MAX_CHALLENGES {
      var k := SomeOldest(m);
      assert k !in Evict(m);
      SubmapSize(Evict(m), m);
    }
  }

  // ---- Acceptance is sound ----

  ghost function IssueCount(run: seq<Event>): nat {
    if run == [] then 0 else IssueCount(run[..|run| - 1]) + (if run[|run| - 1].Issued? then 1 else 0)
  }

  /** Event i issued ch, and nothing before event n redeemed it. */
  ghost predicate Outstanding(run: seq<Event>, i: nat, n: nat, ch: string)
    requires n <= |run|
  {
    && i < n && run[i].Issued? && run[i].ch == ch
    && forall j | i < j < n :: run[j] != Redeemed(ch, run[j].now)
  }

  ghost predicate Explains(run: seq<Event>, i: nat, ch: string, c: Challenge) {
    && Outstanding(run, i, |run|, ch)
    && c == Challenge(run[i].now + TTL, IssueCount(run[..i + 1]))
  }

  ghost predicate AllExplained(run: seq<Event>) {
    forall ch | ch in After(run).table && ch != "" :: exists i :: Explains(run, i, ch, After(run).table[ch])
  }

  lemma ExplainsLater(run: seq<Event>, e: Event, i: nat, ch: string, c: Challenge)
    requires Explains(run, i, ch, c) && e != Redeemed(ch, e.now)
    ensures Explains(run + [e], i, ch, c)
  {
    assert (run + [e])[..i + 1] == run[..i + 1];
  }

  lemma StepKeeps(s: Store, e: Event)
    ensures forall k | k in Step(s, e).table && k != "" ::
              || (e.Issued? && e.ch == k && Step(s, e).table[k] == Challenge(e.now + TTL, s.next + 1))
              || (k in s.table && s.table[k] == Step(s, e).table[k] && e != Redeemed(k, e.now))
    ensures Step(s, e).next == s.next + (if e.Issued? then 1 else 0)
  {
  }

  lemma ExplainsNow(run: seq<Event>, e: Event)
    requires e.Issued?
    ensures Explains(run + [e], |run|, e.ch, Challenge(e.now + TTL, IssueCount(run) + 1))
  {
    var r := run + [e];
    assert r[..|run|] == run && r[..|run| + 1] == r;
  }

  lemma {:induction false} EveryEntryWasIssued(run: seq<Event>)
    ensures AllExplained(run) && After(run).next == IssueCount(run)
  {
    if run != [] {
      var n := |run| - 1;
      var before, e := run[..n], run[n];
      EveryEntryWasIssued(before);
      StepKeeps(After(before), e);
      assert run == before + [e];
      hide Step, Explains;
      forall ch | ch in After(run).table && ch != ""
        ensures exists i :: Explains(run, i, ch, After(run).table[ch])
      {
        var c := After(run).table[ch];
        if e.Issued? && e.ch == ch && c == Challenge(e.now + TTL, IssueCount(before) + 1) {
          ExplainsNow(before, e);
          assert Explains(run, n, ch, c);
        } else {
          var i :| Explains(before, i, ch, c);
          ExplainsLater(before, e, i, ch, c);
          assert Explains(run, i, ch, c);
        }
      }
    }
  }

  /** Only a challenge that was issued, has not been redeemed since and is within its TTL
      is accepted. */
  lemma AcceptedWasIssued(run: seq<Event>, j: nat) returns (i: nat)
    requires j < |run| && Accepted(run, j)
    ensures i < j && Outstanding(run, i, j, run[j].ch) && run[j].now <= run[i].now + 120_000_000_000
  {
    EveryEntryWasIssued(run[..j]);
    var ch := run[j].ch;
    i :| Explains(run[..j], i, ch, After(run[..j]).table[ch]);
  }

  lemma NotRedeemedBetween(run: seq<Event>, i: nat, j: nat, k: nat)
    requires i < j < |run| && k < |run| && run[j] == Redeemed(run[k].ch, run[j].now)
    requires Outstanding(run, i, k, run[k].ch)
    ensures j >= k
  {
  }

  /** With fresh nonces no challenge is ever accepted twice. */
  lemma AcceptedOnce(run: seq<Event>, j: nat, k: nat)
    requires Plausible(run) && j < |run| && k < |run|
    requires Accepted(run, j) && Accepted(run, k) && run[j].ch == run[k].ch
    ensures j == k
  {
    var ij := AcceptedWasIssued(run, j);
    var ik := AcceptedWasIssued(run, k);
    assert run[ij].ch == run[ik].ch;
    assert ij == ik;
    NotRedeemedBetween(run, ij, j, k);
    NotRedeemedBetween(run, ik, k, j);
  }

  // ---- Acceptance is complete ----

  lemma {:induction false} StaysOrdered(run: seq<Event>)
    ensures Ordered(After(run))
  {
    if run != [] { StaysOrdered(run[..|run| - 1]); }
  }

  /** Distinct orders between lo and hi bound the number of entries. */
  lemma {:induction false} OrdersBoundSize(m: Table, lo: nat, hi: int)
    requires forall k | k in m :: lo <= m[k].order <= hi
    requires forall j, k | j in m && k in m && m[j].order == m[k].order :: j == k
    requires lo <= hi + 1
    ensures |m| <= hi - lo + 1
    decreases hi - lo + 1
  {
    if m != map[] {
      if k :| k in m && m[k].order == hi {
        var rest := m - {k};
        assert m.Keys == rest.Keys + {k};
        OrdersBoundSize(rest, lo, hi - 1);
      } else {
        var k :| k in m;
        OrdersBoundSize(m, lo, hi - 1);
      }
    }
  }

  lemma NotEvicted(s: Store, now: int, ch: string)
    requires Ordered(s) && ch in s.table && !Expired(s.table[ch], now)
    requires s.next - s.table[ch].order + 1 < MAX_CHALLENGES
    ensures ch in Evict(Sweep(s.table, now)) && Evict(Sweep(s.table, now))[ch] == s.table[ch]
  {
    var m := Sweep(s.table, now);
    if Oldest(m, ch) { OrdersBoundSize(m, m[ch].order, s.next); }
  }

  lemma {:induction false} IssueCountGrows(run: seq<Event>, m: nat, n: nat)
    requires m <= n <= |run|
    ensures IssueCount(run[..m]) <= IssueCount(run[..n])
    ensures m < n && run[n - 1].Issued? ==> IssueCount(run[..m]) < IssueCount(run[..n])
    decreases n
  {
    if m < n {
      assert run[..n][..n - 1] == run[..n - 1];
      IssueCountGrows(run, m, n - 1);
    }
  }

  /** Event i issued ch, and up to event n nothing touched it, its TTL has not run out and
      fewer than MAX_CHALLENGES others were issued. */
  ghost predicate Untouched(run: seq<Event>, i: nat, n: nat, ch: string) {
    && i < n <= |run| && Outstanding(run, i, n, ch)
    && run[n - 1].now <= run[i].now + TTL
    && IssueCount(run[..n]) - IssueCount(run[..i + 1]) < MAX_CHALLENGES
  }

  lemma CountAt(run: seq<Event>, i: nat)
    requires i < |run| && run[i].Issued?
    ensures IssueCount(run[..i + 1]) == IssueCount(run[..i]) + 1
  {
    assert run[..i + 1][..i] == run[..i];
  }

  lemma UntouchedEarlier(run: seq<Event>, i: nat, n: nat, ch: string)
    requires Plausible(run) && Untouched(run, i, n, ch) && i + 1 != n
    ensures i + 1 < n <= |run| && Untouched(run, i, n - 1, ch) && ch != ""
    ensures run[n - 1].ch != ch && run[n - 1].now <= run[i].now + TTL
    ensures run[n - 1].Issued? ==>
              IssueCount(run[..n - 1]) - IssueCount(run[..i + 1]) + 1 < MAX_CHALLENGES
  {
    IssueCountGrows(run, n - 1, n);
    hide IssueCount;
    assert run[n - 2].now <= run[n - 1].now;
    assert run[n - 1] != Redeemed(ch, run[n - 1].now);
  }

  lemma AfterNext(run: seq<Event>, n: nat)
    requires n < |run|
    ensures After(run[..n + 1]) == Step(After(run[..n]), run[n])
  {
    assert run[..n + 1][..n] == run[..n];
  }

  lemma IssuedIsStored(run: seq<Event>, i: nat, ch: string)
    requires Untouched(run, i, i + 1, ch)
    ensures var t := After(run[..i + 1]).table;
            ch in t && t[ch] == Challenge(run[i].now + TTL, IssueCount(run[..i + 1]))
  {
    AfterNext(run, i);
    CountAt(run, i);
    EveryEntryWasIssued(run[..i]);
    hide Evict, Sweep, After, IssueCount;
  }

  lemma StaysOneStep(s: Store, e: Event, ch: string)
    requires Ordered(s) && ch in s.table && ch != ""
    requires e.now <= s.table[ch].exp && e.ch != ch
    requires e.Issued? ==> s.next - s.table[ch].order + 1 < MAX_CHALLENGES
    ensures ch in Step(s, e).table && Step(s, e).table[ch] == s.table[ch]
  {
    if e.Issued? { NotEvicted(s, e.now, ch); }
    hide Evict, Sweep, Ordered;
  }

  lemma {:induction false} StaysInStore(run: seq<Event>, i: nat, n: nat, ch: string)
    requires Plausible(run) && Untouched(run, i, n, ch)
    ensures var t := After(run[..n]).table;
            ch in t && t[ch] == Challenge(run[i].now + TTL, IssueCount(run[..i + 1]))
    decreases n
  {
    hide *;
    if n == i + 1 {
      IssuedIsStored(run, i, ch);
    } else {
      UntouchedEarlier(run, i, n, ch);
      StaysInStore(run, i, n - 1, ch);
      AfterNext(run, n - 1);
      EveryEntryWasIssued(run[..n - 1]);
      StaysOrdered(run[..n - 1]);
      StaysOneStep(After(run[..n - 1]), run[n - 1], ch);
    }
  }

  /** An unused challenge within its TTL is accepted whenever fewer than 4096
      others were issued after it. */
  lemma FreshChallengeIsAccepted(run: seq<Event>, i: nat, j: nat)
    requires Plausible(run) && i < j < |run| && run[i].Issued? && run[j] == Redeemed(run[i].ch, run[j].now)
    requires forall p | i < p < j :: run[p] != Redeemed(run[i].ch, run[p].now)
    requires run[j].now <= run[i].now + 120_000_000_000
    requires IssueCount(run[..j]) - IssueCount(run[..i + 1]) < 4096
    ensures Accepted(run, j)
  {
    assert run[j - 1].now <= run[j].now;
    StaysInStore(run, i, j, run[i].ch);
  }

  // ---- The expiry sweep is invisible ----

  ghost function StepUnswept(s: Store, e: Event): Store {
    match e
    case Issued(ch, now) => Store(Evict(s.table)[ch := Challenge(now + TTL, s.next + 1)], s.next + 1)
    case Redeemed(ch, now) => Consume(s, ch, now).0
  }

  ghost function AfterUnswept(run: seq<Event>): Store {
    if run == [] then Store(map[], 0) else StepUnswept(AfterUnswept(run[..|run| - 1]), run[|run| - 1])
  }

  /** r is s plus entries that have already expired. */
  ghost predicate Alike(s: Table, r: Table, now: int) {
    && (forall k | k in s :: k in r && r[k] == s[k])
    && (forall k | k in r && !Expired(r[k], now) :: k in s)
  }

  /** Later orders expire later, none beyond a TTL from now. */
  ghost predicate Aged(r: Table, now: int) {
    && (forall j, k | j in r && k in r && r[j].order <= r[k].order :: r[j].exp <= r[k].exp)
    && (forall k | k in r :: r[k].exp <= now + TTL)
  }

  ghost predicate Covers(s: Store, r: Store, now: int) {
    && s.next == r.next && Alike(s.table, r.table, now)
    && Ordered(r) && Aged(r.table, now) && |r.table| <= MAX_CHALLENGES
  }

  lemma SubmapValues(a: Table, b: Table)
    requires forall k | k in a :: k in b && b[k] == a[k]
    ensures |a| <= |b| && (|a| == |b| ==> a == b)
  {
    SubmapSize(a, b);
    if a.Keys == b.Keys { assert a == b; }
  }

  ghost predicate PartOf(m: Table, r: Table) {
    forall k | k in m :: k in r && r[k] == m[k]
  }

  lemma EvictIsPart(m: Table)
    ensures PartOf(Evict(m), m)
  {
  }

  lemma SweptIsAlike(s: Table, r: Table, t: int, now: int)
    requires Alike(s, r, t) && t <= now
    ensures Alike(Sweep(s, now), r, now)
    ensures forall k | k in Sweep(s, now) :: !Expired(Sweep(s, now)[k], now)
  {
  }

  lemma AllAlive(r: Table, k: string, t: int, now: int)
    requires Aged(r, t) && Oldest(r, k) && !Expired(r[k], now)
    ensures forall j | j in r :: !Expired(r[j], now)
  {
  }

  lemma EvictionsAgree(m: Table, r: Table, t: int, now: int)
    requires Alike(m, r, now) && Aged(r, t) && |r| <= MAX_CHALLENGES
    requires forall k | k in m :: !Expired(m[k], now)
    ensures Alike(Evict(m), Evict(r), now)
  {
    SubmapValues(m, r);
    if |r| == MAX_CHALLENGES {
      var k := SomeOldest(r);
      if Expired(r[k], now) {
        assert k !in m;
        SubmapSize(m, r);
        ExpiredOldest(r, k, t, now);
      } else {
        AllAlive(r, k, t, now);
        SubmapValues(r, m);
      }
    }
  }

  /** When the oldest entry has expired, only expired entries are evicted. */
  lemma ExpiredOldest(r: Table, k: string, t: int, now: int)
    requires Aged(r, t) && Oldest(r, k) && Expired(r[k], now)
    ensures forall j | j in r && !Expired(r[j], now) :: j in Evict(r)
  {
    forall j | j in r && !Expired(r[j], now) ensures !Oldest(r, j) {
      if r[j].order <= r[k].order { assert r[j].exp <= r[k].exp; }
    }
  }

  lemma AgedAfterIssue(r: Store, m: Table, ch: string, t: int, now: int)
    requires PartOf(m, r.table) && Aged(r.table, t) && Ordered(r) && t <= now
    ensures var c := Challenge(now + TTL, r.next + 1);
            Aged(m[ch := c], now) && Ordered(Store(m[ch := c], r.next + 1))
  {
  }

  lemma GrowsByOne(f: Table, ch: string, c: Challenge)
    ensures |f[ch := c]| <= |f| + 1
  {
    assert f[ch := c].Keys == f.Keys + {ch};
    assert |f[ch := c]| == |f[ch := c].Keys| && |f| == |f.Keys|;
  }

  lemma CoversIssue(s: Store, r: Store, t: int, ch: string, now: int)
    requires Covers(s, r, t) && t <= now
    ensures Covers(Issue(s, ch, now), StepUnswept(r, Issued(ch, now)), now)
  {
    hide Evict, Sweep, Aged, PartOf, Ordered, Alike, Oldest;
    var m, c := Sweep(s.table, now), Challenge(now + TTL, r.next + 1);
    SweptIsAlike(s.table, r.table, t, now);
    EvictionsAgree(m, r.table, t, now);
    EvictMakesRoom(r.table);
    EvictIsPart(r.table);
    AlikeAfterIssue(Evict(m), Evict(r.table), ch, c, now);
    AgedAfterIssue(r, Evict(r.table), ch, t, now);
    GrowsByOne(Evict(r.table), ch, c);
  }

  lemma AlikeAfterIssue(m: Table, f: Table, ch: string, c: Challenge, now: int)
    requires Alike(m, f, now)
    ensures Alike(m[ch := c], f[ch := c], now)
  {
  }

  lemma AlikeAfterConsume(s: Table, r: Table, ch: string, t: int, now: int)
    requires Alike(s, r, t) && t <= now
    ensures Alike(s - {ch}, r - {ch}, now) && Alike(s, r, now)
    ensures ch in s ==> ch in r && r[ch] == s[ch]
    ensures ch in r && ch !in s ==> Expired(r[ch], now) && s - {ch} == s
  {
  }

  lemma AgedAfterConsume(r: Store, ch: string, t: int, now: int)
    requires Aged(r.table, t) && Ordered(r) && t <= now
    ensures Aged(r.table - {ch}, now) && Ordered(r.(table := r.table - {ch})) && Aged(r.table, now)
  {
  }

  lemma CoversConsume(s: Store, r: Store, t: int, ch: string, now: int)
    requires Covers(s, r, t) && t <= now
    ensures Covers(Consume(s, ch, now).0, Consume(r, ch, now).0, now)
    ensures Consume(s, ch, now).1 == Consume(r, ch, now).1
  {
    AgedAfterConsume(r, ch, t, now);
    AlikeAfterConsume(s.table, r.table, ch, t, now);
    SubmapSize(r.table - {ch}, r.table);
    hide Aged, Ordered, Alike;
  }

  lemma StepCovers(s: Store, r: Store, e: Event)
    requires Covers(s, r, e.now)
    ensures Covers(Step(s, e), StepUnswept(r, e), e.now)
  {
    hide Covers, Issue;
    match e
    case Issued(ch, now) => CoversIssue(s, r, now, ch, now);
    case Redeemed(ch, now) => CoversConsume(s, r, now, ch, now);
  }

  lemma CoversLater(s: Store, r: Store, t: int, now: int)
    requires Covers(s, r, t) && t <= now
    ensures Covers(s, r, now)
  {
  }

  lemma {:induction false} UnsweptCovers(run: seq<Event>, now: int)
    requires Plausible(run) && (run != [] ==> run[|run| - 1].now <= now)
    ensures Covers(After(run), AfterUnswept(run), now)
  {
    if run != [] {
      var before, e := run[..|run| - 1], run[|run| - 1];
      UnsweptCovers(before, e.now);
      StepCovers(After(before), AfterUnswept(before), e);
      CoversLater(After(run), AfterUnswept(run), e.now, now);
    }
  }

  /** Dropping expired entries on issue never changes what any redemption answers. */
  lemma SweepIsInvisible(run: seq<Event>, j: nat)
    requires Plausible(run) && j < |run| && run[j].Redeemed?
    ensures Accepted(run, j) <==> Consume(AfterUnswept(run[..j]), run[j].ch, run[j].now).1
  {
    UnsweptCovers(run[..j], run[j].now);
    CoversConsume(After(run[..j]), AfterUnswept(run[..j]), run[j].now, run[j].ch, run[j].now);
  }
}
