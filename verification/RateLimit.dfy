/** The login rate limiter (internal/auth/ratelimit.go). Times are nanoseconds; each call
    gets its clock reading as now. */
module RateLimit {
  import opened Wrappers

  const MAX_FAILS := 5
  const MINUTE := 60_000_000_000
  const WINDOW := 15 * MINUTE

  /** lockedUntil is None while it still holds Go's zero time, which no clock precedes. */
  datatype Rec = Rec(fails: nat, firstFail: int, lockedUntil: Option<int>)

  type Cell = Option<Rec>

  // ---- One call, seen from one address ----

  predicate Stale(r: Rec, now: int) { now - r.firstFail > WINDOW }

  predicate Locked(r: Rec, now: int) { r.lockedUntil.Some? && now < r.lockedUntil.value }

  function Queried(c: Cell, now: int): (Cell, bool) {
    match c
    case None => (None, false)
    case Some(r) => (if Stale(r, now) then None else c, Locked(r, now))
  }

  function Failed(c: Cell, now: int): Cell {
    var r := if c.None? || Stale(c.value, now) then Rec(0, now, None) else c.value;
    var n := r.fails + 1;
    Some(Rec(n, r.firstFail, if n >= MAX_FAILS then Some(now + WINDOW) else r.lockedUntil))
  }

  function CellOf(m: map<string, Rec>, ip: string): Cell {
    if ip in m then Some(m[ip]) else None
  }

  class RateLimiter {
    var m: map<string, Rec>

    constructor ()
      ensures m == map[]
    {
      m := map[];
    }

    /** IsLocked answers from the record it found, even when it has just dropped it. */
    method IsLocked(ip: string, now: int) returns (locked: bool)
      modifies this
      ensures (CellOf(m, ip), locked) == Queried(CellOf(old(m), ip), now)
      ensures forall q | q != ip :: CellOf(m, q) == CellOf(old(m), q)
    {
      if ip !in m { return false; }
      var rec := m[ip];
      GC(rec, ip, now);
      locked := Locked(rec, now);
    }

    method GC(e: Rec, ip: string, now: int)
      modifies this
      ensures m == if Stale(e, now) then old(m) - {ip} else old(m)
    {
      if Stale(e, now) { m := m - {ip}; }
    }

    method NoteFail(ip: string, now: int)
      modifies this
      ensures CellOf(m, ip) == Failed(CellOf(old(m), ip), now)
      ensures forall q | q != ip :: CellOf(m, q) == CellOf(old(m), q)
    {
      if ip !in m || Stale(m[ip], now) { m := m[ip := Rec(0, now, None)]; }
      var rec := m[ip].(fails := m[ip].fails + 1);
      if rec.fails >= MAX_FAILS { rec := rec.(lockedUntil := Some(now + WINDOW)); }
      m := m[ip := rec];
    }

    method Reset(ip: string)
      modifies this
      ensures m == old(m) - {ip}
    {
      m := m - {ip};
    }
  }

  // ---- Runs ----

  datatype Event =
    | Fail(ip: string, now: int)
    | Query(ip: string, now: int)
    | Reset(ip: string, now: int)

  function CellStep(c: Cell, e: Event): Cell {
    match e
    case Fail(_, now) => Failed(c, now)
    case Query(_, now) => Queried(c, now).0
    case Reset(_, _) => None
  }

  function Put(m: map<string, Rec>, ip: string, c: Cell): map<string, Rec> {
    if c.Some? then m[ip := c.value] else m - {ip}
  }

  /** The limiter's map after a run of calls for any addresses. */
  function After(run: seq<Event>): map<string, Rec> {
    if run == [] then map[]
    else
      var m, e := After(run[..|run| - 1]), run[|run| - 1];
      Put(m, e.ip, CellStep(CellOf(m, e.ip), e))
  }

  /** One address's record after the calls made for it. */
  function CellAfter(run: seq<Event>): Cell {
    if run == [] then None else CellStep(CellAfter(run[..|run| - 1]), run[|run| - 1])
  }

  function Only(run: seq<Event>, ip: string): seq<Event> {
    if run == [] then []
    else
      var e := run[|run| - 1];
      Only(run[..|run| - 1], ip) + (if e.ip == ip then [e] else [])
  }

  /** Calls for other addresses never affect an address's record. */
  lemma {:induction false} AddressesAreIndependent(run: seq<Event>, ip: string)
    ensures CellOf(After(run), ip) == CellAfter(Only(run, ip))
  {
    if run != [] {
      var before, e := run[..|run| - 1], run[|run| - 1];
      AddressesAreIndependent(before, ip);
      if e.ip == ip {
        var own := Only(before, ip);
        assert (own + [e])[..|own|] == own;
      } else {
        assert Only(before, ip) + [] == Only(before, ip);
      }
    }
  }

  function FailCount(run: seq<Event>, from: nat): nat
    requires from <= |run|
    decreases |run|
  {
    if from == |run| then 0
    else FailCount(run[..|run| - 1], from) + (if run[|run| - 1].Fail? then 1 else 0)
  }

  // ---- A lock needs five failures in one window ----

  /** Event i opened the window the record describes. */
  ghost predicate Opened(run: seq<Event>, i: nat, r: Rec) {
    && i < |run| && run[i].Fail? && r.firstFail == run[i].now
    && r.fails == FailCount(run, i)
    && (forall j | i < j < |run| :: !run[j].Reset?)
    && (forall j | i <= j < |run| && run[j].Fail? :: run[j].now <= run[i].now + WINDOW)
    && (r.lockedUntil.Some? <==> r.fails >= MAX_FAILS)
    && (r.lockedUntil.Some? ==> LastFailLocks(run, i, r.lockedUntil.value))
  }

  ghost predicate LastFailLocks(run: seq<Event>, i: nat, until: int) {
    exists j :: i <= j < |run| && run[j].Fail? && until == run[j].now + WINDOW
                && forall k | j < k < |run| :: !run[k].Fail?
  }

  lemma FailCountSnoc(run: seq<Event>, e: Event, from: nat)
    requires from <= |run|
    ensures FailCount(run + [e], from) == FailCount(run, from) + (if e.Fail? then 1 else 0)
  {
    assert (run + [e])[..|run|] == run;
  }

  lemma OpensNow(run: seq<Event>, ip: string, now: int)
    ensures Opened(run + [Fail(ip, now)], |run|, Rec(1, now, None))
  {
    FailCountSnoc(run, Fail(ip, now), |run|);
  }

  lemma StaysOpened(run: seq<Event>, i: nat, r: Rec, ip: string, now: int)
    requires Opened(run, i, r)
    ensures Opened(run + [Query(ip, now)], i, r)
  {
    FailCountSnoc(run, Query(ip, now), i);
    if r.lockedUntil.Some? {
      var j :| i <= j < |run| && run[j].Fail? && r.lockedUntil.value == run[j].now + WINDOW
               && forall k | j < k < |run| :: !run[k].Fail?;
      var run' := run + [Query(ip, now)];
      assert run'[j] == run[j] && forall k | j < k < |run'| :: !run'[k].Fail?;
    }
  }

  lemma OneMoreFail(run: seq<Event>, i: nat, r: Rec, ip: string, now: int)
    requires Opened(run, i, r) && !Stale(r, now)
    ensures Opened(run + [Fail(ip, now)], i, Failed(Some(r), now).value)
  {
    var run' := run + [Fail(ip, now)];
    FailCountSnoc(run, Fail(ip, now), i);
    assert run'[|run|].Fail? && run'[|run|].now == now;
    assert LastFailLocks(run', i, now + WINDOW);
  }

  lemma {:induction false} RecordsTellTheirWindow(run: seq<Event>)
    ensures CellAfter(run).Some? ==> exists i :: Opened(run, i, CellAfter(run).value)
  {
    if run != [] {
      var before, e := run[..|run| - 1], run[|run| - 1];
      var c := CellAfter(before);
      RecordsTellTheirWindow(before);
      assert run == before + [e];
      if CellAfter(run).Some? {
        match e
        case Fail(ip, now) =>
          if c.None? || Stale(c.value, now) {
            OpensNow(before, ip, now);
          } else {
            var i :| Opened(before, i, c.value);
            OneMoreFail(before, i, c.value, ip, now);
          }
        case Query(ip, now) =>
          var i :| Opened(before, i, c.value);
          StaysOpened(before, i, c.value, ip, now);
        case Reset(_, _) =>
      }
    }
  }

  /** An address is reported locked only after at least five failures of its own with no
      reset in between, all within one window, the last less than a window ago. */
  lemma LockedNeedsFiveFailures(run: seq<Event>, ip: string, now: int) returns (i: nat)
    requires Queried(CellOf(After(run), ip), now).1
    ensures var own := Only(run, ip);
            && i < |own| && own[i].Fail? && FailCount(own, i) >= 5
            && (forall j | i < j < |own| :: !own[j].Reset?)
            && (forall j | i <= j < |own| && own[j].Fail? :: own[j].now <= own[i].now + 15 * MINUTE)
            && exists j :: i <= j < |own| && own[j].Fail? && now < own[j].now + 15 * MINUTE
  {
    AddressesAreIndependent(run, ip);
    RecordsTellTheirWindow(Only(run, ip));
    hide After, Only;
    i :| Opened(Only(run, ip), i, CellAfter(Only(run, ip)).value);
  }

  // ---- Five failures in a window do lock, to the window's end ----

  /** Event i opens a window; up to event n nothing resets it and the clock stays inside. */
  ghost predicate InWindow(run: seq<Event>, i: nat, n: nat) {
    && i < n <= |run| && run[i].Fail?
    && (CellAfter(run[..i]).None? || Stale(CellAfter(run[..i]).value, run[i].now))
    && forall j | i < j < n :: !run[j].Reset? && run[i].now <= run[j].now < run[i].now + 15 * MINUTE
  }

  lemma {:induction false} WindowIsKept(run: seq<Event>, i: nat, n: nat)
    requires InWindow(run, i, n)
    ensures var c := CellAfter(run[..n]);
            && c.Some? && c.value.firstFail == run[i].now && c.value.fails == FailCount(run[..n], i)
            && (c.value.fails >= MAX_FAILS ==>
                  c.value.lockedUntil.Some? && c.value.lockedUntil.value >= run[i].now + WINDOW)
    decreases n
  {
    var e := run[n - 1];
    assert run[..n][..n - 1] == run[..n - 1] && run[..n][n - 1] == e;
    if n > i + 1 { WindowIsKept(run, i, n - 1); }
  }

  /** Once the window an address's event i opened holds five failures, every query for it
      inside the window is answered locked, whatever other addresses do. */
  lemma FiveFailuresLock(run: seq<Event>, ip: string, i: nat, now: int)
    requires var own := Only(run, ip);
             InWindow(own, i, |own|) && FailCount(own, i) >= 5 && now < own[i].now + 15 * MINUTE
    ensures Queried(CellOf(After(run), ip), now).1
  {
    var own := Only(run, ip);
    AddressesAreIndependent(run, ip);
    hide After, Only;
    assert own[..|own|] == own;
    WindowIsKept(own, i, |own|);
  }

  // ---- Beyond the window the lock does not last ----

  /** One address's record after some more calls. */
  function Continue(c: Cell, calls: seq<Event>): Cell
    decreases |calls|
  {
    if calls == [] then c else Continue(CellStep(c, calls[0]), calls[1..])
  }

  lemma {:induction false} ContinueSnoc(c: Cell, calls: seq<Event>, e: Event)
    ensures Continue(c, calls + [e]) == CellStep(Continue(c, calls), e)
    decreases |calls|
  {
    hide CellStep;
    if calls == [] {
      assert [] + [e] == [e] && [e][1..] == [];
    } else {
      assert (calls + [e])[1..] == calls[1..] + [e];
      ContinueSnoc(CellStep(c, calls[0]), calls[1..], e);
    }
  }

  lemma {:induction false} CellAfterSplit(run: seq<Event>, n: nat)
    requires n <= |run|
    ensures CellAfter(run) == Continue(CellAfter(run[..n]), run[n..])
    decreases |run|
  {
    hide CellStep;
    if n == |run| {
      assert run[..n] == run && run[n..] == [];
    } else {
      var before := run[..|run| - 1];
      CellAfterSplit(before, n);
      assert before[..n] == run[..n] && run[n..] == before[n..] + [run[|run| - 1]];
      ContinueSnoc(CellAfter(run[..n]), before[n..], run[|run| - 1]);
    }
  }

  /** No call comes after the window that r opened. */
  predicate AllInWindow(r: Rec, calls: seq<Event>) {
    forall i | 0 <= i < |calls| :: !Stale(r, calls[i].now)
  }

  /** The first call after the window forgets everything: whatever the record said, the
      address goes on as if it had none before that call. */
  lemma LateCallForgets(r: Rec, e: Event)
    requires Stale(r, e.now)
    ensures CellStep(Some(r), e) == CellStep(None, e)
  {
  }

  /** r is locked at now, and no later failure can end the lock sooner. */
  ghost predicate LockedAt(r: Rec, calls: seq<Event>, now: int) {
    && r.fails >= MAX_FAILS && Locked(r, now)
    && forall i | 0 <= i < |calls| :: now < calls[i].now + WINDOW || !calls[i].Fail?
  }

  /** Calls inside the window keep the lock. */
  lemma {:induction false} InWindowKeepsLock(r: Rec, calls: seq<Event>, now: int)
    requires LockedAt(r, calls, now) && AllInWindow(r, calls)
    requires forall i | 0 <= i < |calls| :: !calls[i].Reset?
    ensures Queried(Continue(Some(r), calls), now).1
    decreases |calls|
  {
    if calls != [] {
      var next := CellStep(Some(r), calls[0]).value;
      assert next.firstFail == r.firstFail && next.fails >= MAX_FAILS && Locked(next, now);
      assert forall i | 0 <= i < |calls[1..]| :: calls[1..][i] == calls[i + 1];
      InWindowKeepsLock(next, calls[1..], now);
    }
  }

  /** The first call after the window, if there is one. */
  function FirstLate(r: Rec, calls: seq<Event>): (k: nat)
    ensures k <= |calls| && (k < |calls| ==> Stale(r, calls[k].now))
    ensures forall i | 0 <= i < k :: !Stale(r, calls[i].now)
  {
    if calls == [] || Stale(r, calls[0].now) then 0 else 1 + FirstLate(r, calls[1..])
  }

  lemma {:induction false} LateForgets(r: Rec, calls: seq<Event>)
    requires FirstLate(r, calls) < |calls| && forall i | 0 <= i < |calls| :: !calls[i].Reset?
    ensures Continue(Some(r), calls) == Continue(None, calls[FirstLate(r, calls)..])
    decreases |calls|
  {
    if Stale(r, calls[0].now) {
      LateCallForgets(r, calls[0]);
      assert calls[0..] == calls;
      hide CellStep;
    } else {
      var next, rest := CellStep(Some(r), calls[0]).value, calls[1..];
      assert next.firstFail == r.firstFail;
      SameWindow(r, next, rest);
      assert FirstLate(r, calls) == 1 + FirstLate(r, rest);
      assert rest[FirstLate(r, rest)..] == calls[FirstLate(r, calls)..];
      LateForgets(next, rest);
      hide CellStep;
    }
  }

  lemma {:induction false} SameWindow(r: Rec, next: Rec, calls: seq<Event>)
    requires next.firstFail == r.firstFail
    ensures FirstLate(next, calls) == FirstLate(r, calls)
  {
    if calls != [] { SameWindow(r, next, calls[1..]); }
  }

  function Failures(calls: seq<Event>): nat {
    if calls == [] then 0 else (if calls[0].Fail? then 1 else 0) + Failures(calls[1..])
  }

  /** Fewer than five failures since there was no record never lock. */
  lemma {:induction false} FewNeverLock(c: Cell, calls: seq<Event>, now: int)
    requires c.Some? ==> c.value.lockedUntil.None? && c.value.fails + Failures(calls) < 5
    requires Failures(calls) < 5
    ensures !Queried(Continue(c, calls), now).1
    decreases |calls|
  {
    if calls != [] { FewNeverLock(CellStep(c, calls[0]), calls[1..], now); }
  }

  /** Up to four failures leave an address unlocked, with or without other calls. */
  lemma FourFailuresDoNotLock(run: seq<Event>, ip: string, now: int)
    requires Failures(Only(run, ip)) <= 4
    ensures !Queried(CellOf(After(run), ip), now).1
  {
    AddressesAreIndependent(run, ip);
    var own := Only(run, ip);
    CellAfterSplit(own, 0);
    assert own[..0] == [] && own[0..] == own && CellAfter([]) == None;
    FewNeverLock(None, own, now);
    hide After, Only, Continue;
  }

  lemma {:induction false} FewerLater(calls: seq<Event>, k: nat)
    requires k <= |calls|
    ensures Failures(calls[k..]) <= Failures(calls)
  {
    if k > 0 {
      FewerLater(calls[1..], k - 1);
      assert calls[1..][k - 1..] == calls[k..];
    } else {
      assert calls[0..] == calls;
    }
  }

  /** The address's record is locked after its first n calls, with its clock never going
      back and no reset afterwards. */
  ghost predicate LockRuns(own: seq<Event>, n: nat, now: int) {
    && n <= |own|
    && (forall i, j | 0 <= i < j < |own| :: own[i].now <= own[j].now)
    && CellAfter(own[..n]).Some? && Locked(CellAfter(own[..n]).value, now)
    && forall i | n <= i < |own| :: !own[i].Reset?
  }

  lemma LockRunsOn(own: seq<Event>, n: nat, now: int)
    requires LockRuns(own, n, now)
    ensures LockedAt(CellAfter(own[..n]).value, own[n..], now)
  {
    var before := own[..n];
    RecordsTellTheirWindow(before);
    var r := CellAfter(before).value;
    hide CellAfter;
    var i: nat :| Opened(before, i, r);
    var j: nat :| i <= j < |before| && before[j].Fail? && r.lockedUntil.value == before[j].now + WINDOW
             && forall k | j < k < |before| :: !before[k].Fail?;
    assert before[j] == own[j];
    forall k | 0 <= k < |own[n..]| ensures now < own[n..][k].now + WINDOW {
      assert own[n..][k] == own[n + k] && own[j].now <= own[n + k].now;
    }
  }

  /** Whatever calls follow for any addresses, a query for a locked address is answered
      locked if and only if every call for it since came within the window opened by the
      FIRST failure, or else the calls from the first later one on would lock an address
      that had no record. A query and a failure end the lock alike. */
  lemma LockHeldIff(run: seq<Event>, ip: string, n: nat, now: int)
    requires LockRuns(Only(run, ip), n, now)
    ensures var own := Only(run, ip);
            var r, calls := CellAfter(own[..n]).value, own[n..];
            Queried(CellOf(After(run), ip), now).1
            <==> AllInWindow(r, calls) || Queried(Continue(None, calls[FirstLate(r, calls)..]), now).1
  {
    var own := Only(run, ip);
    AddressesAreIndependent(run, ip);
    CellAfterSplit(own, n);
    LockRunsOn(own, n, now);
    var r, calls := CellAfter(own[..n]).value, own[n..];
    hide After, Only, CellAfter, Continue, LockedAt;
    assert forall i | 0 <= i < |calls| :: calls[i] == own[n + i];
    if FirstLate(r, calls) < |calls| {
      assert Stale(r, calls[FirstLate(r, calls)].now);
      LateForgets(r, calls);
    } else {
      InWindowKeepsLock(r, calls, now);
    }
  }

  /** With fewer than five further failures, that means: if and only if every call since
      came within the window. */
  lemma LockHeldIffInWindow(run: seq<Event>, ip: string, n: nat, now: int)
    requires LockRuns(Only(run, ip), n, now) && Failures(Only(run, ip)[n..]) < 5
    ensures var own := Only(run, ip);
            Queried(CellOf(After(run), ip), now).1 <==> AllInWindow(CellAfter(own[..n]).value, own[n..])
  {
    LockHeldIff(run, ip, n, now);
    var own := Only(run, ip);
    var r, calls := CellAfter(own[..n]).value, own[n..];
    hide After, Only, CellAfter, Continue, LockRuns;
    FewerLater(calls, FirstLate(r, calls));
    FewNeverLock(None, calls[FirstLate(r, calls)..], now);
  }

  /** The answers to successive queries, with no other call in between. */
  function Answers(c: Cell, times: seq<int>): seq<bool>
    decreases |times|
  {
    if times == [] then []
    else [Queried(c, times[0]).1] + Answers(Queried(c, times[0]).0, times[1..])
  }

  ghost predicate AllTrue(answers: seq<bool>) {
    forall k | 0 <= k < |answers| :: answers[k]
  }

  lemma {:induction false} NoRecordNoLock(times: seq<int>)
    ensures |Answers(None, times)| == |times|
    ensures times != [] ==> !AllTrue(Answers(None, times))
  {
    if times != [] {
      NoRecordNoLock(times[1..]);
      assert !Answers(None, times)[0];
    }
  }

  lemma ConsAllTrue(b: bool, rest: seq<bool>)
    ensures AllTrue([b] + rest) <==> b && AllTrue(rest)
  {
    var all := [b] + rest;
    assert all[0] == b && all[1..] == rest;
    if AllTrue(all) {
      forall k | 0 <= k < |rest| ensures rest[k] { assert all[k + 1]; }
    }
  }

  /** Queries made, with no other call in between, while the stored lock has not run out are
      all answered locked exactly
      when none but the last comes after the window since the FIRST failure: the query
      that finds the window over still sees the lock, and removes it. */
  lemma {:induction false} LockHonouredIff(r: Rec, times: seq<int>)
    requires r.lockedUntil.Some? && forall k | 0 <= k < |times| :: times[k] < r.lockedUntil.value
    ensures AllTrue(Answers(Some(r), times))
        <==> forall k | 0 <= k < |times| - 1 :: times[k] <= r.firstFail + 15 * MINUTE
  {
    if times == [] {
    } else {
      var rest := times[1..];
      var next := Queried(Some(r), times[0]).0;
      ConsAllTrue(true, Answers(next, rest));
      assert forall k | 1 <= k < |times| :: times[k] == rest[k - 1];
      if Stale(r, times[0]) {
        NoRecordNoLock(rest);
      } else {
        LockHonouredIff(r, rest);
        if forall k | 0 <= k < |rest| - 1 :: rest[k] <= r.firstFail + 15 * MINUTE {
          assert forall k | 1 <= k < |times| - 1 :: times[k] <= r.firstFail + 15 * MINUTE;
        }
      }
    }
  }

  /** Four failures at minute 0, a fifth at 14 and a sixth at 16. */
  function SixFailures(): seq<Event> {
    [Fail("ip", 0), Fail("ip", 0), Fail("ip", 0), Fail("ip", 0), Fail("ip", 14 * MINUTE), Fail("ip", 16 * MINUTE)]
  }

  /** The sixth failure wipes the lock the fifth had set until minute 29: a single query
      at 17 is answered unlocked, though no query came before it. */
  lemma FailureWipesLock()
    ensures var run := SixFailures();
            && CellAfter(run[..5]) == Some(Rec(5, 0, Some(29 * MINUTE)))
            && CellAfter(run) == Some(Rec(1, 16 * MINUTE, None))
            && !Queried(CellAfter(run), 17 * MINUTE).1
  {
    var run := SixFailures();
    assert run[..5] == [run[0], run[1], run[2], run[3], run[4]];
    LockEndsEarly();
    assert run[..5] == [Fail("ip", 0), Fail("ip", 0), Fail("ip", 0), Fail("ip", 0), Fail("ip", 14 * MINUTE)];
  }

  /** Four failures at minute 0 and a fifth at minute 14 lock the address until minute 29,
      yet of two queries at minute 16 only the first is answered locked. */
  lemma LockEndsEarly()
    ensures var f := Fail("ip", 0);
            var c := CellAfter([f, f, f, f, Fail("ip", 14 * MINUTE)]);
            && c == Some(Rec(5, 0, Some(29 * MINUTE)))
            && Answers(c, [16 * MINUTE, 16 * MINUTE]) == [true, false]
  {
    var f := Fail("ip", 0);
    var run := [f, f, f, f, Fail("ip", 14 * MINUTE)];
    assert run[..4] == [f, f, f, f] && run[..4][..3] == [f, f, f];
    assert [f, f, f][..2] == [f, f] && [f, f][..1] == [f] && [f][..0] == [];
    assert CellAfter([f]) == Some(Rec(1, 0, None));
    assert CellAfter([f, f]) == Some(Rec(2, 0, None));
    assert CellAfter([f, f, f]) == Some(Rec(3, 0, None));
    assert CellAfter(run[..4]) == Some(Rec(4, 0, None));
    var c := CellAfter(run);
    assert [16 * MINUTE, 16 * MINUTE][1..] == [16 * MINUTE];
    assert Answers(None, [16 * MINUTE]) == [false];
  }
}
