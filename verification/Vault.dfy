/** The decrypted-secret cache (internal/crypto/secret.go) under concurrent lookups, writes
    and invalidations. Times are nanoseconds. */
module Vault {
  import opened Wrappers

  const CACHE_TTL := 300_000_000_000

  datatype Entry = Entry(value: string, expires: int, gen: nat)

  type Cache = map<string, Entry>

  function Usable(cache: Cache, gen: nat, name: string, now: int): Option<string> {
    if name in cache && cache[name].gen == gen && now < cache[name].expires then Some(cache[name].value) else None
  }

  /** The cache with a value stored at now. */
  function Filled(cache: Cache, gen: nat, name: string, plain: string, now: int): Cache {
    cache[name := Entry(plain, now + CACHE_TTL, gen)]
  }

  class SecretVault {
    var cache: Cache
    var gen: nat

    constructor ()
      ensures cache == map[] && gen == 0
    {
      cache, gen := map[], 0;
    }

    method Invalidate()
      modifies this
      ensures cache == map[] && gen == old(gen) + 1
      ensures forall n, now :: Usable(cache, gen, n, now).None?
    {
      gen := gen + 1;
      cache := map[];
    }

    /** The read-locked part of Lookup. */
    method Hit(name: string, now: int) returns (v: Option<string>)
      ensures v == Usable(cache, gen, name, now)
    {
      if name in cache && cache[name].gen == gen && now < cache[name].expires {
        return Some(cache[name].value);
      }
      v := None;
    }

    /** The write-locked part: the entry gets the generation of this moment. */
    method Store(name: string, plain: string, now: int)
      modifies this`cache
      ensures cache == Filled(old(cache), gen, name, plain, now)
    {
      cache := cache[name := Entry(plain, now + CACHE_TTL, gen)];
    }

    /** Lookup with nothing else running: fetched is what fetch and Open came to, later
        the clock when it is stored. A second lookup within the TTL answers the same. */
    method Lookup(name: string, fetched: Option<string>, now: int, later: int) returns (v: Option<string>)
      modifies this`cache
      ensures v == if Usable(old(cache), gen, name, now).Some? then Usable(old(cache), gen, name, now) else fetched
      ensures v.Some? && now < later + 300_000_000_000 ==> Usable(cache, gen, name, now) == v
      ensures v.None? ==> cache == old(cache)
      ensures forall n | n != name :: n in cache <==> n in old(cache)
      ensures forall n | n != name && n in cache :: cache[n] == old(cache)[n]
    {
      v := Hit(name, now);
      if v.Some? { return; }
      if fetched.None? { return None; }
      Store(name, fetched.value, later);
      v := fetched;
    }
  }

  // ---- Interleaved steps ----

  type Thread = nat

  /** A lookup that has fetched and not yet stored. */
  datatype Flight = Flight(name: string, value: string)

  datatype System = System(cache: Cache, gen: nat, store: map<string, string>, flights: map<Thread, Flight>)

  /** Write covers creating, updating (Some) and deleting (None) a secret's row. */
  datatype Action =
    | Serve(name: string)
    | Fetch(t: Thread, name: string)
    | Store(t: Thread)
    | Write(name: string, value: Option<string>)
    | Invalidate

  datatype Event = Event(a: Action, now: int)

  /** Serve needs a hit, Fetch a stored secret, Store a fetched value. A lookup fetches after
      a miss, but by then the name may have been cached by another one. */
  predicate Enabled(s: System, e: Event) {
    match e.a
    case Serve(n) => Usable(s.cache, s.gen, n, e.now).Some?
    case Fetch(t, n) => t !in s.flights && n in s.store
    case Store(t) => t in s.flights
    case Write(_, _) => true
    case Invalidate => true
  }

  function Step(s: System, e: Event): System
    requires Enabled(s, e)
  {
    match e.a
    case Serve(_) => s
    case Fetch(t, n) => s.(flights := s.flights[t := Flight(n, s.store[n])])
    case Store(t) =>
      var f := s.flights[t];
      s.(cache := Filled(s.cache, s.gen, f.name, f.value, e.now), flights := s.flights - {t})
    case Write(n, v) => s.(store := if v.Some? then s.store[n := v.value] else s.store - {n})
    case Invalidate => s.(gen := s.gen + 1, cache := map[])
  }

  /** The system after a run of enabled steps; None if some step was not enabled. */
  function Outcome(run: seq<Event>, start: map<string, string>): Option<System> {
    if run == [] then Some(System(map[], 0, start, map[]))
    else
      match Outcome(run[..|run| - 1], start)
      case None => None
      case Some(s) => if Enabled(s, run[|run| - 1]) then Some(Step(s, run[|run| - 1])) else None
  }

  predicate Legal(run: seq<Event>, start: map<string, string>) { Outcome(run, start).Some? }

  function After(run: seq<Event>, start: map<string, string>): System
    requires Legal(run, start)
  {
    Outcome(run, start).value
  }

  lemma AfterSnoc(run: seq<Event>, e: Event, start: map<string, string>)
    ensures Legal(run + [e], start) <==> Legal(run, start) && Enabled(After(run, start), e)
    ensures Legal(run + [e], start) ==> After(run + [e], start) == Step(After(run, start), e)
  {
    assert (run + [e])[..|run|] == run;
  }

  lemma {:induction false} PrefixIsLegal(run: seq<Event>, start: map<string, string>, n: nat)
    requires Legal(run, start) && n <= |run|
    ensures Legal(run[..n], start)
    decreases |run|
  {
    if n == |run| {
      assert run[..n] == run;
    } else {
      PrefixIsLegal(run[..|run| - 1], start, n);
      assert run[..|run| - 1][..n] == run[..n];
    }
  }

  // ---- Where a value comes from ----

  /** The store's content for n when event i happened. */
  ghost function StoredAt(run: seq<Event>, start: map<string, string>, i: nat, n: string): Option<string>
    requires Legal(run, start) && i <= |run|
  {
    PrefixIsLegal(run, start, i);
    var s := After(run[..i], start).store;
    if n in s then Some(s[n]) else None
  }

  /** Event i fetched v for n on behalf of t. */
  ghost predicate Fetched(run: seq<Event>, start: map<string, string>, i: nat, t: Thread, n: string, v: string)
    requires Legal(run, start)
  {
    i < |run| && run[i].a == Fetch(t, n) && StoredAt(run, start, i, n) == Some(v)
  }

  /** Event j is the store of what event i fetched. */
  ghost predicate Carries(run: seq<Event>, i: nat, j: nat) {
    && i < j < |run| && run[i].a.Fetch? && run[j].a == Store(run[i].a.t)
    && forall q | i < q < j :: run[q].a != Store(run[i].a.t)
  }

  /** Event i fetched v for n on behalf of t, which has not stored it yet. */
  ghost predicate InFlight(run: seq<Event>, start: map<string, string>, i: nat, t: Thread, n: string, v: string)
    requires Legal(run, start)
  {
    Fetched(run, start, i, t, n, v) && forall q | i < q < |run| :: run[q].a != Store(t)
  }

  /** Event j stored what event i fetched, and the cache has not been cleared since. */
  ghost predicate Cached(run: seq<Event>, start: map<string, string>, i: nat, j: nat, n: string, e: Entry)
    requires Legal(run, start)
  {
    && Carries(run, i, j) && Fetched(run, start, i, run[i].a.t, n, e.value)
    && e.expires == run[j].now + CACHE_TTL
    && forall q | j < q < |run| :: run[q].a != Invalidate
  }

  ghost predicate FlightKnown(run: seq<Event>, start: map<string, string>, t: Thread)
    requires Legal(run, start) && t in After(run, start).flights
  {
    var f := After(run, start).flights[t];
    exists i :: InFlight(run, start, i, t, f.name, f.value)
  }

  ghost predicate EntryKnown(run: seq<Event>, start: map<string, string>, n: string)
    requires Legal(run, start) && n in After(run, start).cache
  {
    exists i, j :: Cached(run, start, i, j, n, After(run, start).cache[n])
  }

  lemma FetchedLater(run: seq<Event>, e: Event, start: map<string, string>, i: nat, t: Thread, n: string, v: string)
    requires Legal(run + [e], start) && Legal(run, start) && Fetched(run, start, i, t, n, v)
    ensures Fetched(run + [e], start, i, t, n, v)
  {
    assert (run + [e])[..i] == run[..i];
  }

  lemma InFlightLater(run: seq<Event>, e: Event, start: map<string, string>, i: nat, t: Thread, n: string, v: string)
    requires Legal(run + [e], start) && Legal(run, start) && InFlight(run, start, i, t, n, v) && e.a != Store(t)
    ensures InFlight(run + [e], start, i, t, n, v)
  {
    FetchedLater(run, e, start, i, t, n, v);
  }

  lemma CachedLater(run: seq<Event>, e: Event, start: map<string, string>, i: nat, j: nat, n: string, c: Entry)
    requires Legal(run + [e], start) && Legal(run, start) && Cached(run, start, i, j, n, c) && e.a != Invalidate
    ensures Cached(run + [e], start, i, j, n, c)
  {
    FetchedLater(run, e, start, i, run[i].a.t, n, c.value);
  }

  lemma FetchedNow(run: seq<Event>, e: Event, start: map<string, string>)
    requires Legal(run + [e], start) && Legal(run, start) && e.a.Fetch?
    ensures e.a.name in After(run, start).store
    ensures InFlight(run + [e], start, |run|, e.a.t, e.a.name, After(run, start).store[e.a.name])
  {
    assert (run + [e])[..|run|] == run;
  }

  lemma CachedNow(run: seq<Event>, e: Event, start: map<string, string>, i: nat, n: string, v: string, gen: nat)
    requires Legal(run + [e], start) && Legal(run, start) && e.a.Store?
    requires InFlight(run, start, i, e.a.t, n, v)
    ensures Cached(run + [e], start, i, |run|, n, Entry(v, e.now + CACHE_TTL, gen))
  {
    FetchedLater(run, e, start, i, e.a.t, n, v);
  }

  ghost predicate Known(run: seq<Event>, start: map<string, string>)
    requires Legal(run, start)
  {
    && (forall t | t in After(run, start).flights :: FlightKnown(run, start, t))
    && (forall n | n in After(run, start).cache :: EntryKnown(run, start, n))
    && (forall n | n in After(run, start).cache :: After(run, start).cache[n].gen == After(run, start).gen)
  }

  /** Where a flight of the next state comes from. */
  lemma FlightsStep(s: System, e: Event, t: Thread)
    requires Enabled(s, e) && t in Step(s, e).flights
    ensures if e.a.Fetch? && e.a.t == t
            then e.a.name in s.store && Step(s, e).flights[t] == Flight(e.a.name, s.store[e.a.name])
            else e.a != Action.Store(t) && t in s.flights && Step(s, e).flights[t] == s.flights[t]
  {
  }

  lemma FlightsStayKnown(run: seq<Event>, e: Event, start: map<string, string>, t: Thread)
    requires Legal(run, start) && Legal(run + [e], start) && Known(run, start)
    requires Enabled(After(run, start), e) && After(run + [e], start) == Step(After(run, start), e)
    requires t in After(run + [e], start).flights
    ensures FlightKnown(run + [e], start, t)
  {
    hide Step, Enabled, Legal, After, InFlight, EntryKnown;
    FlightsStep(After(run, start), e, t);
    var f := After(run + [e], start).flights[t];
    if e.a.Fetch? && e.a.t == t {
      FetchedNow(run, e, start);
    } else {
      assert FlightKnown(run, start, t);
      var i :| InFlight(run, start, i, t, f.name, f.value);
      InFlightLater(run, e, start, i, t, f.name, f.value);
    }
  }

  /** Where an entry of the next state comes from. */
  lemma EntriesStep(s: System, e: Event, n: string)
    requires Enabled(s, e) && n in Step(s, e).cache
    ensures if e.a.Store? && e.a.t in s.flights && s.flights[e.a.t].name == n
            then Step(s, e).cache[n] == Entry(s.flights[e.a.t].value, e.now + CACHE_TTL, s.gen)
            else e.a != Action.Invalidate && n in s.cache && Step(s, e).cache[n] == s.cache[n]
  {
  }

  lemma EntriesStayKnown(run: seq<Event>, e: Event, start: map<string, string>, n: string)
    requires Legal(run, start) && Legal(run + [e], start) && Known(run, start)
    requires Enabled(After(run, start), e) && After(run + [e], start) == Step(After(run, start), e)
    requires n in After(run + [e], start).cache
    ensures EntryKnown(run + [e], start, n)
  {
    hide Step, Enabled, Legal, After, InFlight, Cached;
    var s := After(run, start);
    EntriesStep(s, e, n);
    var c := After(run + [e], start).cache[n];
    if e.a.Store? && e.a.t in s.flights && s.flights[e.a.t].name == n {
      assert FlightKnown(run, start, e.a.t);
      var i :| InFlight(run, start, i, e.a.t, n, s.flights[e.a.t].value);
      CachedNow(run, e, start, i, n, c.value, s.gen);
      assert Cached(run + [e], start, i, |run|, n, c);
    } else {
      assert EntryKnown(run, start, n);
      var i, j :| Cached(run, start, i, j, n, c);
      CachedLater(run, e, start, i, j, n, c);
    }
  }

  lemma GenerationsStay(s: System, e: Event)
    requires Enabled(s, e) && forall n | n in s.cache :: s.cache[n].gen == s.gen
    ensures forall n | n in Step(s, e).cache :: Step(s, e).cache[n].gen == Step(s, e).gen
  {
  }

  /** In every run each cached entry carries the current generation, and is what some
      lookup fetched and stored since the last invalidation. */
  lemma {:induction false} EntriesAreKnown(run: seq<Event>, start: map<string, string>)
    requires Legal(run, start)
    ensures Known(run, start)
  {
    if run != [] {
      var before, e := run[..|run| - 1], run[|run| - 1];
      assert before + [e] == run;
      AfterSnoc(before, e, start);
      hide Step, Legal, After, FlightKnown, EntryKnown, Enabled;
      EntriesAreKnown(before, start);
      GenerationsStay(After(before, start), e);
      forall t | t in After(run, start).flights ensures FlightKnown(run, start, t) {
        FlightsStayKnown(before, e, start, t);
      }
      forall n | n in After(run, start).cache ensures EntryKnown(run, start, n) {
        EntriesStayKnown(before, e, start, n);
      }
    }
  }

  /** A served value is what a fetch decrypted, less than the TTL after it was stored. */
  lemma ServedWasFetched(run: seq<Event>, start: map<string, string>, n: string, now: int) returns (i: nat, j: nat)
    requires Legal(run, start) && Usable(After(run, start).cache, After(run, start).gen, n, now).Some?
    ensures Cached(run, start, i, j, n, After(run, start).cache[n])
    ensures now - run[i].now < 300_000_000_000 + (run[j].now - run[i].now)
  {
    EntriesAreKnown(run, start);
    assert EntryKnown(run, start, n);
    i, j :| Cached(run, start, i, j, n, After(run, start).cache[n]);
  }

  // ---- Coherence ----

  ghost predicate Writes(e: Event, n: string) { e.a.Write? && e.a.name == n }

  /** Every write to n has been followed by an invalidation. */
  ghost predicate Settled(run: seq<Event>, n: string) {
    forall p | 0 <= p < |run| && Writes(run[p], n) :: exists q :: p < q < |run| && run[q].a == Invalidate
  }

  /** Between fetching n at event i and storing it at event j, n was written and the cache
      invalidated. */
  ghost predicate Straddles(run: seq<Event>, i: nat, j: nat, n: string)
    requires i < j < |run|
  {
    exists p, q :: i < p < q < j && Writes(run[p], n) && run[q].a == Invalidate
  }

  ghost predicate NoStraddling(run: seq<Event>, n: string) {
    forall i: nat, j: nat | Carries(run, i, j) && run[i].a.name == n :: !Straddles(run, i, j, n)
  }

  lemma WriteSinceFetchStraddles(run: seq<Event>, start: map<string, string>, i: nat, j: nat, n: string,
                                 c: Entry, p: nat)
    requires Legal(run, start) && Cached(run, start, i, j, n, c)
    requires Settled(run, n) && i <= p < |run| && Writes(run[p], n)
    ensures Straddles(run, i, j, n)
  {
    var q :| p < q < |run| && run[q].a == Invalidate;
  }

  // ---- Exactly when a lookup is current ----

  /** What write p stored for n; -1 stands for the start. */
  ghost function Written(run: seq<Event>, start: map<string, string>, p: int, n: string): Option<string>
    requires -1 <= p < |run| && (p >= 0 ==> Writes(run[p], n))
  {
    if p >= 0 then run[p].a.value else if n in start then Some(start[n]) else None
  }

  /** No two writes to n store the same, and none stores what was there at the start. */
  ghost predicate NoRepeats(run: seq<Event>, start: map<string, string>, n: string) {
    forall p, q | -1 <= p < q < |run| && (p >= 0 ==> Writes(run[p], n)) && Writes(run[q], n) ::
      Written(run, start, p, n) != Written(run, start, q, n)
  }

  /** The store holds what the last write put there. */
  lemma {:induction false} LastWrite(run: seq<Event>, start: map<string, string>, i: nat, n: string) returns (p: int)
    requires Legal(run, start) && i <= |run|
    ensures -1 <= p < i && (p >= 0 ==> Writes(run[p], n))
    ensures forall q | p < q < i :: !Writes(run[q], n)
    ensures StoredAt(run, start, i, n) == Written(run, start, p, n)
  {
    if i == 0 {
      p := -1;
      assert run[..0] == [];
    } else {
      PrefixIsLegal(run, start, i);
      PrefixIsLegal(run, start, i - 1);
      assert run[..i] == run[..i - 1] + [run[i - 1]];
      AfterSnoc(run[..i - 1], run[i - 1], start);
      p := LastWrite(run, start, i - 1, n);
      hide Legal, After;
      if Writes(run[i - 1], n) { p := i - 1; }
    }
  }

  /** Between two moments the stored value is the same when nothing was written, and only
      then if no value is ever written again. */
  lemma StoredUnchangedIff(run: seq<Event>, start: map<string, string>, i: nat, k: nat, n: string)
    requires Legal(run, start) && i <= k <= |run|
    ensures (forall p | i <= p < k :: !Writes(run[p], n)) ==>
              StoredAt(run, start, k, n) == StoredAt(run, start, i, n)
    ensures NoRepeats(run, start, n) ==>
              (StoredAt(run, start, k, n) == StoredAt(run, start, i, n)
               <==> forall p | i <= p < k :: !Writes(run[p], n))
  {
    var p := LastWrite(run, start, i, n);
    var q := LastWrite(run, start, k, n);
    hide Legal, StoredAt, Writes;
    assert p <= q;
    if q < i { assert p == q; }
  }

  lemma StraddlesIffWritten(run: seq<Event>, start: map<string, string>, i: nat, j: nat, n: string, c: Entry)
    requires Legal(run, start) && Cached(run, start, i, j, n, c) && Settled(run, n)
    ensures Straddles(run, i, j, n) <==> exists p :: i <= p < |run| && Writes(run[p], n)
  {
    hide Fetched;
    if p :| i <= p < |run| && Writes(run[p], n) {
      WriteSinceFetchStraddles(run, start, i, j, n, c, p);
    }
  }

  /** A hit, once the writes are settled, is current when the lookup that filled the entry
      did not straddle a write and its invalidation, and, when no value is ever written
      again, only then. Lookups whose entries are gone do not matter. */
  lemma HitIsCurrentIff(run: seq<Event>, start: map<string, string>, n: string, now: int) returns (i: nat, j: nat)
    requires Legal(run, start) && Settled(run, n)
    requires Usable(After(run, start).cache, After(run, start).gen, n, now).Some?
    ensures Cached(run, start, i, j, n, After(run, start).cache[n])
    ensures !Straddles(run, i, j, n) ==>
              StoredAt(run, start, |run|, n) == Usable(After(run, start).cache, After(run, start).gen, n, now)
    ensures NoRepeats(run, start, n) ==>
              (StoredAt(run, start, |run|, n) == Usable(After(run, start).cache, After(run, start).gen, n, now)
               <==> !Straddles(run, i, j, n))
  {
    i, j := ServedWasFetched(run, start, n, now);
    var c := After(run, start).cache[n];
    assert Fetched(run, start, i, run[i].a.t, n, c.value);
    StraddlesIffWritten(run, start, i, j, n, c);
    StoredUnchangedIff(run, start, i, |run|, n);
    hide Legal, StoredAt, Writes, Straddles, Settled, NoRepeats;
  }

  /** When no lookup of n straddles a write and its invalidation, every hit once the writes
      are settled serves exactly what the store holds. */
  lemma SettledHitsAreCurrent(run: seq<Event>, start: map<string, string>, n: string, now: int)
    requires Legal(run, start) && Settled(run, n) && NoStraddling(run, n)
    requires Usable(After(run, start).cache, After(run, start).gen, n, now).Some?
    ensures StoredAt(run, start, |run|, n) == Usable(After(run, start).cache, After(run, start).gen, n, now)
  {
    var i, j := HitIsCurrentIff(run, start, n, now);
  }

  /** A lookup that misses answers, at event j, what the store held at its fetch; that is
      still what the store holds when nothing was written in between, and, when no value is
      ever written again, only then. */
  lemma MissIsCurrentIff(run: seq<Event>, start: map<string, string>, j: nat) returns (i: nat)
    requires Legal(run, start) && j < |run| && run[j].a.Store?
    ensures Legal(run[..j], start) && run[j].a.t in After(run[..j], start).flights
    ensures var f := After(run[..j], start).flights[run[j].a.t];
            && Carries(run, i, j) && run[i].a.name == f.name
            && StoredAt(run, start, i, f.name) == Some(f.value)
            && ((forall p | i <= p < j :: !Writes(run[p], f.name)) ==>
                  StoredAt(run, start, j, f.name) == Some(f.value))
            && (NoRepeats(run, start, f.name) ==>
                  (StoredAt(run, start, j, f.name) == Some(f.value)
                   <==> forall p | i <= p < j :: !Writes(run[p], f.name)))
  {
    i := FlightOfStore(run, start, j);
    StoredUnchangedIff(run, start, i, j, After(run[..j], start).flights[run[j].a.t].name);
    hide Legal, After, StoredAt, NoRepeats;
  }

  lemma StepIsEnabled(run: seq<Event>, start: map<string, string>, j: nat)
    requires Legal(run, start) && j < |run|
    ensures Legal(run[..j], start) && Enabled(After(run[..j], start), run[j])
  {
    PrefixIsLegal(run, start, j + 1);
    assert run[..j + 1] == run[..j] + [run[j]];
    AfterSnoc(run[..j], run[j], start);
  }

  lemma FlightOfStore(run: seq<Event>, start: map<string, string>, j: nat) returns (i: nat)
    requires Legal(run, start) && j < |run| && run[j].a.Store?
    ensures Legal(run[..j], start) && run[j].a.t in After(run[..j], start).flights
    ensures var f := After(run[..j], start).flights[run[j].a.t];
            Carries(run, i, j) && run[i].a.name == f.name && StoredAt(run, start, i, f.name) == Some(f.value)
  {
    hide Legal, After, EntryKnown;
    var before, t := run[..j], run[j].a.t;
    StepIsEnabled(run, start, j);
    EntriesAreKnown(before, start);
    assert FlightKnown(before, start, t);
    var f := After(before, start).flights[t];
    i :| InFlight(before, start, i, t, f.name, f.value);
    assert before[..i] == run[..i];
  }

  /** After an invalidation nothing is served from the cache until a lookup stores again. */
  lemma HitNeedsLaterStore(run: seq<Event>, start: map<string, string>, k: nat, n: string, now: int)
    returns (i: nat, j: nat)
    requires Legal(run, start) && k < |run| && run[k].a == Invalidate
    requires Usable(After(run, start).cache, After(run, start).gen, n, now).Some?
    ensures k < j && Carries(run, i, j) && run[i].a.name == n
  {
    i, j := ServedWasFetched(run, start, n, now);
  }

  const BEFORE: map<string, string> := map["k" := "old"]

  function StaleRun(): seq<Event> {
    [Event(Fetch(1, "k"), 0), Event(Write("k", Some("new")), 1), Event(Invalidate, 2), Event(Store(1), 3)]
  }

  lemma AfterStaleRun()
    ensures Legal(StaleRun(), BEFORE)
    ensures After(StaleRun(), BEFORE)
         == System(map["k" := Entry("old", 3 + 300_000_000_000, 1)], 1, map["k" := "new"], map[])
  {
    var run := StaleRun();
    var e0, e1, e2, e3 := run[0], run[1], run[2], run[3];
    assert Legal([], BEFORE) && After([], BEFORE) == System(map[], 0, BEFORE, map[]);
    assert [] + [e0] == [e0] && [e0] + [e1] == [e0, e1];
    assert [e0, e1] + [e2] == [e0, e1, e2] && [e0, e1, e2] + [e3] == run;
    hide Legal, After;
    AfterSnoc([], e0, BEFORE);
    AfterSnoc([e0], e1, BEFORE);
    AfterSnoc([e0, e1], e2, BEFORE);
    AfterSnoc([e0, e1, e2], e3, BEFORE);
  }

  /** A lookup that does straddle one leaves the old value behind, current generation and
      all: here "old" is still served after the store has said "new" and the cache was
      invalidated. */
  lemma StraddlingServesStale()
    ensures var run := StaleRun();
            && Legal(run, BEFORE) && Settled(run, "k") && Carries(run, 0, 3) && Straddles(run, 0, 3, "k")
            && Usable(After(run, BEFORE).cache, After(run, BEFORE).gen, "k", 4) == Some("old")
            && After(run, BEFORE).store == map["k" := "new"]
  {
    hide Legal, After;
    var run := StaleRun();
    AfterStaleRun();
    assert run[2].a == Invalidate && Writes(run[1], "k");
  }
}
