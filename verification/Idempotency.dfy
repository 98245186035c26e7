/** The Idempotency-Key middleware of internal/middleware/idempotency.go, one request or sweep at a time. */
module Idempotency {
  import opened Options
  import opened Responses
  import opened Arithmetic

  datatype Cached = Cached(response: Response, expiresAt: int)

  type Entries = map<string, Cached>

  /** A sweep, or a request: its clock is read when the cache is asked and again when the response is stored. */
  datatype Event =
    | Request(method_: string, path: string, key: string, tGet: int, acts: seq<Action>, tSet: int)
    | Reap(at: int)

  datatype Config = Config(ttl: int, prefixes: seq<string>)

  const DAY: int := 86_400_000_000_000

  /** Zero values stand for the defaults. */
  function Defaulted(c: Config): Config {
    Config(if c.ttl == 0 then DAY else c.ttl, if |c.prefixes| == 0 then ["/v1/documents"] else c.prefixes)
  }

  predicate Matches(path: string, prefixes: seq<string>) {
    exists i :: 0 <= i < |prefixes| && prefixes[i] <= path
  }

  /** The requests the cache is for. */
  predicate Guarded(c: Config, e: Event) {
    e.Request? && e.method_ == "POST" && Matches(e.path, c.prefixes) && e.key != ""
  }

  predicate Fresh(cr: Option<Cached>, now: int) {
    cr.Some? && now <= cr.value.expiresAt
  }

  function Find(m: Entries, key: string): Option<Cached> {
    if key in m then Some(m[key]) else None
  }

  /** The entry found, unless it has expired. */
  function Lookup(m: Entries, key: string, now: int): Option<Cached> {
    if Fresh(Find(m, key), now) then Find(m, key) else None
  }

  /** A lookup removes the entry it finds expired. */
  function AfterLookup(m: Entries, key: string, now: int): Entries {
    if Fresh(Find(m, key), now) then m else m - {key}
  }

  function Sweep(m: Entries, now: int): Entries {
    map k | k in m && now <= m[k].expiresAt :: m[k]
  }

  /** What a handler run leaves in the cache. */
  function Stored(c: Config, e: Event): Cached
    requires e.Request?
  {
    Cached(Recorded(e.acts), e.tSet + c.ttl)
  }

  function Step(c: Config, m: Entries, e: Event): Entries {
    if e.Reap? then Sweep(m, e.at)
    else if !Guarded(c, e) then m
    else if Lookup(m, e.key, e.tGet).Some? then m
    else AfterLookup(m, e.key, e.tGet)[e.key := Stored(c, e)]
  }

  // ----- Runs -----

  function CacheAt(c: Config, trace: seq<Event>, n: nat): Entries
    requires n <= |trace|
  {
    if n == 0 then map[] else Step(c, CacheAt(c, trace, n - 1), trace[n - 1])
  }

  /** The cached response that answers request k, if it is answered from the cache. */
  function Answer(c: Config, trace: seq<Event>, k: nat): Option<Cached>
    requires k < |trace| && trace[k].Request?
  {
    if Guarded(c, trace[k]) then Lookup(CacheAt(c, trace, k), trace[k].key, trace[k].tGet) else None
  }

  /** Request k runs the handler and its response is recorded under its key. */
  predicate Records(c: Config, trace: seq<Event>, key: string, k: nat)
    requires k < |trace|
  {
    Guarded(c, trace[k]) && trace[k].key == key && Answer(c, trace, k).None?
  }

  function Start(e: Event): int {
    if e.Request? then e.tGet else e.at
  }

  function Done(e: Event): int {
    if e.Request? then e.tSet else e.at
  }

  function Now(start: int, trace: seq<Event>, n: nat): int
    requires n <= |trace|
  {
    if n == 0 then start else Done(trace[n - 1])
  }

  /** The clock never runs backwards. */
  ghost predicate Clocked(start: int, trace: seq<Event>) {
    forall k {:trigger Now(start, trace, k)} :: 0 <= k < |trace| ==>
      Now(start, trace, k) <= Start(trace[k]) <= Done(trace[k])
  }

  // ----- The log -----

  /** The response recorded last under a key, from requests alone:
      a request records when the latest record has expired. */
  function Latest(c: Config, trace: seq<Event>, key: string, n: nat): Option<Cached>
    requires n <= |trace|
  {
    if n == 0 then None
    else
      var e, latest := trace[n - 1], Latest(c, trace, key, n - 1);
      if Guarded(c, e) && e.key == key && !Fresh(latest, e.tGet) then Some(Stored(c, e)) else latest
  }

  /** The cache holds the latest record of a key, unless that record has expired. */
  ghost predicate Agrees(m: Entries, key: string, latest: Option<Cached>, now: int) {
    if key in m then latest == Some(m[key]) else !Fresh(latest, now)
  }

  lemma {:induction false} CacheAgrees(c: Config, start: int, trace: seq<Event>, key: string, n: nat)
    requires Clocked(start, trace) && n <= |trace|
    ensures Agrees(CacheAt(c, trace, n), key, Latest(c, trace, key, n), Now(start, trace, n))
  {
    if n > 0 {
      CacheAgrees(c, start, trace, key, n - 1);
      assert Now(start, trace, n - 1) <= Start(trace[n - 1]) <= Done(trace[n - 1]);
    }
  }

  /** A request is answered from the cache exactly by the latest record of its key, while that has not expired.
      Lazy deletes and sweeps leave no trace in any answer: the log knows nothing of them. */
  lemma AnswersFromLog(c: Config, start: int, trace: seq<Event>, k: nat)
    requires Clocked(start, trace) && k < |trace| && Guarded(c, trace[k])
    ensures var latest := Latest(c, trace, trace[k].key, k);
            Answer(c, trace, k) == if Fresh(latest, trace[k].tGet) then latest else None
  {
    CacheAgrees(c, start, trace, trace[k].key, k);
    assert Now(start, trace, k) <= Start(trace[k]);
  }

  /** The latest record was made by an earlier request under the key, and no request since has run the handler. */
  lemma {:induction false} LatestIsRecorded(c: Config, start: int, trace: seq<Event>, key: string, n: nat)
    returns (k: nat)
    requires Clocked(start, trace) && n <= |trace| && Latest(c, trace, key, n).Some?
    ensures k < n && Records(c, trace, key, k) && Latest(c, trace, key, n).value == Stored(c, trace[k])
    ensures forall j :: k < j < n ==> !Records(c, trace, key, j)
  {
    var e := trace[n - 1];
    if Guarded(c, e) && e.key == key {
      AnswersFromLog(c, start, trace, n - 1);
    }
    if Guarded(c, e) && e.key == key && !Fresh(Latest(c, trace, key, n - 1), e.tGet) {
      k := n - 1;
    } else {
      k := LatestIsRecorded(c, start, trace, key, n - 1);
    }
  }

  /** Every request answered from the cache is answered with the response recorded most recently before it,
      by a handler run under the same key that ended at most ttl ago. */
  lemma ReplaysTheLatestRun(c: Config, start: int, trace: seq<Event>, k: nat) returns (i: nat)
    requires Clocked(start, trace) && k < |trace| && trace[k].Request? && Answer(c, trace, k).Some?
    ensures i < k && Records(c, trace, trace[k].key, i) && trace[k].tGet <= trace[i].tSet + c.ttl
    ensures Answer(c, trace, k).value.response == Recorded(trace[i].acts)
    ensures forall j :: i < j <= k ==> !Records(c, trace, trace[k].key, j)
  {
    AnswersFromLog(c, start, trace, k);
    i := LatestIsRecorded(c, start, trace, trace[k].key, k);
  }

  // ----- Bounded re-execution -----

  /** After a handler run, the latest record expires no earlier than that run's. */
  lemma {:induction false} LatestSince(c: Config, start: int, trace: seq<Event>, key: string, i: nat, n: nat)
    requires Clocked(start, trace) && i < n <= |trace| && Records(c, trace, key, i)
    ensures Latest(c, trace, key, n).Some? && trace[i].tSet + c.ttl <= Latest(c, trace, key, n).value.expiresAt
    ensures trace[i].tSet <= Now(start, trace, n)
    decreases n
  {
    if i == n - 1 {
      AnswersFromLog(c, start, trace, i);
    } else {
      LatestSince(c, start, trace, key, i, n - 1);
      assert Now(start, trace, n - 1) <= Start(trace[n - 1]) <= Done(trace[n - 1]);
    }
  }

  /** Two handler runs under one key: the second starts more than ttl after the first was recorded. */
  lemma RunsAreTtlApart(c: Config, start: int, trace: seq<Event>, key: string, i: nat, j: nat)
    requires Clocked(start, trace) && i < j < |trace| && Records(c, trace, key, i) && Records(c, trace, key, j)
    ensures trace[i].tSet + c.ttl < trace[j].tGet
  {
    LatestSince(c, start, trace, key, i, j);
    AnswersFromLog(c, start, trace, j);
  }

  /** Of two POSTs to guarded paths with the same key, the second, arriving no later than ttl after the run of the first
      was recorded, does not run the handler. */
  lemma RepeatedPostIsReplayed(c: Config, start: int, trace: seq<Event>, i: nat, j: nat, p: nat, q: nat)
    requires Clocked(start, trace) && i < j < |trace| && trace[i].Request? && trace[j].Request?
    requires trace[i].method_ == "POST" && trace[j].method_ == "POST" && trace[i].key == trace[j].key != ""
    requires p < |c.prefixes| && |c.prefixes[p]| <= |trace[i].path| && trace[i].path[..|c.prefixes[p]|] == c.prefixes[p]
    requires q < |c.prefixes| && |c.prefixes[q]| <= |trace[j].path| && trace[j].path[..|c.prefixes[q]|] == c.prefixes[q]
    requires Answer(c, trace, i).None? && trace[j].tGet <= trace[i].tSet + c.ttl
    ensures Answer(c, trace, j).Some?
  {
    assert c.prefixes[p] <= trace[i].path && c.prefixes[q] <= trace[j].path;
    if Answer(c, trace, j).None? {
      RunsAreTtlApart(c, start, trace, trace[i].key, i, j);
    }
  }

  /** How many of the events i, ..., j - 1 run the handler under the key. */
  function RunCount(c: Config, trace: seq<Event>, key: string, i: nat, j: nat): nat
    requires i <= j <= |trace|
    decreases j
  {
    if i == j then 0 else RunCount(c, trace, key, i, j - 1) + (if Records(c, trace, key, j - 1) then 1 else 0)
  }

  lemma {:induction false} RunsFillTime(c: Config, start: int, trace: seq<Event>, key: string, i: nat, j: nat)
    requires Clocked(start, trace) && i <= j <= |trace| && c.ttl >= 0
    ensures Now(start, trace, i) <= Now(start, trace, j)
    ensures var runs := RunCount(c, trace, key, i, j);
            runs > 0 ==>
              var latest := Latest(c, trace, key, j);
              && latest.Some?
              && Now(start, trace, i) + Product(c.ttl + 1, runs - 1) + c.ttl
                 <= latest.value.expiresAt <= Now(start, trace, j) + c.ttl
    decreases j
  {
    if i < j {
      RunsFillTime(c, start, trace, key, i, j - 1);
      var e := trace[j - 1];
      assert Now(start, trace, j - 1) <= Start(e) <= Done(e);
      if Guarded(c, e) && e.key == key {
        AnswersFromLog(c, start, trace, j - 1);
      }
    }
  }

  /** In any window of a run, n handler runs under one key need n - 1 times more than ttl. */
  lemma RunsPerWindow(c: Config, start: int, trace: seq<Event>, key: string, i: nat, j: nat)
    requires Clocked(start, trace) && i <= j <= |trace|
    ensures Now(start, trace, i) <= Now(start, trace, j)
    ensures RunCount(c, trace, key, i, j) > 0 ==>
              (c.ttl + 1) * (RunCount(c, trace, key, i, j) - 1) <= Now(start, trace, j) - Now(start, trace, i)
  {
    NowGrows(start, trace, i, j);
    var runs := RunCount(c, trace, key, i, j);
    if runs > 0 {
      if c.ttl >= 0 {
        RunsFillTime(c, start, trace, key, i, j);
        ProductIs(c.ttl + 1, runs - 1);
      } else {
        NotPositive(c.ttl + 1, runs - 1);
      }
    }
  }

  lemma NotPositive(a: int, n: nat)
    requires a <= 0
    ensures a * n <= 0
  {
  }

  lemma {:induction false} NowGrows(start: int, trace: seq<Event>, i: nat, j: nat)
    requires Clocked(start, trace) && i <= j <= |trace|
    ensures Now(start, trace, i) <= Now(start, trace, j)
    decreases j
  {
    if i < j {
      NowGrows(start, trace, i, j - 1);
      assert Now(start, trace, j - 1) <= Start(trace[j - 1]) <= Done(trace[j - 1]);
    }
  }

  // ----- Retention -----

  /** The time of the latest sweep, or of the start when there was none. */
  function LastSweep(start: int, trace: seq<Event>, n: nat): int
    requires n <= |trace|
  {
    if n == 0 then start else if trace[n - 1].Reap? then trace[n - 1].at else LastSweep(start, trace, n - 1)
  }

  /** How long a record outlives its making: not at all when the configured ttl is negative. */
  function Lifetime(c: Config): nat {
    if c.ttl >= 0 then c.ttl else 0
  }

  lemma {:induction false} SweptEntries(c: Config, start: int, trace: seq<Event>, n: nat)
    requires Clocked(start, trace) && n <= |trace|
    ensures LastSweep(start, trace, n) <= Now(start, trace, n)
    ensures forall k :: k in CacheAt(c, trace, n) ==>
              LastSweep(start, trace, n) - Lifetime(c) <= CacheAt(c, trace, n)[k].expiresAt - c.ttl
  {
    if n > 0 {
      SweptEntries(c, start, trace, n - 1);
      assert Now(start, trace, n - 1) <= Start(trace[n - 1]) <= Done(trace[n - 1]);
    }
  }

  /** With a sweep at least every period from the start on, every entry in the cache was recorded
      within the last lifetime plus period. */
  lemma RetentionBound(c: Config, start: int, trace: seq<Event>, period: nat, now: int, key: string) returns (k: nat)
    requires Clocked(start, trace) && now <= LastSweep(start, trace, |trace|) + period
    requires key in CacheAt(c, trace, |trace|)
    ensures k < |trace| && Records(c, trace, key, k) && CacheAt(c, trace, |trace|)[key] == Stored(c, trace[k])
    ensures now - (Lifetime(c) + period) <= trace[k].tSet
  {
    SweptEntries(c, start, trace, |trace|);
    CacheAgrees(c, start, trace, key, |trace|);
    k := LatestIsRecorded(c, start, trace, key, |trace|);
  }

  // ----- Growing histories -----

  lemma {:induction false} CacheSnoc(c: Config, trace: seq<Event>, e: Event, key: string, n: nat)
    requires n <= |trace|
    ensures CacheAt(c, trace + [e], n) == CacheAt(c, trace, n)
    ensures Latest(c, trace + [e], key, n) == Latest(c, trace, key, n)
  {
    if n > 0 {
      CacheSnoc(c, trace, e, key, n - 1);
    }
  }

  datatype Outcome = PassedThrough | Replayed(cached: Cached) | Ran

  /** What a request comes to, by the log of the requests before it. */
  function Expected(c: Config, trace: seq<Event>, e: Event): Outcome
    requires e.Request?
  {
    if !Guarded(c, e) then PassedThrough
    else
      var latest := Latest(c, trace, e.key, |trace|);
      if Fresh(latest, e.tGet) then Replayed(latest.value) else Ran
  }

  lemma HistoryGrows(c: Config, start: int, trace: seq<Event>, e: Event)
    ensures CacheAt(c, trace + [e], |trace + [e]|) == Step(c, CacheAt(c, trace, |trace|), e)
    ensures Clocked(start, trace + [e]) && Guarded(c, e) ==>
              var found := Lookup(CacheAt(c, trace, |trace|), e.key, e.tGet);
              Expected(c, trace, e) == if found.Some? then Replayed(found.value) else Ran
    ensures Guarded(c, e) ==> Answer(c, trace + [e], |trace|) == Lookup(CacheAt(c, trace, |trace|), e.key, e.tGet)
  {
    var key := if e.Request? then e.key else "";
    CacheSnoc(c, trace, e, key, |trace|);
    if Clocked(start, trace + [e]) && Guarded(c, e) {
      AnswersFromLog(c, start, trace + [e], |trace|);
    }
  }

  // ----- The classes -----

  class IdempotencyCache {
    var entries: map<string, Cached>

    constructor ()
      ensures entries == map[]
    {
      entries := map[];
    }

    method Get(key: string, now: int) returns (r: Option<Cached>)
      modifies this
      ensures r == Lookup(old(entries), key, now)
      ensures entries == AfterLookup(old(entries), key, now)
      ensures r.Some? <==> key in old(entries) && now <= old(entries)[key].expiresAt
      ensures if r.Some? then r.value == old(entries)[key] && entries == old(entries)
              else entries == old(entries) - {key}
    {
      if key !in entries {
        assert entries - {key} == entries;
        return None;
      }
      var cr := entries[key];
      if now > cr.expiresAt {
        entries := entries - {key};
        return None;
      }
      return Some(cr);
    }

    method Set(key: string, cr: Cached)
      modifies this
      ensures entries == old(entries)[key := cr]
    {
      entries := entries[key := cr];
    }

    method Reap(now: int)
      modifies this
      ensures entries == Sweep(old(entries), now)
      ensures forall k :: k in entries <==> k in old(entries) && now <= old(entries)[k].expiresAt
      ensures forall k :: k in entries ==> entries[k] == old(entries)[k]
    {
      var todo := entries.Keys;
      while todo != {}
        invariant todo <= old(entries).Keys
        invariant entries
               == map k | k in old(entries) && (k in todo || now <= old(entries)[k].expiresAt) :: old(entries)[k]
        decreases todo
      {
        var key :| key in todo;
        if now > entries[key].expiresAt {
          entries := entries - {key};
        }
        todo := todo - {key};
      }
    }
  }

  method MatchesAnyPrefix(path: string, prefixes: seq<string>) returns (b: bool)
    ensures b <==> exists i :: 0 <= i < |prefixes| && |prefixes[i]| <= |path| && path[..|prefixes[i]|] == prefixes[i]
    ensures b == Matches(path, prefixes)
  {
    for i := 0 to |prefixes|
      invariant forall j :: 0 <= j < i ==> !(prefixes[j] <= path)
    {
      if prefixes[i] <= path {
        return true;
      }
    }
    return false;
  }

  class Middleware {
    const config: Config
    const cache: IdempotencyCache
    ghost const start: int
    ghost var trace: seq<Event>  // every request and sweep so far

    ghost predicate Valid()
      reads this, cache
    {
      cache.entries == CacheAt(config, trace, |trace|)
    }

    constructor (c: Config, ghost now: int)
      ensures Valid() && fresh(cache) && config == Defaulted(c) && start == now && trace == []
      ensures config.ttl == if c.ttl == 0 then 24 * 3600 * 1_000_000_000 else c.ttl
      ensures config.prefixes == if c.prefixes == [] then ["/v1/documents"] else c.prefixes
    {
      config := Defaulted(c);
      cache := new IdempotencyCache();
      start := now;
      trace := [];
    }

    /** One request. As long as the clock keeps order, the log of earlier requests decides whether the handler runs;
        the client gets the handler's calls, or a replay of the latest record. */
    method Serve(method_: string, path: string, key: string, tGet: int, acts: seq<Action>, tSet: int, w: ResponseWriter)
      returns (r: Outcome)
      requires Valid() && w.calls == []
      modifies this`trace, cache, w
      ensures Valid() && trace == old(trace) + [Request(method_, path, key, tGet, acts, tSet)]
      ensures Clocked(start, trace) ==> r == Expected(config, old(trace), Request(method_, path, key, tGet, acts, tSet))
      ensures r.PassedThrough? <==> method_ != "POST" || key == "" || forall i :: 0 <= i < |config.prefixes| ==>
                !(|config.prefixes[i]| <= |path| && path[..|config.prefixes[i]|] == config.prefixes[i])
      ensures r.PassedThrough? ==> cache.entries == old(cache.entries)
      ensures !r.PassedThrough? ==>
                var answer := Answer(config, trace, |trace| - 1);
                r == if answer.Some? then Replayed(answer.value) else Ran
      ensures r.Ran? ==>
                cache.entries == old(cache.entries)[key := Cached(Recorded(acts), tSet + config.ttl)]
      ensures r.Replayed? ==> cache.entries == old(cache.entries)
      ensures w.calls == if r.Replayed? then Replay(r.cached.response) else acts
    {
      ghost var e := Request(method_, path, key, tGet, acts, tSet);
      HistoryGrows(config, start, trace, e);
      trace := trace + [e];
      var matches := MatchesAnyPrefix(path, config.prefixes);
      if method_ != "POST" || !matches {
        Handle(w, acts);
        return PassedThrough;
      }
      if key == "" {
        Handle(w, acts);
        return PassedThrough;
      }
      var found := cache.Get(key, tGet);
      if found.Some? {
        w.Do(WriteHeader(found.value.response.status));
        w.Do(Write(found.value.response.body));
        return Replayed(found.value);
      }
      var rec := new ResponseRecorder(w);
      rec.Handle(acts);
      assert w.calls == acts;
      cache.Set(key, Cached(Response(rec.statusCode, rec.body), tSet + config.ttl));
      return Ran;
    }

    method Tick(now: int)
      requires Valid()
      modifies this`trace, cache
      ensures Valid() && trace == old(trace) + [Reap(now)]
    {
      HistoryGrows(config, start, trace, Reap(now));
      trace := trace + [Reap(now)];
      cache.Reap(now);
    }
  }
}
