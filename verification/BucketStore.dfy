/** The store of one token bucket per principal of internal/middleware/ratelimit_principal.go,
    with its reaper, as a sequence of whole requests and sweeps. */
module BucketStores {
  import opened Arithmetic
  import opened TokenBuckets
  import Decimal

  type Buckets = map<string, Bucket>

  /** `interval` is the reaper's; without reaping, sweeps change nothing. */
  datatype Config = Config(rpm: nat, interval: int, reaping: bool)

  /** A request reads the clock when the store looks the bucket up and again when the bucket decides. */
  datatype Event =
    | Request(id: string, tGet: int, tAllow: int)
    | Tick(at: int)

  function Key(id: string): string {
    if id == "" then "anonymous" else id
  }

  /** Two identifiers are one principal when they are equal or both stand for nobody in particular. */
  predicate SamePrincipal(i: string, j: string) {
    i == j || (i in {"", "anonymous"} && j in {"", "anonymous"})
  }

  /** Keys tell principals apart. */
  lemma KeyIff(i: string, j: string)
    ensures Key(i) == Key(j) <==> SamePrincipal(i, j)
  {
  }

  function Lookup(rpm: nat, m: Buckets, key: string, now: int): Bucket {
    if key in m then m[key] else Fresh(rpm, now)
  }

  function Sweep(m: Buckets, cutoff: int): Buckets {
    map k | k in m && !(m[k].last < cutoff) :: m[k]
  }

  function Step(c: Config, m: Buckets, e: Event): Buckets {
    match e
    case Request(id, tGet, tAllow) =>
      m[Key(id) := After(c.rpm, Lookup(c.rpm, m, Key(id), tGet), tAllow)]
    case Tick(at) =>
      if c.reaping then Sweep(m, at - c.interval) else m
  }

  // ----- Runs -----

  /** The store after the first n events. */
  function StoreAt(c: Config, trace: seq<Event>, n: nat): Buckets
    requires n <= |trace|
  {
    if n == 0 then map[] else Step(c, StoreAt(c, trace, n - 1), trace[n - 1])
  }

  /** The decision on request k. */
  predicate Answer(c: Config, trace: seq<Event>, k: nat)
    requires k < |trace| && trace[k].Request?
  {
    Admits(c.rpm, Lookup(c.rpm, StoreAt(c, trace, k), Key(trace[k].id), trace[k].tGet), trace[k].tAllow)
  }

  predicate By(id: string, e: Event) {
    e.Request? && SamePrincipal(e.id, id)
  }

  /** How many requests of the principal are admitted among the events i, ..., j - 1. */
  function CountOf(c: Config, id: string, trace: seq<Event>, i: nat, j: nat): nat
    requires i <= j <= |trace|
    decreases j
  {
    if i == j then 0
    else CountOf(c, id, trace, i, j - 1) + (if By(id, trace[j - 1]) && Answer(c, trace, j - 1) then 1 else 0)
  }

  function Start(e: Event): int {
    if e.Request? then e.tGet else e.at
  }

  function Done(e: Event): int {
    if e.Request? then e.tAllow else e.at
  }

  function Now(start: int, trace: seq<Event>, n: nat): int
    requires n <= |trace|
  {
    if n == 0 then start else Done(trace[n - 1])
  }

  /** The clock never runs backwards. */
  ghost predicate Clocked(start: int, trace: seq<Event>) {
    forall k {:trigger Now(start, trace, k)} :: 0 <= k < |trace| ==>
      Now(start, trace, k) <= Start(trace[k]) <= Done(trace[k])
  }

  // ----- One principal's own bucket -----

  datatype Call = Call(tGet: int, tAllow: int)

  /** The principal's calls among the first n events. */
  function CallsOf(id: string, trace: seq<Event>, n: nat): (calls: seq<Call>)
    requires n <= |trace|
    ensures |calls| <= n
  {
    if n == 0 then []
    else if By(id, trace[n - 1]) then CallsOf(id, trace, n - 1) + [Call(trace[n - 1].tGet, trace[n - 1].tAllow)]
    else CallsOf(id, trace, n - 1)
  }

  function Times(calls: seq<Call>): (times: seq<int>)
    ensures |times| == |calls| && forall k :: 0 <= k < |calls| ==> times[k] == calls[k].tAllow
  {
    seq(|calls|, k requires 0 <= k < |calls| => calls[k].tAllow)
  }

  /** A bucket made for the first of these calls, after n of them and nothing else. */
  function Own(rpm: nat, calls: seq<Call>, n: nat): Bucket
    requires n <= |calls| && calls != []
  {
    Run(rpm, Fresh(rpm, calls[0].tGet), Times(calls), n)
  }

  predicate OwnAdmit(rpm: nat, calls: seq<Call>, k: nat)
    requires k < |calls|
  {
    Admit(rpm, Fresh(rpm, calls[0].tGet), Times(calls), k)
  }

  lemma OwnSnoc(rpm: nat, calls: seq<Call>, call: Call)
    ensures var n, more := |calls|, calls + [call];
            var before := if n == 0 then Fresh(rpm, call.tGet) else Own(rpm, calls, n);
            && Own(rpm, more, n) == before
            && Own(rpm, more, n + 1) == After(rpm, before, call.tAllow)
            && OwnAdmit(rpm, more, n) == Admits(rpm, before, call.tAllow)
  {
    if calls != [] {
      RunPrefix(rpm, Fresh(rpm, calls[0].tGet), Times(calls), Times(calls + [call]), |calls|);
    }
  }

  /** Evicting after this interval cannot be noticed: an evicted bucket would be full by the next call. */
  ghost predicate Harmless(c: Config) {
    c.reaping ==> c.interval >= MINUTE - 1
  }

  /** What is known of a principal's own bucket: it is sound, and its clock runs forwards. */
  ghost predicate OwnSound(rpm: nat, calls: seq<Call>, now: int) {
    calls != [] ==>
      && Valid(rpm, Own(rpm, calls, |calls|))
      && Own(rpm, calls, |calls|).last == calls[|calls| - 1].tAllow <= now
      && Ordered(calls[0].tGet, Times(calls))
  }

  /** The store holds the principal's own bucket, unless it evicted that after more than an interval of idleness. */
  ghost predicate Tracks(c: Config, m: Buckets, key: string, calls: seq<Call>, now: int) {
    if calls == [] then key !in m
    else if key in m then m[key] == Own(c.rpm, calls, |calls|)
    else c.reaping && Own(c.rpm, calls, |calls|).last < now - c.interval
  }

  /** A bucket idle for a minute decides like a fresh one. */
  lemma IdleIsFresh(rpm: nat, b: Bucket, tGet: int, tAllow: int)
    requires Valid(rpm, b) && b.last + MINUTE <= tGet <= tAllow
    ensures Admits(rpm, b, tAllow) == Admits(rpm, Fresh(rpm, tGet), tAllow)
    ensures After(rpm, b, tAllow) == After(rpm, Fresh(rpm, tGet), tAllow)
  {
    FullAfterMinute(rpm, b, tAllow);
    RefillPositive(rpm, tAllow - tGet);
  }

  lemma OwnStep(rpm: nat, calls: seq<Call>, call: Call, now: int)
    requires OwnSound(rpm, calls, now) && now <= call.tGet <= call.tAllow
    ensures OwnSound(rpm, calls + [call], call.tAllow)
  {
    var b := if calls == [] then Fresh(rpm, call.tGet) else Own(rpm, calls, |calls|);
    OwnSnoc(rpm, calls, call);
    RefillPositive(rpm, call.tAllow - b.last);
    var times, more := Times(calls), Times(calls + [call]);
    forall k | 0 <= k < |more| ensures Gap((calls + [call])[0].tGet, more, k) >= 0 {
      if k < |times| {
        assert Gap(calls[0].tGet, times, k) >= 0;
      }
    }
  }

  /** The decision and the new bucket are those of the principal's own bucket, held or evicted. */
  lemma RequestTracks(c: Config, m: Buckets, key: string, calls: seq<Call>, call: Call, now: int)
    requires Harmless(c) && Tracks(c, m, key, calls, now) && OwnSound(c.rpm, calls, now)
    requires now <= call.tGet <= call.tAllow
    ensures var b := Lookup(c.rpm, m, key, call.tGet);
            && Admits(c.rpm, b, call.tAllow) == OwnAdmit(c.rpm, calls + [call], |calls|)
            && After(c.rpm, b, call.tAllow) == Own(c.rpm, calls + [call], |calls| + 1)
  {
    OwnSnoc(c.rpm, calls, call);
    if calls != [] && key !in m {
      IdleIsFresh(c.rpm, Own(c.rpm, calls, |calls|), call.tGet, call.tAllow);
    }
  }

  lemma TracksRequest(c: Config, m: Buckets, id: string, calls: seq<Call>, e: Event, now: int)
    requires Harmless(c) && Tracks(c, m, Key(id), calls, now) && OwnSound(c.rpm, calls, now)
    requires By(id, e) && now <= e.tGet <= e.tAllow
    ensures Tracks(c, Step(c, m, e), Key(id), calls + [Call(e.tGet, e.tAllow)], e.tAllow)
    ensures OwnSound(c.rpm, calls + [Call(e.tGet, e.tAllow)], e.tAllow)
  {
    KeyIff(e.id, id);
    OwnStep(c.rpm, calls, Call(e.tGet, e.tAllow), now);
    RequestTracks(c, m, Key(id), calls, Call(e.tGet, e.tAllow), now);
  }

  lemma TracksOther(c: Config, m: Buckets, id: string, calls: seq<Call>, e: Event, now: int)
    requires Tracks(c, m, Key(id), calls, now) && OwnSound(c.rpm, calls, now)
    requires !By(id, e) && now <= Start(e) <= Done(e)
    ensures Tracks(c, Step(c, m, e), Key(id), calls, Done(e)) && OwnSound(c.rpm, calls, Done(e))
  {
    if e.Request? {
      KeyIff(e.id, id);
    }
  }

  lemma {:induction false} StoreTracks(c: Config, start: int, trace: seq<Event>, id: string, n: nat)
    requires Harmless(c) && Clocked(start, trace) && n <= |trace|
    ensures Tracks(c, StoreAt(c, trace, n), Key(id), CallsOf(id, trace, n), Now(start, trace, n))
    ensures OwnSound(c.rpm, CallsOf(id, trace, n), Now(start, trace, n))
  {
    if n > 0 {
      StoreTracks(c, start, trace, id, n - 1);
      var e, calls, now := trace[n - 1], CallsOf(id, trace, n - 1), Now(start, trace, n - 1);
      assert now <= Start(e) <= Done(e);
      if By(id, e) {
        TracksRequest(c, StoreAt(c, trace, n - 1), id, calls, e, now);
      } else {
        TracksOther(c, StoreAt(c, trace, n - 1), id, calls, e, now);
      }
    }
  }

  /** A call of the principal is decided by its own bucket. */
  lemma AnswerIsOwn(c: Config, start: int, trace: seq<Event>, id: string, k: nat)
    requires Harmless(c) && Clocked(start, trace) && k < |trace| && By(id, trace[k])
    ensures var calls, call := CallsOf(id, trace, k), Call(trace[k].tGet, trace[k].tAllow);
            && CallsOf(id, trace, k + 1) == calls + [call]
            && Answer(c, trace, k) == OwnAdmit(c.rpm, calls + [call], |calls|)
  {
    var e := trace[k];
    KeyIff(e.id, id);
    StoreTracks(c, start, trace, id, k);
    assert Now(start, trace, k) <= Start(e) <= Done(e);
    var calls, call := CallsOf(id, trace, k), Call(e.tGet, e.tAllow);
    RequestTracks(c, StoreAt(c, trace, k), Key(id), calls, call, Now(start, trace, k));
  }

  /** In any interleaved run with reaping, each decision is that of a bucket the principal has for itself. */
  lemma PrincipalsAreIsolated(c: Config, start: int, trace: seq<Event>, k: nat)
    requires Harmless(c) && Clocked(start, trace) && k < |trace| && trace[k].Request?
    ensures var calls := CallsOf(trace[k].id, trace, k + 1);
            calls != [] && Answer(c, trace, k) == OwnAdmit(c.rpm, calls, |calls| - 1)
  {
    AnswerIsOwn(c, start, trace, trace[k].id, k);
  }

  /** What others do, and how often the reaper sweeps, cannot change a decision:
      it depends on the principal's own calls alone. */
  lemma OthersDoNotMatter(c: Config, start: int, s: seq<Event>, i: nat, t: seq<Event>, j: nat)
    requires Harmless(c) && Clocked(start, s) && Clocked(start, t)
    requires i < |s| && j < |t| && s[i].Request? && t[j].Request?
    requires CallsOf(s[i].id, s, i + 1) == CallsOf(t[j].id, t, j + 1)
    ensures Answer(c, s, i) == Answer(c, t, j)
  {
    PrincipalsAreIsolated(c, start, s, i);
    PrincipalsAreIsolated(c, start, t, j);
  }

  /** One call of a principal in a window that opened at time since and has admitted count of its calls so far. */
  lemma OwnWindowStep(rpm: nat, calls: seq<Call>, call: Call, now: int, since: int, count: nat)
    requires OwnSound(rpm, calls, now) && since <= now <= call.tGet <= call.tAllow
    requires count == 0 || (calls != [] && since <= Own(rpm, calls, |calls|).last
                            && count + Own(rpm, calls, |calls|).tokens
                               <= rpm + Refill(rpm, Own(rpm, calls, |calls|).last - since))
    ensures var own := Own(rpm, calls + [call], |calls| + 1);
            && own.last == call.tAllow
            && count + (if OwnAdmit(rpm, calls + [call], |calls|) then 1 else 0) + own.tokens
               <= rpm + Refill(rpm, call.tAllow - since)
  {
    OwnSnoc(rpm, calls, call);
    WindowStep(rpm, if calls == [] then Fresh(rpm, call.tGet) else Own(rpm, calls, |calls|), call.tAllow, since, count);
  }

  /** Conservation for one principal in a run of many: what it was admitted since event i plus what it has left
      is at most the capacity plus what the time since earns. */
  ghost predicate Conserved(c: Config, id: string, trace: seq<Event>, since: int, i: nat, j: nat)
    requires i <= j <= |trace|
  {
    var calls, count := CallsOf(id, trace, j), CountOf(c, id, trace, i, j);
    count == 0 ||
    (calls != [] && since <= Own(c.rpm, calls, |calls|).last
     && count + Own(c.rpm, calls, |calls|).tokens <= c.rpm + Refill(c.rpm, Own(c.rpm, calls, |calls|).last - since))
  }

  lemma ConservedStep(c: Config, start: int, trace: seq<Event>, id: string, since: int, i: nat, j: nat)
    requires Harmless(c) && Clocked(start, trace) && i < j <= |trace| && By(id, trace[j - 1])
    requires since <= Now(start, trace, j - 1) && Conserved(c, id, trace, since, i, j - 1)
    ensures Conserved(c, id, trace, since, i, j)
  {
    var e, now, calls := trace[j - 1], Now(start, trace, j - 1), CallsOf(id, trace, j - 1);
    assert now <= Start(e) <= Done(e);
    StoreTracks(c, start, trace, id, j - 1);
    var call := Call(e.tGet, e.tAllow);
    AnswerIsOwn(c, start, trace, id, j - 1);
    OwnWindowStep(c.rpm, calls, call, now, since, CountOf(c, id, trace, i, j - 1));
  }

  lemma {:induction false} PrincipalConservation(c: Config, start: int, trace: seq<Event>, id: string, i: nat, j: nat)
    requires Harmless(c) && Clocked(start, trace) && i <= j <= |trace|
    ensures Now(start, trace, i) <= Now(start, trace, j)
    ensures Conserved(c, id, trace, Now(start, trace, i), i, j)
    decreases j
  {
    if i < j {
      PrincipalConservation(c, start, trace, id, i, j - 1);
      assert Now(start, trace, j - 1) <= Start(trace[j - 1]) <= Done(trace[j - 1]);
      if By(id, trace[j - 1]) {
        ConservedStep(c, start, trace, id, Now(start, trace, i), i, j);
      }
    }
  }

  lemma ConservedBound(c: Config, id: string, trace: seq<Event>, since: int, until: int, i: nat, j: nat)
    requires i <= j <= |trace| && since <= until
    requires Conserved(c, id, trace, since, i, j) && OwnSound(c.rpm, CallsOf(id, trace, j), until)
    ensures CountOf(c, id, trace, i, j) <= c.rpm + Refill(c.rpm, until - since)
  {
    var calls := CallsOf(id, trace, j);
    var own := if calls == [] then Fresh(c.rpm, until) else Own(c.rpm, calls, |calls|);
    WindowCount(c.rpm, own, since, until, CountOf(c, id, trace, i, j));
  }

  /** The rate bound for one principal in a run of many: in any window of the run, whatever the others do,
      at most the capacity plus what the window's time span earns. */
  lemma PrincipalWindowBound(c: Config, start: int, trace: seq<Event>, id: string, i: nat, j: nat)
    requires Harmless(c) && Clocked(start, trace) && i <= j <= |trace|
    ensures Now(start, trace, i) <= Now(start, trace, j)
    ensures CountOf(c, id, trace, i, j) <= c.rpm + Refill(c.rpm, Now(start, trace, j) - Now(start, trace, i))
  {
    PrincipalConservation(c, start, trace, id, i, j);
    StoreTracks(c, start, trace, id, j);
    ConservedBound(c, id, trace, Now(start, trace, i), Now(start, trace, j), i, j);
  }

  // ----- Eviction is invisible, exactly from an interval of a minute less a nanosecond -----

  /** The store that never deletes. */
  function Keeping(c: Config): Config {
    c.(reaping := false)
  }

  /** Reaping changes no decision of any run. */
  ghost predicate NeverNoticed(c: Config) {
    forall start: int, trace: seq<Event>, k: nat ::
      Clocked(start, trace) && k < |trace| && trace[k].Request? ==> Answer(c, trace, k) == Answer(Keeping(c), trace, k)
  }

  lemma EvictionInvisible(c: Config)
    requires Harmless(c)
    ensures NeverNoticed(c)
  {
    forall start: int, trace: seq<Event>, k: nat | Clocked(start, trace) && k < |trace| && trace[k].Request?
      ensures Answer(c, trace, k) == Answer(Keeping(c), trace, k)
    {
      PrincipalsAreIsolated(c, start, trace, k);
      PrincipalsAreIsolated(Keeping(c), start, trace, k);
    }
  }

  /** A full burst, a sweep just late enough to evict, and another full burst. */
  function EvictedTooSoon(c: Config): (trace: seq<Event>)
    ensures |trace| == 2 * c.rpm + 1
  {
    seq(2 * c.rpm + 1, k requires 0 <= k < 2 * c.rpm + 1 =>
      if k < c.rpm then Request("p", 0, 0)
      else if k == c.rpm then Tick(c.interval + 1)
      else Request("p", c.interval + 1, c.interval + 1))
  }

  /** Requests of one principal at one instant take a token each while tokens last. */
  lemma {:induction false} BurstStore(c: Config, trace: seq<Event>, i: nat, j: nat, now: int)
    requires i < j <= |trace| && forall k :: i <= k < j ==> trace[k] == Request("p", now, now)
    requires var b := Lookup(c.rpm, StoreAt(c, trace, i), "p", now);
             Valid(c.rpm, b) && b.last <= now && j - i <= Level(c.rpm, b, now)
    ensures var b := Lookup(c.rpm, StoreAt(c, trace, i), "p", now);
            && StoreAt(c, trace, j) == StoreAt(c, trace, i)["p" := Bucket(Level(c.rpm, b, now) - (j - i), now)]
            && Answer(c, trace, j - 1)
    decreases j
  {
    if i < j - 1 {
      BurstStore(c, trace, i, j - 1, now);
      RefillZero(c.rpm);
    }
  }

  lemma FreshLevel(rpm: nat, now: int)
    ensures Level(rpm, Fresh(rpm, now), now) == rpm
  {
    RefillZero(rpm);
  }

  /** After the first burst the bucket is empty; the sweep takes it away. */
  lemma FirstBurst(c: Config)
    requires c.rpm > 0 && 0 <= c.interval
    ensures StoreAt(c, EvictedTooSoon(c), c.rpm + 1) == if c.reaping then map[] else map["p" := Bucket(0, 0)]
  {
    FreshLevel(c.rpm, 0);
    BurstStore(c, EvictedTooSoon(c), 0, c.rpm, 0);
  }

  /** In the second burst, one request more than the tokens earned since the first is refused,
      unless the bucket was evicted. */
  lemma SecondBurst(c: Config, k: nat)
    requires c.rpm > 0 && 0 <= c.interval < MINUTE - 1
    requires Refill(c.rpm, c.interval + 1) >= 0 && k == c.rpm + 1 + Refill(c.rpm, c.interval + 1) < 2 * c.rpm + 1
    ensures Answer(c, EvictedTooSoon(c), k) == c.reaping
  {
    var now, trace := c.interval + 1, EvictedTooSoon(c);
    FirstBurst(c);
    FreshLevel(c.rpm, now);
    RefillZero(c.rpm);
    if c.reaping {
      BurstStore(c, trace, c.rpm + 1, k + 1, now);
    } else if k > c.rpm + 1 {
      BurstStore(c, trace, c.rpm + 1, k, now);
    }
  }

  lemma EvictedTooSoonNoticed(c: Config)
    requires c.rpm > 0 && 0 <= c.interval < MINUTE - 1 && c.reaping
    ensures exists k: nat :: k < |EvictedTooSoon(c)| && EvictedTooSoon(c)[k].Request?
              && Answer(c, EvictedTooSoon(c), k) != Answer(Keeping(c), EvictedTooSoon(c), k)
  {
    RefillPositive(c.rpm, c.interval + 1);
    ShortOfMinute(c.rpm, c.interval + 1);
    var k := c.rpm + 1 + Refill(c.rpm, c.interval + 1);
    SecondBurst(c, k);
    SecondBurst(Keeping(c), k);
    assert EvictedTooSoon(c) == EvictedTooSoon(Keeping(c));
  }

  /** Reaping changes no decision of any run exactly when the interval is at least a minute less a nanosecond. */
  lemma EvictionInvisibleIff(c: Config)
    requires c.rpm > 0 && c.interval >= 0 && c.reaping
    ensures NeverNoticed(c) <==> c.interval >= 59_999_999_999
  {
    if c.interval >= MINUTE - 1 {
      EvictionInvisible(c);
    } else {
      EvictedTooSoonNoticed(c);
      var trace := EvictedTooSoon(c);
      forall k | 0 <= k < |trace| ensures Now(0, trace, k) <= Start(trace[k]) <= Done(trace[k]) {
      }
      assert Clocked(0, trace);
    }
  }

  // ----- Retention -----

  /** The time of the latest sweep, or of the start when there was none. */
  function LastSweep(start: int, trace: seq<Event>, n: nat): int
    requires n <= |trace|
  {
    if n == 0 then start else if trace[n - 1].Tick? then trace[n - 1].at else LastSweep(start, trace, n - 1)
  }

  lemma {:induction false} SweptBuckets(c: Config, start: int, trace: seq<Event>, n: nat)
    requires c.reaping && c.interval >= 0 && Clocked(start, trace) && n <= |trace|
    ensures LastSweep(start, trace, n) <= Now(start, trace, n)
    ensures forall k :: k in StoreAt(c, trace, n) ==>
              LastSweep(start, trace, n) - c.interval <= StoreAt(c, trace, n)[k].last
  {
    if n > 0 {
      SweptBuckets(c, start, trace, n - 1);
      assert Now(start, trace, n - 1) <= Start(trace[n - 1]) <= Done(trace[n - 1]);
    }
  }

  /** A bucket in the store was last used by its principal's latest call; one that is gone, over an interval ago. */
  lemma {:induction false} HeldSinceLastCall(c: Config, start: int, trace: seq<Event>, id: string, n: nat)
    requires c.reaping && Clocked(start, trace) && n <= |trace|
    ensures var m, calls := StoreAt(c, trace, n), CallsOf(id, trace, n);
            if Key(id) in m then calls != [] && m[Key(id)].last == calls[|calls| - 1].tAllow
            else calls != [] ==> calls[|calls| - 1].tAllow < Now(start, trace, n) - c.interval
  {
    if n > 0 {
      HeldSinceLastCall(c, start, trace, id, n - 1);
      assert Now(start, trace, n - 1) <= Start(trace[n - 1]) <= Done(trace[n - 1]);
      if trace[n - 1].Request? {
        KeyIff(trace[n - 1].id, id);
      }
    }
  }

  /** With a sweep at least every interval from the start on, the store holds every bucket used within the last interval
      and none that has been idle for two. */
  lemma RetentionBounds(c: Config, start: int, trace: seq<Event>, now: int, id: string)
    requires c.reaping && c.interval >= 0 && Clocked(start, trace)
    requires Now(start, trace, |trace|) <= now <= LastSweep(start, trace, |trace|) + c.interval
    ensures var m, calls := StoreAt(c, trace, |trace|), CallsOf(id, trace, |trace|);
            && (Key(id) in m ==> calls != [] && m[Key(id)].last == calls[|calls| - 1].tAllow >= now - 2 * c.interval)
            && (calls != [] && calls[|calls| - 1].tAllow >= now - c.interval ==> Key(id) in m)
  {
    SweptBuckets(c, start, trace, |trace|);
    HeldSinceLastCall(c, start, trace, id, |trace|);
  }

  /** Later events do not change the past. */
  lemma {:induction false} StoreSnoc(c: Config, trace: seq<Event>, e: Event, n: nat)
    requires n <= |trace|
    ensures StoreAt(c, trace + [e], n) == StoreAt(c, trace, n)
  {
    if n > 0 {
      StoreSnoc(c, trace, e, n - 1);
    }
  }

  /** The outcome of the latest request is the decision of its principal's own bucket. */
  ghost predicate IsOwnDecision(c: Config, start: int, trace: seq<Event>, id: string, passed: bool) {
    Harmless(c) && Clocked(start, trace) ==>
      var calls := CallsOf(id, trace, |trace|);
      calls != [] && passed == OwnAdmit(c.rpm, calls, |calls| - 1)
  }

  /** One more event: the store takes the step, and a request gets the decision of its principal's own bucket. */
  lemma HistoryGrows(c: Config, start: int, trace: seq<Event>, e: Event)
    ensures StoreAt(c, trace + [e], |trace + [e]|) == Step(c, StoreAt(c, trace, |trace|), e)
    ensures e.Request? ==>
              var ok := Admits(c.rpm, Lookup(c.rpm, StoreAt(c, trace, |trace|), Key(e.id), e.tGet), e.tAllow);
              ok == Answer(c, trace + [e], |trace|) && IsOwnDecision(c, start, trace + [e], e.id, ok)
  {
    StoreSnoc(c, trace, e, |trace|);
    if e.Request? && Harmless(c) && Clocked(start, trace + [e]) {
      PrincipalsAreIsolated(c, start, trace + [e], |trace|);
    }
  }

  // ----- The class -----

  datatype Outcome =
    | Passed
    | TooManyRequests(retryAfter: string, limit: string, remaining: string)

  class BucketStore {
    const rpm: nat
    const interval: int
    var buckets: map<string, TokenBucket>
    ghost const start: int
    ghost var trace: seq<Event>  // every request and sweep so far

    ghost function Settings(): Config {
      Config(rpm, interval, true)
    }

    ghost predicate WellFormed()
      reads this`buckets, buckets.Values
    {
      && rpm > 0
      && (forall k :: k in buckets ==> buckets[k].Valid() && buckets[k].capacity == rpm)
      && (forall j, k :: j in buckets && k in buckets && j != k ==> buckets[j] != buckets[k])
    }

    ghost function View(): Buckets
      reads this`buckets, buckets.Values
    {
      map k | k in buckets :: buckets[k].View()
    }

    /** The state is what the history of the store makes it. */
    ghost predicate Valid()
      reads this, buckets.Values
    {
      WellFormed() && View() == StoreAt(Settings(), trace, |trace|)
    }

    constructor (requestsPerMinute: nat, reapInterval: int, ghost now: int)
      requires requestsPerMinute > 0
      ensures Valid() && rpm == requestsPerMinute && interval == reapInterval && start == now && trace == []
    {
      rpm := requestsPerMinute;
      interval := reapInterval;
      buckets := map[];
      start := now;
      trace := [];
    }

    method Get(key: string, now: int) returns (b: TokenBucket)
      requires WellFormed()
      modifies this`buckets
      ensures WellFormed()
      ensures key in buckets && b == buckets[key] && b.View() == Lookup(rpm, old(View()), key, now)
      ensures View() == old(View())[key := b.View()]
      ensures key in old(buckets) ==> buckets == old(buckets)
      ensures key !in old(buckets) ==> fresh(b)
    {
      if key in buckets {
        b := buckets[key];
      } else {
        b := new TokenBucket(rpm, now);
        buckets := buckets[key := b];
      }
    }

    /** Look the bucket up, or make it, and let it decide. */
    method Decide(key: string, tGet: int, tAllow: int) returns (ok: bool)
      requires WellFormed()
      modifies this`buckets, buckets.Values
      ensures WellFormed()
      ensures ok == Admits(rpm, Lookup(rpm, old(View()), key, tGet), tAllow)
      ensures View() == old(View())[key := After(rpm, Lookup(rpm, old(View()), key, tGet), tAllow)]
    {
      var bucket := Get(key, tGet);
      ok := Allow(key, bucket, tAllow);
    }

    /** A bucket in the store decides, and no other bucket is touched. */
    method Allow(ghost key: string, bucket: TokenBucket, now: int) returns (ok: bool)
      requires WellFormed() && key in buckets && buckets[key] == bucket
      modifies bucket
      ensures WellFormed()
      ensures ok == Admits(rpm, old(View())[key], now)
      ensures View() == old(View())[key := After(rpm, old(View())[key], now)]
    {
      ok := bucket.Allow(now);
      assert forall k :: k in buckets && k != key ==> buckets[k] != bucket;
    }

    /** The bucket of the request's principal decides, and no other principal's is touched. */
    method Handle(id: string, tGet: int, tAllow: int) returns (ok: bool)
      requires Valid()
      modifies this`buckets, this`trace, buckets.Values
      ensures Valid() && trace == old(trace) + [Request(id, tGet, tAllow)]
      ensures ok == Answer(Settings(), trace, |trace| - 1)
      ensures IsOwnDecision(Settings(), start, trace, id, ok)
      ensures forall other: string :: !SamePrincipal(other, id) ==>
                && (other in View() <==> other in old(View()))
                && (other in View() ==> View()[other] == old(View())[other])
    {
      var key := if id == "" then "anonymous" else id;
      ok := Decide(key, tGet, tAllow);
      trace := trace + [Request(id, tGet, tAllow)];
      HistoryGrows(Settings(), start, old(trace), Request(id, tGet, tAllow));
    }

    /** One request. Its decision is that of the principal's own bucket. */
    method Serve(id: string, tGet: int, tAllow: int) returns (r: Outcome)
      requires Valid()
      modifies this`buckets, this`trace, buckets.Values
      ensures Valid() && trace == old(trace) + [Request(id, tGet, tAllow)]
      ensures r.Passed? == Answer(Settings(), trace, |trace| - 1)
      ensures IsOwnDecision(Settings(), start, trace, id, r.Passed?)
      ensures forall other: string :: !SamePrincipal(other, id) ==>
                && (other in View() <==> other in old(View()))
                && (other in View() ==> View()[other] == old(View())[other])
      ensures r.TooManyRequests? ==> r.retryAfter == "1" && r.remaining == "0"
                                     && Decimal.Numeral(r.limit) && Decimal.Read(0, r.limit) == rpm
    {
      var ok := Handle(id, tGet, tAllow);
      if ok {
        return Passed;
      }
      r := Refuse();
    }

    method Refuse() returns (r: Outcome)
      ensures r.TooManyRequests? && r.retryAfter == "1" && r.remaining == "0"
      ensures Decimal.Numeral(r.limit) && Decimal.Read(0, r.limit) == rpm
    {
      var limit := Decimal.IntToStr(rpm);
      return TooManyRequests("1", limit, "0");
    }

    /** One sweep: exactly the buckets last used before the cutoff go. */
    method Reap(now: int)
      requires Valid()
      modifies this`buckets, this`trace
      ensures Valid() && trace == old(trace) + [Tick(now)]
      ensures View() == Sweep(old(View()), now - interval)
      ensures forall k :: k in View() <==> k in old(View()) && old(View())[k].last >= now - interval
      ensures forall k :: k in View() ==> View()[k] == old(View())[k]
    {
      SweepLoop(now - interval);
      assert View() == Step(Settings(), old(View()), Tick(now));
      trace := trace + [Tick(now)];
      HistoryGrows(Settings(), start, old(trace), Tick(now));
    }

    method SweepLoop(cutoff: int)
      requires WellFormed()
      modifies this`buckets
      ensures WellFormed() && View() == Sweep(old(View()), cutoff)
    {
      var todo := buckets.Keys;
      while todo != {}
        invariant todo <= old(buckets).Keys
        invariant buckets
               == map k | k in old(buckets) && (k in todo || !(old(buckets)[k].last < cutoff)) :: old(buckets)[k]
        decreases todo
      {
        var k :| k in todo;
        var b := buckets[k];
        if b.last < cutoff {
          buckets := buckets - {k};
        }
        todo := todo - {k};
      }
    }
  }
}
