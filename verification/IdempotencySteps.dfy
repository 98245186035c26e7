/** The idempotency cache of internal/middleware/idempotency.go under concurrency: Load, the expiry check, Delete,
    the handler and Store are steps of their own, and any number of requests and sweep visits interleave. */
module IdempotencySteps {
  import opened Responses

  /** A *cachedResponse: whose handler made it, and when it expires. Its identity is its index among all of them. */
  datatype Record = Record(key: string, response: Response, expiresAt: int, maker: nat)

  /** Where a request or the visit of a sweep to one key stands. A request carries the history at its load,
      for the record only: no step depends on it. */
  datatype Pc =
    | AtLoad(key: string)
    | Loaded(key: string, p: nat, view: History)     // about to compare with the clock
    | Deleting(key: string, p: nat, view: History)   // found p expired, about to delete the key
    | Handling(key: string, view: History)           // missed: the handler runs
    | AtStore(key: string, p: nat)                   // the handler has completed
    | Ran(key: string, p: nat)
    | Replayed(key: string, p: nat, at: int)
    | Visiting(key: string, p: nat, sweepNow: int)   // the sweep read the clock at sweepNow
    | SweepDeleting(key: string, p: nat, sweepNow: int)
    | Swept(key: string, p: nat, sweepNow: int)

  /** What changed the map: the store of a record, or a delete by one who had loaded p. */
  datatype Effect = Put(key: string, p: nat) | Del(key: string, p: nat)

  /** All effects, latest first. */
  datatype History = Empty | Then(effect: Effect, earlier: History)

  datatype State = State(now: int, entries: map<string, nat>, records: seq<Record>, threads: seq<Pc>, history: History)

  datatype Action =
    | Clock(to: int)
    | Arrive(key: string)
    | Visit(key: string, sweepNow: int)
    | Load(i: nat)
    | Check(i: nat)
    | Delete(i: nat)
    | Complete(i: nat, response: Response)
    | Store(i: nat)

  function Init(start: int): State {
    State(start, map[], [], [], Empty)
  }

  ghost predicate Enabled(s: State, a: Action) {
    match a
    case Clock(to) => s.now <= to
    case Arrive(_) => true
    case Visit(key, sweepNow) => key in s.entries && sweepNow <= s.now
    case Load(i) => i < |s.threads| && s.threads[i].AtLoad?
    case Check(i) =>
      i < |s.threads| && (s.threads[i].Loaded? || s.threads[i].Visiting?) && s.threads[i].p < |s.records|
    case Delete(i) => i < |s.threads| && (s.threads[i].Deleting? || s.threads[i].SweepDeleting?)
    case Complete(i, _) => i < |s.threads| && s.threads[i].Handling?
    case Store(i) => i < |s.threads| && s.threads[i].AtStore?
  }

  function Moved(s: State, i: nat, pc: Pc): State
    requires i < |s.threads|
  {
    s.(threads := s.threads[i := pc])
  }

  ghost function Apply(ttl: int, s: State, a: Action): State
    requires Enabled(s, a)
  {
    match a
    case Clock(to) => s.(now := to)
    case Arrive(key) => s.(threads := s.threads + [AtLoad(key)])
    case Visit(key, sweepNow) => s.(threads := s.threads + [Visiting(key, s.entries[key], sweepNow)])
    case Load(i) =>
      var key := s.threads[i].key;
      Moved(s, i, if key in s.entries then Loaded(key, s.entries[key], s.history) else Handling(key, s.history))
    case Check(i) =>
      (match s.threads[i]
       case Loaded(key, p, view) =>
         Moved(s, i, if s.now > s.records[p].expiresAt then Deleting(key, p, view) else Replayed(key, p, s.now))
       case Visiting(key, p, sweepNow) =>
         Moved(s, i, if sweepNow > s.records[p].expiresAt then SweepDeleting(key, p, sweepNow)
                     else Swept(key, p, sweepNow)))
    case Delete(i) =>
      var key, p := s.threads[i].key, s.threads[i].p;
      Moved(s, i, if s.threads[i].Deleting? then Handling(key, s.threads[i].view)
                  else Swept(key, p, s.threads[i].sweepNow))
      .(entries := s.entries - {key}, history := Then(Del(key, p), s.history))
    case Complete(i, response) =>
      var key := s.threads[i].key;
      Moved(s, i, AtStore(key, |s.records|))
      .(records := s.records + [Record(key, response, s.now + ttl, i)])
    case Store(i) =>
      var key, p := s.threads[i].key, s.threads[i].p;
      Moved(s, i, Ran(key, p))
      .(entries := s.entries[key := p], history := Then(Put(key, p), s.history))
  }

  ghost predicate Step(ttl: int, s: State, t: State) {
    exists a: Action :: Enabled(s, a) && t == Apply(ttl, s, a)
  }

  ghost predicate StepAt(ttl: int, run: seq<State>, i: nat)
    requires i + 1 < |run|
  {
    Step(ttl, run[i], run[i + 1])
  }

  /** The states of a run, from the start. */
  ghost predicate IsRun(ttl: int, start: int, run: seq<State>) {
    && run != []
    && run[0] == Init(start)
    && forall i :: 0 <= i < |run| - 1 ==> StepAt(ttl, run, i)
  }

  /** One step more. */
  lemma Do(ttl: int, start: int, run: seq<State>, a: Action) returns (more: seq<State>)
    requires IsRun(ttl, start, run) && Enabled(run[|run| - 1], a)
    ensures IsRun(ttl, start, more) && more == run + [Apply(ttl, run[|run| - 1], a)]
  {
    more := run + [Apply(ttl, run[|run| - 1], a)];
    forall i | 0 <= i < |more| - 1 ensures StepAt(ttl, more, i) {
      if i < |run| - 1 {
        assert StepAt(ttl, run, i);
      } else {
        assert Step(ttl, run[|run| - 1], more[|run|]);
      }
    }
  }

  /** A new request loads. */
  lemma Loads(ttl: int, start: int, run: seq<State>, key: string) returns (more: seq<State>)
    requires IsRun(ttl, start, run)
    ensures IsRun(ttl, start, more) && run <= more && |more| == |run| + 2
    ensures var s := run[|run| - 1];
            more[|more| - 1]
            == s.(threads := s.threads + [if key in s.entries then Loaded(key, s.entries[key], s.history)
                                          else Handling(key, s.history)])
  {
    more := Do(ttl, start, run, Arrive(key));
    more := Do(ttl, start, more, Load(|run[|run| - 1].threads|));
  }

  // ----- What became of the record stored last -----

  predicate HasPut(h: History, key: string, p: nat) {
    h.Then? && (h.effect == Put(key, p) || HasPut(h.earlier, key, p))
  }

  predicate HasDel(h: History, key: string, p: nat) {
    h.Then? && (h.effect == Del(key, p) || HasDel(h.earlier, key, p))
  }

  /** The history before the latest store under a key. */
  function BeforeLastPut(h: History, key: string): History {
    if h.Empty? then Empty
    else if h.effect.Put? && h.effect.key == key then h.earlier
    else BeforeLastPut(h.earlier, key)
  }

  /** Of the record stored last under a key: still there, or lost to a delete by one who had loaded record `deleter`. */
  datatype Fate = NeverStored | Live(p: nat) | Lost(p: nat, deleter: nat)

  function FateOf(h: History, key: string): Fate {
    if h.Empty? then NeverStored
    else if h.effect.key != key then FateOf(h.earlier, key)
    else match h.effect
      case Put(_, p) => Live(p)
      case Del(_, d) =>
        var fate := FateOf(h.earlier, key);
        if fate.Live? then Lost(fate.p, d) else fate
  }

  /** Record q was stored under the key after record p was. */
  predicate PutAfter(h: History, key: string, p: nat, q: nat) {
    h.Then? && ((h.effect == Put(key, q) && HasPut(h.earlier, key, p)) || PutAfter(h.earlier, key, p, q))
  }

  /** One history is what another was at an earlier time. */
  predicate IsPast(view: History, h: History) {
    view == h || (h.Then? && IsPast(view, h.earlier))
  }

  lemma {:induction false} LatestOrOlder(h: History, key: string, p: nat)
    requires HasPut(h, key, p)
    ensures !FateOf(h, key).NeverStored?
    ensures var latest := FateOf(h, key).p;
            latest == p || (HasPut(BeforeLastPut(h, key), key, p) && PutAfter(h, key, p, latest))
  {
    if h.effect != Put(key, p) {
      LatestOrOlder(h.earlier, key, p);
    }
  }

  // ----- Invariants -----

  /** A record exists, is of this key and was stored under it; the request that ran the handler has finished. */
  ghost predicate IsStored(s: State, key: string, p: nat) {
    && p < |s.records|
    && s.records[p].key == key
    && HasPut(s.history, key, p)
    && s.records[p].maker < |s.threads|
    && s.threads[s.records[p].maker] == Ran(key, p)
  }

  ghost predicate HasExpired(s: State, p: nat) {
    p < |s.records| && s.records[p].expiresAt < s.now
  }

  /** A history whose latest record of the key is gone or expired: deleted for an expired record,
      itself or an older one, or found expired. */
  ghost predicate Missed(s: State, view: History, key: string) {
    match FateOf(view, key)
    case NeverStored => true
    case Live(q) => HasExpired(s, q)
    case Lost(q, d) =>
      HasExpired(s, d) && s.records[d].key == key && (d == q || HasPut(BeforeLastPut(view, key), key, d))
  }

  /** What a thread has in hand is what it says. */
  ghost predicate Sound(s: State, pc: Pc) {
    match pc
    case Loaded(key, p, view) => IsStored(s, key, p) && FateOf(view, key) == Live(p) && IsPast(view, s.history)
    case Deleting(key, p, view) =>
      IsStored(s, key, p) && HasExpired(s, p) && FateOf(view, key) == Live(p) && IsPast(view, s.history)
    case Handling(key, view) => Missed(s, view, key) && IsPast(view, s.history)
    case Replayed(key, p, at) => IsStored(s, key, p) && at <= s.records[p].expiresAt && at <= s.now
    case Visiting(key, p, sweepNow) => IsStored(s, key, p) && sweepNow <= s.now
    case SweepDeleting(key, p, sweepNow) =>
      IsStored(s, key, p) && HasExpired(s, p) && s.records[p].expiresAt < sweepNow <= s.now
    case Swept(key, p, sweepNow) =>
      p < |s.records| && (s.records[p].expiresAt < sweepNow ==> HasDel(s.history, key, p))
    case AtStore(key, p) => p < |s.records| && s.records[p].key == key
    case Ran(key, p) => p < |s.records| && s.records[p].key == key
    case _ => true
  }

  ghost predicate ThreadsSound(s: State) {
    forall i :: 0 <= i < |s.threads| ==> Sound(s, s.threads[i])
  }

  /** A record waiting to be stored waits with the request that made it. */
  ghost predicate StoresOwn(s: State) {
    forall i :: 0 <= i < |s.threads| && s.threads[i].AtStore? ==>
      s.threads[i].p < |s.records| && s.records[s.threads[i].p].maker == i
  }

  ghost predicate EntriesStored(s: State) {
    forall key :: key in s.entries ==> IsStored(s, key, s.entries[key])
  }

  /** Whatever was stored is there for good, with its finished request. */
  ghost predicate PutsStored(s: State) {
    forall key, p :: HasPut(s.history, key, p) ==> IsStored(s, key, p)
  }

  /** Whatever was made has been stored or waits with the request that made it. */
  ghost predicate MadeKnown(s: State) {
    forall p :: 0 <= p < |s.records| ==>
      var Record(key, _, _, maker) := s.records[p];
      HasPut(s.history, key, p) || (maker < |s.threads| && s.threads[maker] == AtStore(key, p))
  }

  /** The map holds exactly the live records; a lost one was deleted for a record that had expired,
      itself or one stored before it under the key. */
  ghost predicate FateKnown(s: State, key: string) {
    var fate := FateOf(s.history, key);
    && (fate.Live? <==> key in s.entries)
    && (if fate.Live? then s.entries[key] == fate.p else Missed(s, s.history, key))
  }

  ghost predicate Inv(s: State) {
    && ThreadsSound(s) && StoresOwn(s) && EntriesStored(s) && PutsStored(s) && MadeKnown(s)
    && forall key :: FateKnown(s, key)
  }

  lemma StoredStays(ttl: int, s: State, a: Action, key: string, p: nat)
    requires StoresOwn(s) && Enabled(s, a) && IsStored(s, key, p)
    ensures IsStored(Apply(ttl, s, a), key, p)
  {
  }

  lemma SoundStays(ttl: int, s: State, a: Action, pc: Pc)
    requires StoresOwn(s) && Enabled(s, a) && Sound(s, pc)
    ensures Sound(Apply(ttl, s, a), pc)
  {
    if pc.Loaded? || pc.Deleting? || pc.Replayed? || pc.Visiting? || pc.SweepDeleting? {
      StoredStays(ttl, s, a, pc.key, pc.p);
    }
  }

  /** The one thread that moved is sound where it went. */
  lemma MoverSound(ttl: int, s: State, a: Action, i: nat)
    requires Inv(s) && Enabled(s, a) && i < |Apply(ttl, s, a).threads|
    requires i < |s.threads| ==> Apply(ttl, s, a).threads[i] != s.threads[i]
    ensures Sound(Apply(ttl, s, a), Apply(ttl, s, a).threads[i])
  {
    if i < |s.threads| {
      assert Sound(s, s.threads[i]);
      assert FateKnown(s, s.threads[i].key);
    } else if a.Visit? {
      assert IsStored(s, a.key, s.entries[a.key]);
    }
  }

  lemma InvAction(ttl: int, s: State, a: Action)
    requires Inv(s) && Enabled(s, a)
    ensures Inv(Apply(ttl, s, a))
  {
    var t := Apply(ttl, s, a);
    forall i | 0 <= i < |t.threads| ensures Sound(t, t.threads[i]) {
      if i < |s.threads| && t.threads[i] == s.threads[i] {
        SoundStays(ttl, s, a, t.threads[i]);
      } else {
        MoverSound(ttl, s, a, i);
      }
    }
    forall key | key in t.entries ensures IsStored(t, key, t.entries[key]) {
      if key in s.entries && s.entries[key] == t.entries[key] {
        StoredStays(ttl, s, a, key, t.entries[key]);
      }
    }
    StoresOwnStep(ttl, s, a);
    PutsStoredStep(ttl, s, a);
    MadeKnownStep(ttl, s, a);
    forall key ensures FateKnown(t, key) {
      assert FateKnown(s, key);
      FateAction(ttl, s, a, key);
    }
  }

  lemma StoresOwnStep(ttl: int, s: State, a: Action)
    requires StoresOwn(s) && Enabled(s, a)
    ensures StoresOwn(Apply(ttl, s, a))
  {
  }

  lemma PutsStoredStep(ttl: int, s: State, a: Action)
    requires ThreadsSound(s) && StoresOwn(s) && PutsStored(s) && Enabled(s, a)
    ensures PutsStored(Apply(ttl, s, a))
  {
    var t := Apply(ttl, s, a);
    forall key, p | HasPut(t.history, key, p) ensures IsStored(t, key, p) {
      if HasPut(s.history, key, p) {
        StoredStays(ttl, s, a, key, p);
      } else {
        assert Sound(s, s.threads[a.i]);
      }
    }
  }

  lemma MadeKnownStep(ttl: int, s: State, a: Action)
    requires MadeKnown(s) && Enabled(s, a)
    ensures MadeKnown(Apply(ttl, s, a))
  {
    var t := Apply(ttl, s, a);
    forall p | 0 <= p < |s.records| && HasPut(s.history, s.records[p].key, p)
      ensures HasPut(t.history, s.records[p].key, p)
    {
    }
  }

  lemma FateAction(ttl: int, s: State, a: Action, key: string)
    requires ThreadsSound(s) && FateKnown(s, key) && Enabled(s, a)
    ensures FateKnown(Apply(ttl, s, a), key)
  {
    if a.Delete? && s.threads[a.i].key == key {
      assert Sound(s, s.threads[a.i]);
      LatestOrOlder(s.history, key, s.threads[a.i].p);
    }
  }

  lemma InvStep(ttl: int, s: State, t: State)
    requires Inv(s) && Step(ttl, s, t)
    ensures Inv(t)
  {
    var a: Action :| Enabled(s, a) && t == Apply(ttl, s, a);
    InvAction(ttl, s, a);
  }

  lemma {:induction false} Invariant(ttl: int, start: int, run: seq<State>, n: nat)
    requires IsRun(ttl, start, run) && n < |run|
    ensures Inv(run[n])
  {
    if n > 0 {
      Invariant(ttl, start, run, n - 1);
      assert StepAt(ttl, run, n - 1);
      InvStep(ttl, run[n - 1], run[n]);
    }
  }

  // ----- Theorems -----

  /** Under every interleaving, a replayed response is that of a handler run completed under the same key,
      unexpired when the request checked it. */
  lemma ReplaysCompletedRuns(ttl: int, start: int, run: seq<State>, n: nat, i: nat)
    requires IsRun(ttl, start, run) && n < |run| && i < |run[n].threads| && run[n].threads[i].Replayed?
    ensures var s := run[n];
            var Replayed(key, p, at) := s.threads[i];
            && p < |s.records| && s.records[p].maker < |s.threads| && s.threads[s.records[p].maker] == Ran(key, p)
            && at <= s.records[p].expiresAt
  {
    Invariant(ttl, start, run, n);
    assert Sound(run[n], run[n].threads[i]);
  }

  ghost predicate DelsExpired(s: State) {
    forall key, p: nat :: HasDel(s.history, key, p) ==> HasExpired(s, p) && s.records[p].key == key
  }

  lemma DelsExpiredAction(ttl: int, s: State, a: Action)
    requires ThreadsSound(s) && DelsExpired(s) && Enabled(s, a)
    ensures DelsExpired(Apply(ttl, s, a))
  {
    var t := Apply(ttl, s, a);
    forall key, p: nat | HasDel(t.history, key, p) ensures HasExpired(t, p) && t.records[p].key == key {
      if !HasDel(s.history, key, p) {
        assert Sound(s, s.threads[a.i]);
      }
    }
  }

  lemma {:induction false} AlwaysDelsExpired(ttl: int, start: int, run: seq<State>, n: nat)
    requires IsRun(ttl, start, run) && n < |run|
    ensures DelsExpired(run[n])
  {
    if n > 0 {
      AlwaysDelsExpired(ttl, start, run, n - 1);
      Invariant(ttl, start, run, n - 1);
      assert StepAt(ttl, run, n - 1);
      var a: Action :| Enabled(run[n - 1], a) && run[n] == Apply(ttl, run[n - 1], a);
      DelsExpiredAction(ttl, run[n - 1], a);
    }
  }

  /** A sweep that is through with a key has deleted it if it found its record expired;
      and only for an expired record of its key is anything ever deleted. */
  lemma SweepsDeleteTheExpired(ttl: int, start: int, run: seq<State>, n: nat, i: nat, key: string, p: nat)
    requires IsRun(ttl, start, run) && n < |run|
    ensures i < |run[n].threads| && run[n].threads[i].Swept? ==>
              var Swept(k, q, sweepNow) := run[n].threads[i];
              q < |run[n].records| && (run[n].records[q].expiresAt < sweepNow ==> HasDel(run[n].history, k, q))
    ensures HasDel(run[n].history, key, p) ==>
              p < |run[n].records| && run[n].records[p].key == key && run[n].records[p].expiresAt < run[n].now
  {
    Invariant(ttl, start, run, n);
    AlwaysDelsExpired(ttl, start, run, n);
    if i < |run[n].threads| {
      assert Sound(run[n], run[n].threads[i]);
    }
  }

  /** From every state of a run a sweep can visit a key whose record has expired, and takes it out of the map. */
  lemma ExpiredCanBeSwept(ttl: int, start: int, run: seq<State>, key: string) returns (more: seq<State>)
    requires IsRun(ttl, start, run)
    requires var s := run[|run| - 1]; key in s.entries && HasExpired(s, s.entries[key])
    ensures IsRun(ttl, start, more) && |more| == |run| + 3
    ensures var s, t := run[|run| - 1], more[|more| - 1];
            t.entries == s.entries - {key} && t.now == s.now && t.records == s.records && s.threads <= t.threads
  {
    var i, now := |run[|run| - 1].threads|, run[|run| - 1].now;
    more := Do(ttl, start, run, Visit(key, now));
    more := Do(ttl, start, more, Check(i));
    more := Do(ttl, start, more, Delete(i));
  }

  function StepsLeft(pc: Pc): nat {
    match pc
    case AtLoad(_) => 5
    case Loaded(_, _, _) => 4
    case Deleting(_, _, _) => 3
    case Handling(_, _) => 2
    case AtStore(_, _) => 1
    case Visiting(_, _, _) => 2
    case SweepDeleting(_, _, _) => 1
    case _ => 0
  }

  /** Nobody ever waits for anyone: whoever is not done can go on at once, and is done within five steps of its own. */
  lemma NobodyWaits(ttl: int, start: int, run: seq<State>, n: nat, i: nat) returns (a: Action)
    requires IsRun(ttl, start, run) && n < |run| && i < |run[n].threads| && StepsLeft(run[n].threads[i]) > 0
    ensures Enabled(run[n], a)
    ensures var t := Apply(ttl, run[n], a);
            && |t.threads| == |run[n].threads| && StepsLeft(t.threads[i]) < StepsLeft(run[n].threads[i]) <= 5
            && forall j :: 0 <= j < |t.threads| && j != i ==> t.threads[j] == run[n].threads[j]
  {
    Invariant(ttl, start, run, n);
    assert Sound(run[n], run[n].threads[i]);
    match run[n].threads[i]
    case AtLoad(_) => a := Load(i);
    case Loaded(_, _, _) => a := Check(i);
    case Visiting(_, _, _) => a := Check(i);
    case Handling(_, _) => a := Complete(i, Response(200, []));
    case AtStore(_, _) => a := Store(i);
    case _ => a := Delete(i);
  }

  /** A request or sweep visit keeps its key, and its outcome once it is done. */
  lemma {:induction false} ThreadsKeepTheirKeys(ttl: int, start: int, run: seq<State>, m: nat, n: nat, i: nat)
    requires IsRun(ttl, start, run) && m <= n < |run| && i < |run[m].threads|
    ensures i < |run[n].threads| && run[n].threads[i].key == run[m].threads[i].key
    ensures StepsLeft(run[m].threads[i]) == 0 ==> run[n].threads[i] == run[m].threads[i]
    decreases n
  {
    if m < n {
      ThreadsKeepTheirKeys(ttl, start, run, m, n - 1, i);
      assert StepAt(ttl, run, n - 1);
    }
  }

  /** The latest record of the key was deleted by one who had loaded an older, expired record of the key. */
  ghost predicate StaleDelete(s: State, h: History, key: string) {
    var fate := FateOf(h, key);
    && fate.Lost? && fate.deleter != fate.p
    && HasPut(BeforeLastPut(h, key), key, fate.deleter)
    && HasExpired(s, fate.deleter) && s.records[fate.deleter].key == key
  }

  /** The map holds the record stored last under a key until someone deletes the key, and nothing else. */
  lemma MapHoldsLatest(ttl: int, start: int, run: seq<State>, n: nat, key: string)
    requires IsRun(ttl, start, run) && n < |run|
    ensures var s, fate := run[n], FateOf(run[n].history, key);
            (fate.Live? <==> key in s.entries) && (fate.Live? ==> s.entries[key] == fate.p)
  {
    Invariant(ttl, start, run, n);
    assert FateKnown(run[n], key);
  }

  /** A record stored and not expired is missing from the map only by a delete for an older, expired record
      of the key, or because another record was stored over it. */
  lemma EarlyLossByStaleDeleteOrOverwrite(ttl: int, start: int, run: seq<State>, n: nat, key: string, p: nat)
    requires IsRun(ttl, start, run) && n < |run|
    requires HasPut(run[n].history, key, p) && !HasExpired(run[n], p)
    ensures var s, fate := run[n], FateOf(run[n].history, key);
            || (key in s.entries && s.entries[key] == p)
            || (!fate.NeverStored? && fate.p == p && StaleDelete(s, s.history, key))
            || (!fate.NeverStored? && fate.p != p && PutAfter(s.history, key, p, fate.p))
  {
    Invariant(ttl, start, run, n);
    assert FateKnown(run[n], key);
    LatestOrOlder(run[n].history, key, p);
  }

  /** A request runs its handler although a record of its key is stored and has not expired only if it loaded before
      that record was stored, or by the time it loaded a stale delete had removed the latest record, or the latest
      record was a later one stored over that record, made earlier and expired by now. */
  lemma FreshRecordMissed(ttl: int, start: int, run: seq<State>, n: nat, i: nat, p: nat)
    requires IsRun(ttl, start, run) && n < |run| && i < |run[n].threads| && run[n].threads[i].Handling?
    requires HasPut(run[n].history, run[n].threads[i].key, p) && !HasExpired(run[n], p)
    ensures var s := run[n];
            var Handling(key, view) := s.threads[i];
            var fate := FateOf(view, key);
            && IsPast(view, s.history)
            && (|| !HasPut(view, key, p)
                || StaleDelete(s, view, key)
                || (!fate.NeverStored? && PutAfter(view, key, p, fate.p) && HasExpired(s, fate.p)
                    && p < |s.records| && s.records[fate.p].expiresAt < s.records[p].expiresAt))
  {
    Invariant(ttl, start, run, n);
    var s := run[n];
    var Handling(key, view) := s.threads[i];
    assert Sound(s, s.threads[i]) && IsStored(s, key, p);
    if HasPut(view, key, p) {
      LatestOrOlder(view, key, p);
    }
  }

  // ----- When a handler can run beside an unexpired record -----

  predicate IsHandling(pc: Pc, key: string) {
    pc.Handling? && pc.key == key
  }

  /** A handler runs under the key although this record has been made under it and has not expired. */
  ghost predicate RunsBeside(s: State, i: nat, key: string, p: nat) {
    && i < |s.threads| && IsHandling(s.threads[i], key)
    && p < |s.records| && s.records[p].key == key && s.now <= s.records[p].expiresAt
  }

  ghost predicate AnyBeside(s: State, key: string) {
    exists i: nat, p: nat :: RunsBeside(s, i, key, p)
  }

  /** Moreover, the record has been stored. */
  ghost predicate RunsDespite(s: State, i: nat, key: string, p: nat) {
    RunsBeside(s, i, key, p) && HasPut(s.history, key, p)
  }

  ghost predicate AnyDespite(s: State, key: string) {
    exists i: nat, p: nat :: RunsDespite(s, i, key, p)
  }

  ghost predicate AllExpired(s: State, key: string) {
    forall p :: 0 <= p < |s.records| && s.records[p].key == key ==> HasExpired(s, p)
  }

  ghost predicate AllStoredExpired(s: State, key: string) {
    forall p :: HasPut(s.history, key, p) ==> HasExpired(s, p)
  }

  /** Record q lasts at least as long as record p. */
  ghost predicate Outlives(s: State, q: nat, p: nat) {
    q < |s.records| && p < |s.records| && s.records[p].expiresAt <= s.records[q].expiresAt
  }

  /** Every stored, unexpired record is outlived by the one in the map. */
  ghost predicate Kept(s: State, key: string) {
    forall p :: HasPut(s.history, key, p) ==>
      HasExpired(s, p) || (key in s.entries && Outlives(s, s.entries[key], p))
  }

  /** At most one handler runs, and it runs only when every record made, stored or not, has expired. */
  ghost predicate Apart(s: State, key: string) {
    forall i :: 0 <= i < |s.threads| && IsHandling(s.threads[i], key) ==>
      AllExpired(s, key) && forall j :: 0 <= j < |s.threads| && IsHandling(s.threads[j], key) ==> j == i
  }

  /** No two handler runs are too close, and the map holds what keeps new ones from it. */
  ghost predicate Safe(s: State, key: string) {
    Kept(s, key) && Apart(s, key)
  }

  /** A handler runs, or has made an unexpired record that is not stored yet. */
  ghost predicate InFlight(s: State, key: string) {
    exists j :: 0 <= j < |s.threads| && Unfinished(s, s.threads[j], key)
  }

  ghost predicate Unfinished(s: State, pc: Pc, key: string) {
    IsHandling(pc, key) || (pc.AtStore? && pc.key == key && !HasExpired(s, pc.p))
  }

  /** The start of a handler while another run is in flight; a delete while an unexpired record is in the map;
      a store over an unexpired record that lasts longer. */
  ghost predicate Harmful(s: State, a: Action, key: string)
    requires Enabled(s, a)
  {
    match a
    case Load(i) => s.threads[i].key == key && key !in s.entries && InFlight(s, key)
    case Delete(i) =>
      && s.threads[i].key == key
      && ((key in s.entries && !HasExpired(s, s.entries[key])) || (s.threads[i].Deleting? && InFlight(s, key)))
    case Store(i) =>
      && s.threads[i].key == key && key in s.entries
      && !HasExpired(s, s.entries[key]) && !Outlives(s, s.threads[i].p, s.entries[key])
    case _ => false
  }

  /** Time, new records, and steps under other keys take nothing from the map that keeps the key. */
  lemma StillKept(s: State, t: State, key: string)
    requires PutsStored(s) && Kept(s, key)
    requires s.now <= t.now && s.records <= t.records
    requires forall p :: HasPut(t.history, key, p) ==> HasPut(s.history, key, p)
    requires key in s.entries ==> key in t.entries && t.entries[key] == s.entries[key]
    ensures Kept(t, key)
  {
    forall p | HasPut(t.history, key, p)
      ensures HasExpired(t, p) || (key in t.entries && Outlives(t, t.entries[key], p))
    {
      assert HasPut(s.history, key, p);
    }
  }

  /** A step that starts no handler under the key brings no runs too close. */
  lemma StillApart(ttl: int, s: State, a: Action, key: string)
    requires Apart(s, key) && Enabled(s, a)
    requires var t := Apply(ttl, s, a);
             forall i :: 0 <= i < |t.threads| && IsHandling(t.threads[i], key) ==>
               i < |s.threads| && IsHandling(s.threads[i], key)
    ensures Apart(Apply(ttl, s, a), key)
  {
    var t := Apply(ttl, s, a);
    forall i | 0 <= i < |t.threads| && IsHandling(t.threads[i], key)
      ensures AllExpired(t, key) && forall j :: 0 <= j < |t.threads| && IsHandling(t.threads[j], key) ==> j == i
    {
      assert IsHandling(s.threads[i], key);
    }
  }

  /** A handler that starts is apart from the others if and only if no run is in flight. */
  lemma StartApartIff(s: State, t: State, i: nat, key: string)
    requires Inv(s) && Apart(s, key) && AllStoredExpired(s, key)
    requires i < |s.threads| && !Unfinished(s, s.threads[i], key)
    requires i < |t.threads| && IsHandling(t.threads[i], key) && t.threads == s.threads[i := t.threads[i]]
    requires t.now == s.now && t.records == s.records
    ensures Apart(t, key) <==> !InFlight(s, key)
  {
    if InFlight(s, key) {
      var j :| 0 <= j < |s.threads| && Unfinished(s, s.threads[j], key);
      assert t.threads[j] == s.threads[j] && Sound(s, s.threads[j]);
    } else {
      forall p | 0 <= p < |s.records| && s.records[p].key == key ensures HasExpired(t, p) {
        if !HasPut(s.history, key, p) {
          assert !Unfinished(s, s.threads[s.records[p].maker], key);
        }
      }
      forall j | 0 <= j < |t.threads| && IsHandling(t.threads[j], key) ensures j == i {
        assert j != i ==> Unfinished(s, s.threads[j], key);
      }
    }
  }

  lemma LoadSafeIff(ttl: int, s: State, i: nat, key: string)
    requires Inv(s) && Safe(s, key) && Enabled(s, Load(i))
    ensures Safe(Apply(ttl, s, Load(i)), key) <==> !Harmful(s, Load(i), key)
  {
    var t := Apply(ttl, s, Load(i));
    StillKept(s, t, key);
    if s.threads[i].key == key && key !in s.entries {
      StartApartIff(s, t, i, key);
    } else {
      StillApart(ttl, s, Load(i), key);
    }
  }

  lemma DeleteSafeIff(ttl: int, s: State, i: nat, key: string)
    requires Inv(s) && Safe(s, key) && Enabled(s, Delete(i))
    ensures Safe(Apply(ttl, s, Delete(i)), key) <==> !Harmful(s, Delete(i), key)
  {
    var t := Apply(ttl, s, Delete(i));
    if s.threads[i].key != key {
      StillKept(s, t, key);
      StillApart(ttl, s, Delete(i), key);
    } else if key in s.entries && !HasExpired(s, s.entries[key]) {
      assert IsStored(s, key, s.entries[key]) && HasPut(t.history, key, s.entries[key]);
    } else {
      forall p | HasPut(t.history, key, p) ensures HasExpired(t, p) {
        assert HasPut(s.history, key, p);
      }
      if s.threads[i].Deleting? {
        StartApartIff(s, t, i, key);
      } else {
        StillApart(ttl, s, Delete(i), key);
      }
    }
  }

  lemma StoreSafeIff(ttl: int, s: State, i: nat, key: string)
    requires Inv(s) && Safe(s, key) && Enabled(s, Store(i))
    ensures Safe(Apply(ttl, s, Store(i)), key) <==> !Harmful(s, Store(i), key)
  {
    var t, p := Apply(ttl, s, Store(i)), s.threads[i].p;
    assert Sound(s, s.threads[i]);
    StillApart(ttl, s, Store(i), key);
    if s.threads[i].key != key {
      StillKept(s, t, key);
    } else if Harmful(s, Store(i), key) {
      assert IsStored(s, key, s.entries[key]) && HasPut(t.history, key, s.entries[key]);
    } else {
      forall q | HasPut(t.history, key, q) ensures HasExpired(t, q) || Outlives(t, p, q) {
        assert q == p || HasPut(s.history, key, q);
      }
    }
  }

  /** A handler that completes was the only one: none runs beside the record it has made. */
  lemma CompleteApart(ttl: int, s: State, i: nat, response: Response, key: string)
    requires Apart(s, key) && Enabled(s, Complete(i, response))
    ensures Apart(Apply(ttl, s, Complete(i, response)), key)
  {
    var t := Apply(ttl, s, Complete(i, response));
    if s.threads[i].key == key {
      assert IsHandling(s.threads[i], key);
      assert forall j :: 0 <= j < |t.threads| ==> !IsHandling(t.threads[j], key);
    } else {
      StillApart(ttl, s, Complete(i, response), key);
    }
  }

  /** From a safe state a step leads to an unsafe one if and only if it is harmful. */
  lemma UnsafeExactlyByHarm(ttl: int, s: State, a: Action, key: string)
    requires Inv(s) && Safe(s, key) && Enabled(s, a)
    ensures Safe(Apply(ttl, s, a), key) <==> !Harmful(s, a, key)
  {
    match a
    case Load(i) => LoadSafeIff(ttl, s, i, key);
    case Delete(i) => DeleteSafeIff(ttl, s, i, key);
    case Store(i) => StoreSafeIff(ttl, s, i, key);
    case Complete(i, response) =>
      StillKept(s, Apply(ttl, s, a), key);
      CompleteApart(ttl, s, i, response, key);
    case _ =>
      StillKept(s, Apply(ttl, s, a), key);
      StillApart(ttl, s, a, key);
  }

  // ----- What unsafe leads to -----

  function Later(s: State, to: int): State {
    s.(now := to)
  }

  /** What a new request comes to while everyone else stands still. */
  ghost function Answered(s: State, key: string): State {
    if key !in s.entries then s.(threads := s.threads + [Handling(key, s.history)])
    else
      var p := s.entries[key];
      if HasExpired(s, p) then
        s.(threads := s.threads + [Handling(key, s.history)], entries := s.entries - {key},
           history := Then(Del(key, p), s.history))
      else s.(threads := s.threads + [Replayed(key, p, s.now)])
  }

  ghost function Completed(ttl: int, s: State, i: nat): State
    requires i < |s.threads| && s.threads[i].Handling?
  {
    Apply(ttl, s, Complete(i, Response(200, [])))
  }

  /** A handler runs beside an unexpired record, or does so once another one completes,
      or a request that comes at the right time runs it beside one that has been stored. */
  ghost predicate Exposed(ttl: int, s: State, key: string) {
    || AnyBeside(s, key)
    || (exists i :: 0 <= i < |s.threads| && IsHandling(s.threads[i], key) && AnyBeside(Completed(ttl, s, i), key))
    || (exists to :: s.now <= to && AnyDespite(Answered(Later(s, to), key), key))
  }

  lemma SafeAnswers(s: State, key: string, to: int)
    requires PutsStored(s) && Safe(s, key) && s.now <= to
    ensures !AnyDespite(Answered(Later(s, to), key), key)
  {
    var t := Answered(Later(s, to), key);
    if i: nat, p: nat :| RunsDespite(t, i, key, p) {
      assert HasPut(s.history, key, p) && !HasExpired(s, p) && IsStored(s, key, p);
      assert i < |s.threads| ==> IsHandling(s.threads[i], key);
    }
  }

  lemma SafeIsNotExposed(ttl: int, s: State, key: string)
    requires PutsStored(s) && Safe(s, key)
    ensures !Exposed(ttl, s, key)
  {
    forall i | 0 <= i < |s.threads| && IsHandling(s.threads[i], key) ensures !AnyBeside(Completed(ttl, s, i), key) {
      CompleteApart(ttl, s, i, Response(200, []), key);
    }
    forall to | s.now <= to ensures !AnyDespite(Answered(Later(s, to), key), key) {
      SafeAnswers(s, key, to);
    }
  }

  /** Once the record in the map has expired, or at once without one, a request misses the one that lasts longer. */
  lemma LostIsMissed(s: State, key: string, p: nat)
    requires p < |s.records| && s.records[p].key == key && HasPut(s.history, key, p) && !HasExpired(s, p)
    requires key in s.entries ==> s.entries[key] < |s.records| && !Outlives(s, s.entries[key], p)
    ensures exists to :: s.now <= to && AnyDespite(Answered(Later(s, to), key), key)
  {
    var to :=
      if key in s.entries && !HasExpired(s, s.entries[key]) then s.records[s.entries[key]].expiresAt + 1 else s.now;
    assert RunsDespite(Answered(Later(s, to), key), |s.threads|, key, p);
  }

  lemma TwoIsBeside(ttl: nat, s: State, key: string, i: nat, j: nat)
    requires i < |s.threads| && j < |s.threads| && i != j
    requires IsHandling(s.threads[i], key) && IsHandling(s.threads[j], key)
    ensures AnyBeside(Completed(ttl, s, i), key)
  {
    assert RunsBeside(Completed(ttl, s, i), j, key, |s.records|);
  }

  lemma UnsafeIsExposed(ttl: nat, s: State, key: string)
    requires Inv(s) && !Safe(s, key)
    ensures Exposed(ttl, s, key)
  {
    if !Kept(s, key) {
      var p :| HasPut(s.history, key, p) && !HasExpired(s, p) && !(key in s.entries && Outlives(s, s.entries[key], p));
      assert IsStored(s, key, p) && (key in s.entries ==> IsStored(s, key, s.entries[key]));
      LostIsMissed(s, key, p);
    } else if i, j :| 0 <= i < j < |s.threads| && IsHandling(s.threads[i], key) && IsHandling(s.threads[j], key) {
      TwoIsBeside(ttl, s, key, i, j);
    } else {
      var i :| 0 <= i < |s.threads| && IsHandling(s.threads[i], key) && !AllExpired(s, key);
      var p :| 0 <= p < |s.records| && s.records[p].key == key && !HasExpired(s, p);
      assert RunsBeside(s, i, key, p);
    }
  }

  // ----- Runs without harm -----

  ghost predicate HarmAt(ttl: int, run: seq<State>, m: nat, key: string)
    requires m + 1 < |run|
  {
    exists a: Action :: Enabled(run[m], a) && run[m + 1] == Apply(ttl, run[m], a) && Harmful(run[m], a, key)
  }

  lemma SafeStepIff(ttl: int, start: int, run: seq<State>, m: nat, key: string)
    requires IsRun(ttl, start, run) && m + 1 < |run| && Safe(run[m], key)
    ensures Safe(run[m + 1], key) <==> !HarmAt(ttl, run, m, key)
  {
    Invariant(ttl, start, run, m);
    assert StepAt(ttl, run, m);
    forall a: Action | Enabled(run[m], a) && run[m + 1] == Apply(ttl, run[m], a)
      ensures Safe(run[m + 1], key) <==> !Harmful(run[m], a, key)
    {
      UnsafeExactlyByHarm(ttl, run[m], a, key);
    }
  }

  lemma {:induction false} SafeUnlessHarm(ttl: int, start: int, run: seq<State>, n: nat, key: string)
    requires IsRun(ttl, start, run) && n < |run|
    ensures (forall m :: 0 <= m <= n ==> Safe(run[m], key)) <==> (forall m :: 0 <= m < n ==> !HarmAt(ttl, run, m, key))
  {
    if n > 0 {
      SafeUnlessHarm(ttl, start, run, n - 1, key);
      if Safe(run[n - 1], key) {
        SafeStepIff(ttl, start, run, n - 1, key);
      }
    }
  }

  ghost predicate NothingLasts(s: State) {
    forall p :: 0 <= p < |s.records| ==> HasExpired(s, p)
  }

  lemma NothingLastsAction(ttl: int, s: State, a: Action)
    requires ttl < 0 && NothingLasts(s) && Enabled(s, a)
    ensures NothingLasts(Apply(ttl, s, a))
  {
    var t := Apply(ttl, s, a);
    forall p | 0 <= p < |t.records| ensures HasExpired(t, p) {
      assert p < |s.records| ==> HasExpired(s, p);
    }
  }

  lemma NothingBeside(s: State, key: string)
    requires NothingLasts(s)
    ensures !AnyBeside(s, key)
  {
    forall i: nat, p: nat ensures !RunsBeside(s, i, key, p) {
      assert p < |s.records| ==> HasExpired(s, p);
    }
  }

  lemma NothingMissed(ttl: int, s: State, key: string)
    requires ttl < 0 && NothingLasts(s)
    ensures !Exposed(ttl, s, key)
  {
    NothingBeside(s, key);
    forall i | 0 <= i < |s.threads| && IsHandling(s.threads[i], key) ensures !AnyBeside(Completed(ttl, s, i), key) {
      NothingLastsAction(ttl, s, Complete(i, Response(200, [])));
      NothingBeside(Completed(ttl, s, i), key);
    }
    forall to | s.now <= to ensures !AnyDespite(Answered(Later(s, to), key), key) {
      var t := Answered(Later(s, to), key);
      forall p | 0 <= p < |t.records| ensures HasExpired(t, p) {
        assert HasExpired(s, p);
      }
      NothingBeside(t, key);
    }
  }

  /** With a negative ttl records have expired when they are made. */
  lemma {:induction false} NeverExposed(ttl: int, start: int, run: seq<State>, n: nat, key: string)
    requires ttl < 0 && IsRun(ttl, start, run) && n < |run|
    ensures NothingLasts(run[n]) && !Exposed(ttl, run[n], key)
  {
    if n > 0 {
      NeverExposed(ttl, start, run, n - 1, key);
      assert StepAt(ttl, run, n - 1);
      var a: Action :| Enabled(run[n - 1], a) && run[n] == Apply(ttl, run[n - 1], a);
      NothingLastsAction(ttl, run[n - 1], a);
    }
    NothingMissed(ttl, run[n], key);
  }

  /** For a ttl that is not negative, the first n steps of a run lead to a state in which two handler runs under the key
      are within ttl of each other, or will be by one completion or one more request,
      if and only if one of the steps was harmful. */
  lemma ExposedExactlyByHarm(ttl: int, start: int, run: seq<State>, n: nat, key: string)
    requires IsRun(ttl, start, run) && n < |run|
    ensures (exists m :: 0 <= m <= n && Exposed(ttl, run[m], key))
       <==> ttl >= 0 && (exists m :: 0 <= m < n && HarmAt(ttl, run, m, key))
  {
    SafeUnlessHarm(ttl, start, run, n, key);
    forall m | 0 <= m <= n ensures Exposed(ttl, run[m], key) <==> ttl >= 0 && !Safe(run[m], key) {
      Invariant(ttl, start, run, m);
      if ttl < 0 {
        NeverExposed(ttl, start, run, m, key);
      } else if Safe(run[m], key) {
        SafeIsNotExposed(ttl, run[m], key);
      } else {
        UnsafeIsExposed(ttl, run[m], key);
      }
    }
  }

  lemma Checks(ttl: int, start: int, run: seq<State>, i: nat) returns (more: seq<State>)
    requires IsRun(ttl, start, run)
    requires var s := run[|run| - 1]; i < |s.threads| && s.threads[i].Loaded? && s.threads[i].p < |s.records|
    ensures IsRun(ttl, start, more) && run <= more && |more| <= |run| + 2
    ensures var s := run[|run| - 1];
            var Loaded(key, p, view) := s.threads[i];
            more[|more| - 1]
            == if HasExpired(s, p)
               then s.(threads := s.threads[i := Handling(key, view)], entries := s.entries - {key},
                       history := Then(Del(key, p), s.history))
               else s.(threads := s.threads[i := Replayed(key, p, s.now)])
  {
    var s := run[|run| - 1];
    more := Do(ttl, start, run, Check(i));
    if HasExpired(s, s.threads[i].p) {
      more := Do(ttl, start, more, Delete(i));
    }
  }

  lemma Answers(ttl: int, start: int, run: seq<State>, key: string) returns (more: seq<State>)
    requires IsRun(ttl, start, run)
    ensures IsRun(ttl, start, more) && run <= more && |more| <= |run| + 4
    ensures more[|more| - 1] == Answered(run[|run| - 1], key)
  {
    var s := run[|run| - 1];
    var i := |s.threads|;
    Invariant(ttl, start, run, |run| - 1);
    more := Loads(ttl, start, run, key);
    if key in s.entries {
      assert IsStored(s, key, s.entries[key]);
      more := Checks(ttl, start, more, i);
    }
  }

  /** Being exposed is no idle threat: a run goes on to the handler running beside the record. */
  lemma ExposedIsReached(ttl: int, start: int, run: seq<State>, key: string) returns (more: seq<State>)
    requires IsRun(ttl, start, run) && Exposed(ttl, run[|run| - 1], key)
    ensures IsRun(ttl, start, more) && run <= more && |more| <= |run| + 5
    ensures AnyBeside(more[|more| - 1], key)
  {
    var s := run[|run| - 1];
    more := run;
    if AnyBeside(s, key) {
    } else if i :| 0 <= i < |s.threads| && IsHandling(s.threads[i], key) && AnyBeside(Completed(ttl, s, i), key) {
      more := Do(ttl, start, run, Complete(i, Response(200, [])));
    } else {
      var to :| s.now <= to && AnyDespite(Answered(Later(s, to), key), key);
      more := Do(ttl, start, run, Clock(to));
      more := Answers(ttl, start, more, key);
      var i: nat, p: nat :| RunsDespite(more[|more| - 1], i, key, p);
      assert RunsBeside(more[|more| - 1], i, key, p);
    }
  }

  /** In a run without a harmful step the handler runs under a key only when every record made under it has expired,
      when every earlier run was completed more than ttl ago, and no other handler runs. */
  lemma HarmlessRunsAreTtlApart(ttl: int, start: int, run: seq<State>, n: nat, i: nat, key: string)
    requires IsRun(ttl, start, run) && n < |run| && i < |run[n].threads| && IsHandling(run[n].threads[i], key)
    requires forall m :: 0 <= m < n ==> !HarmAt(ttl, run, m, key)
    ensures forall p :: 0 <= p < |run[n].records| && run[n].records[p].key == key ==>
              run[n].records[p].expiresAt < run[n].now
    ensures forall j :: 0 <= j < |run[n].threads| && IsHandling(run[n].threads[j], key) ==> j == i
  {
    SafeUnlessHarm(ttl, start, run, n, key);
  }

  /** So any two records of the key were made more than ttl apart. */
  ghost predicate MadeApart(ttl: int, s: State, key: string) {
    forall p, q :: 0 <= p < q < |s.records| && s.records[p].key == s.records[q].key == key ==>
      s.records[p].expiresAt + ttl < s.records[q].expiresAt
  }

  lemma {:induction false} HarmlessRecordsAreTtlApart(ttl: int, start: int, run: seq<State>, n: nat, key: string)
    requires IsRun(ttl, start, run) && n < |run|
    requires forall m :: 0 <= m < n ==> !HarmAt(ttl, run, m, key)
    ensures MadeApart(ttl, run[n], key)
  {
    if n > 0 {
      HarmlessRecordsAreTtlApart(ttl, start, run, n - 1, key);
      SafeUnlessHarm(ttl, start, run, n - 1, key);
      assert StepAt(ttl, run, n - 1);
      MadeApartStep(ttl, run[n - 1], run[n], key);
    }
  }

  lemma MadeApartStep(ttl: int, s: State, t: State, key: string)
    requires Apart(s, key) && MadeApart(ttl, s, key) && Step(ttl, s, t)
    ensures MadeApart(ttl, t, key)
  {
    var a: Action :| Enabled(s, a) && t == Apply(ttl, s, a);
    if a.Complete? && s.threads[a.i].key == key {
      assert IsHandling(s.threads[a.i], key);
    }
  }

  // ----- One writer at a time -----

  /** Between its load and its last step under the key. */
  predicate Busy(pc: Pc, key: string) {
    pc.key == key && !pc.AtLoad? && !pc.Ran? && !pc.Replayed? && !pc.Swept?
  }

  /** On the way to changing the map. */
  predicate Writing(pc: Pc) {
    pc.Deleting? || pc.SweepDeleting? || pc.Handling? || pc.AtStore?
  }

  /** Who is about to change the map is alone on the key; any number of others may load and check at once. */
  ghost predicate WritersAlone(s: State, key: string) {
    forall i, j :: 0 <= i < |s.threads| && 0 <= j < |s.threads| && i != j ==>
      !(Busy(s.threads[i], key) && Busy(s.threads[j], key) && Writing(s.threads[i]))
  }

  /** Every record stored under the key has expired, but for the one in the map. */
  ghost predicate OthersExpired(s: State, key: string) {
    forall p :: HasPut(s.history, key, p) ==> HasExpired(s, p) || (key in s.entries && s.entries[key] == p)
  }

  /** Who is busy with the key has the record in the map in hand, or there is none. */
  ghost predicate InHand(s: State, key: string) {
    forall i :: 0 <= i < |s.threads| && Busy(s.threads[i], key) ==>
      if s.threads[i].Handling? || s.threads[i].AtStore? then key !in s.entries
      else key in s.entries && s.entries[key] == s.threads[i].p
  }

  ghost predicate Solo(s: State, key: string) {
    OthersExpired(s, key) && InHand(s, key)
  }

  lemma SoloIsSafe(s: State, key: string)
    requires Inv(s) && Solo(s, key) && WritersAlone(s, key)
    ensures Safe(s, key)
  {
    forall i | 0 <= i < |s.threads| && IsHandling(s.threads[i], key)
      ensures AllExpired(s, key) && forall j :: 0 <= j < |s.threads| && IsHandling(s.threads[j], key) ==> j == i
    {
      assert Busy(s.threads[i], key) && Writing(s.threads[i]);
      assert forall p :: 0 <= p < |s.records| && s.records[p].key == key && !HasPut(s.history, key, p) ==>
          Busy(s.threads[s.records[p].maker], key);
    }
  }

  lemma OthersExpiredAction(ttl: int, s: State, a: Action, key: string)
    requires Inv(s) && Solo(s, key) && Enabled(s, a)
    ensures OthersExpired(Apply(ttl, s, a), key)
  {
    if a.Delete? {
      assert Sound(s, s.threads[a.i]);
    }
  }

  lemma InHandAction(ttl: int, s: State, a: Action, key: string)
    requires InHand(s, key) && Enabled(s, a)
    requires WritersAlone(s, key) && WritersAlone(Apply(ttl, s, a), key)
    ensures InHand(Apply(ttl, s, a), key)
  {
  }

  lemma SoloStep(ttl: int, s: State, t: State, key: string)
    requires Inv(s) && Solo(s, key) && Step(ttl, s, t) && WritersAlone(s, key) && WritersAlone(t, key)
    ensures Solo(t, key)
  {
    var a: Action :| Enabled(s, a) && t == Apply(ttl, s, a);
    OthersExpiredAction(ttl, s, a, key);
    InHandAction(ttl, s, a, key);
  }

  lemma SoloNext(ttl: int, start: int, run: seq<State>, n: nat, key: string)
    requires IsRun(ttl, start, run) && n + 1 < |run| && Solo(run[n], key)
    requires WritersAlone(run[n], key) && WritersAlone(run[n + 1], key)
    ensures Solo(run[n + 1], key)
  {
    Invariant(ttl, start, run, n);
    assert StepAt(ttl, run, n);
    SoloStep(ttl, run[n], run[n + 1], key);
  }

  lemma {:induction false} AlwaysSolo(ttl: int, start: int, run: seq<State>, n: nat, key: string)
    requires IsRun(ttl, start, run) && n < |run| && forall m :: 0 <= m <= n ==> WritersAlone(run[m], key)
    ensures Solo(run[n], key)
  {
    if n > 0 {
      AlwaysSolo(ttl, start, run, n - 1, key);
      SoloNext(ttl, start, run, n - 1, key);
    }
  }

  /** As long as those who are about to change the map are alone on the key, no step is harmful. */
  lemma AloneIsHarmless(ttl: int, start: int, run: seq<State>, n: nat, key: string)
    requires IsRun(ttl, start, run) && n < |run| && forall m :: 0 <= m <= n ==> WritersAlone(run[m], key)
    ensures forall m :: 0 <= m < n ==> !HarmAt(ttl, run, m, key)
  {
    forall m | 0 <= m <= n ensures Safe(run[m], key) {
      Invariant(ttl, start, run, m);
      AlwaysSolo(ttl, start, run, m, key);
      SoloIsSafe(run[m], key);
    }
    SafeUnlessHarm(ttl, start, run, n, key);
  }

  // ----- What concurrency can do -----

  /** The handler of request i completes and its response is stored. */
  lemma Finishes(ttl: nat, run: seq<State>, i: nat, r: Response) returns (more: seq<State>)
    requires IsRun(ttl, 0, run)
    requires i < |run[|run| - 1].threads| && run[|run| - 1].threads[i].Handling?
    ensures IsRun(ttl, 0, more)
    ensures var s := run[|run| - 1];
            var key, p := s.threads[i].key, |s.records|;
            more[|more| - 1] == State(s.now, s.entries[key := p], s.records + [Record(key, r, s.now + ttl, i)],
                                      s.threads[i := Ran(key, p)], Then(Put(key, p), s.history))
  {
    more := Do(ttl, 0, run, Complete(i, r));
    more := Do(ttl, 0, more, Store(i));
  }

  /** Two requests that both load before either stores both run the handler, at one instant and whatever the ttl.
      After the first has completed, the second still runs beside its record, and nothing has been stored. */
  lemma ConcurrentRequestsBothRun(ttl: nat, key: string, r: Response) returns (run: seq<State>)
    ensures IsRun(ttl, 0, run) && |run| == 9
    ensures run[5].history == Empty && RunsBeside(run[5], 1, key, 0)
    ensures var s := run[8];
            && s.now == 0
            && s.threads == [Ran(key, 0), Ran(key, 1)]
            && s.records == [Record(key, r, ttl, 0), Record(key, r, ttl, 1)]
  {
    run := Loads(ttl, 0, [Init(0)], key);
    run := Loads(ttl, 0, run, key);
    run := Do(ttl, 0, run, Complete(0, r));
    run := Do(ttl, 0, run, Complete(1, r));
    run := Do(ttl, 0, run, Store(0));
    run := Do(ttl, 0, run, Store(1));
  }

  /** Two requests have found the first record expired and are about to delete it. */
  lemma BothFoundExpired(ttl: nat, key: string, r: Response) returns (run: seq<State>)
    ensures IsRun(ttl, 0, run)
    ensures var h := Then(Put(key, 0), Empty);
            run[|run| - 1]
            == State(ttl + 1, map[key := 0], [Record(key, r, ttl, 0)],
                     [Ran(key, 0), Deleting(key, 0, h), Deleting(key, 0, h)], h)
  {
    run := Loads(ttl, 0, [Init(0)], key);
    run := Finishes(ttl, run, 0, r);
    run := Do(ttl, 0, run, Clock(ttl + 1));
    run := Loads(ttl, 0, run, key);
    run := Loads(ttl, 0, run, key);
    run := Do(ttl, 0, run, Check(1));
    run := Do(ttl, 0, run, Check(2));
  }

  /** One of them deletes it and stores a new record, then the other deletes that, and a third runs the handler. */
  lemma StaleDeleteLosesFreshRecord(ttl: nat, key: string, r: Response) returns (run: seq<State>)
    ensures IsRun(ttl, 0, run)
    ensures var s := run[|run| - 1];
            key !in s.entries && FateOf(s.history, key) == Lost(1, 0) && RunsDespite(s, 3, key, 1)
  {
    run := BothFoundExpired(ttl, key, r);
    run := Do(ttl, 0, run, Delete(2));
    run := Finishes(ttl, run, 2, r);
    run := Do(ttl, 0, run, Delete(1));
    assert FateOf(run[|run| - 1].history, key) == Lost(1, 0);
    run := Loads(ttl, 0, run, key);
  }

  /** Two handlers complete one after the other and store in the opposite order. */
  lemma StoredInReverse(ttl: nat, key: string, r: Response) returns (run: seq<State>)
    ensures IsRun(ttl, 0, run)
    ensures run[|run| - 1]
         == State(1, map[key := 0], [Record(key, r, ttl, 0), Record(key, r, ttl + 1, 1)],
                  [Ran(key, 0), Ran(key, 1)], Then(Put(key, 0), Then(Put(key, 1), Empty)))
  {
    run := Loads(ttl, 0, [Init(0)], key);
    run := Loads(ttl, 0, run, key);
    run := Do(ttl, 0, run, Complete(0, r));
    run := Do(ttl, 0, run, Clock(1));
    run := Do(ttl, 0, run, Complete(1, r));
    run := Do(ttl, 0, run, Store(1));
    run := Do(ttl, 0, run, Store(0));
  }

  /** After that a third request finds only the record that expires first, deletes it and runs the handler.
      Nothing had been deleted before. */
  lemma OverwriteLosesFreshRecord(ttl: nat, key: string, r: Response) returns (run: seq<State>)
    ensures IsRun(ttl, 0, run)
    ensures RunsDespite(run[|run| - 1], 2, key, 1)
    ensures run[|run| - 1].threads[2].view == Then(Put(key, 0), Then(Put(key, 1), Empty))
  {
    run := StoredInReverse(ttl, key, r);
    run := Do(ttl, 0, run, Clock(ttl + 1));
    run := Loads(ttl, 0, run, key);
    run := Do(ttl, 0, run, Check(2));
    run := Do(ttl, 0, run, Delete(2));
  }
}
