/** The bucket store of internal/middleware/ratelimit_principal.go with its locks: every lock section of `get`, of
    `allow` and of the reaper's sweep is a step of its own, and any number of requests run beside the reaper.
    A request keeps the bucket it was given even when the reaper has evicted it since. */
module StoreSteps {
  import opened Arithmetic
  import opened TokenBuckets

  datatype Config = Config(rpm: nat, interval: int)

  datatype Who = Request(i: nat) | TheReaper
  datatype Lock = Free | Held(who: Who)

  /** A bucket in memory; it stays there after it has left the map. */
  datatype Object = Object(key: string, bucket: Bucket, mu: Lock)

  datatype Pc =
    | AtStore(key: string)            // about to lock the store
    | InStore(key: string)            // holds the store's lock
    | AtBucket(key: string, b: nat)   // has its bucket, holds no lock
    | InBucket(key: string, b: nat)   // holds the bucket's lock
    | Finished(key: string, ok: bool)

  datatype Reaper =
    | Asleep
    | Starting  // holds the store's lock, about to read the clock
    | Sweeping(cutoff: int, todo: set<string>)
    | Checking(cutoff: int, todo: set<string>, k: string, b: nat)

  /** One completed `allow`, and all completed calls, latest first. */
  datatype Entry = Entry(key: string, b: nat, at: int, ok: bool)
  datatype Log = Empty | Logged(entry: Entry, earlier: Log)

  datatype State = State(
    now: int,
    mu: Lock,
    buckets: map<string, nat>,
    objects: seq<Object>,
    requests: seq<Pc>,
    reaper: Reaper,
    log: Log)

  datatype Action =
    | Arrive(key: string)
    | Clock(to: int)
    | Wake
    | Begin
    | LockStore(i: nat)
    | Get(i: nat)
    | LockBucket(i: nat)
    | Allow(i: nat)
    | Visit(k: string)
    | Check
    | Sleep

  function Init(start: int): State {
    State(start, Free, map[], [], [], Asleep, Empty)
  }

  ghost predicate Enabled(s: State, a: Action) {
    match a
    case Arrive(_) => true
    case Clock(to) => s.now <= to
    case Wake => s.reaper.Asleep? && s.mu == Free
    case Begin => s.reaper.Starting?
    case LockStore(i) => i < |s.requests| && s.requests[i].AtStore? && s.mu == Free
    case Get(i) => i < |s.requests| && s.requests[i].InStore?
    case LockBucket(i) =>
      i < |s.requests| && s.requests[i].AtBucket?
      && s.requests[i].b < |s.objects| && s.objects[s.requests[i].b].mu == Free
    case Allow(i) => i < |s.requests| && s.requests[i].InBucket? && s.requests[i].b < |s.objects|
    case Visit(k) =>
      s.reaper.Sweeping? && k in s.reaper.todo && k in s.buckets
      && s.buckets[k] < |s.objects| && s.objects[s.buckets[k]].mu == Free
    case Check => s.reaper.Checking? && s.reaper.b < |s.objects|
    case Sleep => s.reaper.Sweeping? && s.reaper.todo == {}
  }

  function WithMu(objects: seq<Object>, b: nat, mu: Lock): seq<Object>
    requires b < |objects|
  {
    objects[b := objects[b].(mu := mu)]
  }

  ghost function Apply(c: Config, s: State, a: Action): State
    requires Enabled(s, a)
  {
    match a
    case Arrive(key) => s.(requests := s.requests + [AtStore(key)])
    case Clock(to) => s.(now := to)
    case Wake => s.(mu := Held(TheReaper), reaper := Starting)
    case Begin => s.(reaper := Sweeping(s.now - c.interval, s.buckets.Keys))
    case LockStore(i) => s.(mu := Held(Request(i)), requests := s.requests[i := InStore(s.requests[i].key)])
    case Get(i) =>
      var key := s.requests[i].key;
      if key in s.buckets then
        s.(mu := Free, requests := s.requests[i := AtBucket(key, s.buckets[key])])
      else
        s.(mu := Free,
           buckets := s.buckets[key := |s.objects|],
           objects := s.objects + [Object(key, Fresh(c.rpm, s.now), Free)],
           requests := s.requests[i := AtBucket(key, |s.objects|)])
    case LockBucket(i) =>
      var b := s.requests[i].b;
      s.(objects := WithMu(s.objects, b, Held(Request(i))), requests := s.requests[i := InBucket(s.requests[i].key, b)])
    case Allow(i) =>
      var key, b := s.requests[i].key, s.requests[i].b;
      var bucket := s.objects[b].bucket;
      var ok := Admits(c.rpm, bucket, s.now);
      s.(objects := s.objects[b := Object(s.objects[b].key, After(c.rpm, bucket, s.now), Free)],
         requests := s.requests[i := Finished(key, ok)],
         log := Logged(Entry(key, b, s.now, ok), s.log))
    case Visit(k) =>
      s.(objects := WithMu(s.objects, s.buckets[k], Held(TheReaper)),
         reaper := Checking(s.reaper.cutoff, s.reaper.todo, k, s.buckets[k]))
    case Check =>
      var k, b := s.reaper.k, s.reaper.b;
      s.(buckets := if s.objects[b].bucket.last < s.reaper.cutoff then s.buckets - {k} else s.buckets,
         objects := WithMu(s.objects, b, Free),
         reaper := Sweeping(s.reaper.cutoff, s.reaper.todo - {k}))
    case Sleep => s.(mu := Free, reaper := Asleep)
  }

  ghost predicate Step(c: Config, s: State, t: State) {
    exists a: Action :: Enabled(s, a) && t == Apply(c, s, a)
  }

  ghost predicate StepAt(c: Config, run: seq<State>, i: nat)
    requires i + 1 < |run|
  {
    Step(c, run[i], run[i + 1])
  }

  /** The states of a run, from the start. */
  ghost predicate IsRun(c: Config, start: int, run: seq<State>) {
    && run != []
    && run[0] == Init(start)
    && forall i :: 0 <= i < |run| - 1 ==> StepAt(c, run, i)
  }

  // ----- Invariants -----

  /** The map has one bucket a principal, and everyone's bucket is their own. */
  ghost predicate Sound(s: State) {
    && (forall k :: k in s.buckets ==> s.buckets[k] < |s.objects| && s.objects[s.buckets[k]].key == k)
    && (forall i :: 0 <= i < |s.requests| && (s.requests[i].AtBucket? || s.requests[i].InBucket?) ==>
          s.requests[i].b < |s.objects| && s.objects[s.requests[i].b].key == s.requests[i].key)
    && (s.reaper.Sweeping? || s.reaper.Checking? ==> s.reaper.todo <= s.buckets.Keys)
    && (s.reaper.Checking? ==> s.reaper.k in s.reaper.todo && s.buckets[s.reaper.k] == s.reaper.b)
  }

  /** The store's lock is held exactly by the one inside. */
  ghost predicate StoreLocked(s: State) {
    && (s.mu == Held(TheReaper) <==> !s.reaper.Asleep?)
    && (forall i :: 0 <= i < |s.requests| ==> (s.requests[i].InStore? <==> s.mu == Held(Request(i))))
    && (s.mu.Held? && s.mu.who.Request? ==> s.mu.who.i < |s.requests|)
  }

  /** The reaper holds a bucket's lock exactly while it checks that bucket. */
  ghost predicate ReaperLocked(s: State) {
    forall b :: 0 <= b < |s.objects| ==> (s.objects[b].mu == Held(TheReaper) <==> s.reaper.Checking? && s.reaper.b == b)
  }

  /** A request in a bucket holds its lock. */
  ghost predicate RequestsHold(s: State) {
    forall i :: 0 <= i < |s.requests| && s.requests[i].InBucket? ==>
      s.requests[i].b < |s.objects| && s.objects[s.requests[i].b].mu == Held(Request(i))
  }

  /** A bucket's lock held by a request is held by one in that bucket. */
  ghost predicate HoldersInside(s: State) {
    forall b :: 0 <= b < |s.objects| && s.objects[b].mu.Held? && s.objects[b].mu.who.Request? ==>
      var i := s.objects[b].mu.who.i;
      i < |s.requests| && s.requests[i].InBucket? && s.requests[i].b == b
  }

  ghost predicate Inv(s: State) {
    Sound(s) && StoreLocked(s) && ReaperLocked(s) && RequestsHold(s) && HoldersInside(s)
  }

  lemma SoundStep(c: Config, s: State, a: Action)
    requires Inv(s) && Enabled(s, a)
    ensures Sound(Apply(c, s, a))
  {
  }

  lemma StoreLockedStep(c: Config, s: State, a: Action)
    requires StoreLocked(s) && Enabled(s, a)
    ensures StoreLocked(Apply(c, s, a))
  {
  }

  lemma ReaperLockedStep(c: Config, s: State, a: Action)
    requires Inv(s) && Enabled(s, a)
    ensures ReaperLocked(Apply(c, s, a))
  {
  }

  lemma RequestsHoldStep(c: Config, s: State, a: Action)
    requires Inv(s) && Enabled(s, a)
    ensures RequestsHold(Apply(c, s, a))
  {
  }

  lemma HoldersInsideStep(c: Config, s: State, a: Action)
    requires Inv(s) && Enabled(s, a)
    ensures HoldersInside(Apply(c, s, a))
  {
  }

  lemma InvStep(c: Config, s: State, t: State)
    requires Inv(s) && Step(c, s, t)
    ensures Inv(t)
  {
    var a: Action :| Enabled(s, a) && t == Apply(c, s, a);
    SoundStep(c, s, a);
    StoreLockedStep(c, s, a);
    ReaperLockedStep(c, s, a);
    RequestsHoldStep(c, s, a);
    HoldersInsideStep(c, s, a);
  }

  lemma {:induction false} Invariant(c: Config, start: int, run: seq<State>, n: nat)
    requires IsRun(c, start, run) && n < |run|
    ensures Inv(run[n])
  {
    if n > 0 {
      Invariant(c, start, run, n - 1);
      assert StepAt(c, run, n - 1);
      InvStep(c, run[n - 1], run[n]);
    }
  }

  /** No two requests, and no request and the reaper, are ever inside the same lock. */
  lemma MutualExclusion(c: Config, start: int, run: seq<State>, n: nat)
    requires IsRun(c, start, run) && n < |run|
    ensures var s := run[n];
            && (forall i, j :: 0 <= i < j < |s.requests| && s.requests[i].InStore? ==> !s.requests[j].InStore?)
            && (forall i :: 0 <= i < |s.requests| && s.requests[i].InStore? ==> s.reaper.Asleep?)
            && (forall i, j :: 0 <= i < j < |s.requests| && s.requests[i].InBucket? && s.requests[j].InBucket? ==>
                  s.requests[i].b != s.requests[j].b)
            && (forall i :: 0 <= i < |s.requests| && s.requests[i].InBucket? && s.reaper.Checking? ==>
                  s.requests[i].b != s.reaper.b)
  {
    Invariant(c, start, run, n);
  }

  // ----- No deadlock -----

  /** A step of work already under way, as opposed to new work or the passing of time. */
  predicate Working(a: Action) {
    !a.Arrive? && !a.Clock? && !a.Wake?
  }

  ghost predicate Idle(s: State) {
    s.reaper.Asleep? && forall i :: 0 <= i < |s.requests| ==> s.requests[i].Finished?
  }

  /** The holder of a bucket's lock can always go on. */
  lemma BucketFreeOrMoving(s: State, b: nat)
    requires Inv(s) && b < |s.objects| && !s.reaper.Checking?
    ensures s.objects[b].mu == Free || (s.objects[b].mu.who.Request? && Enabled(s, Allow(s.objects[b].mu.who.i)))
  {
  }

  lemma CanMove(s: State) returns (a: Action)
    requires Inv(s) && !Idle(s)
    ensures Working(a) && Enabled(s, a)
  {
    if s.reaper.Checking? {
      a := Check;
    } else if s.reaper.Starting? {
      a := Begin;
    } else if s.reaper.Sweeping? {
      if s.reaper.todo == {} {
        a := Sleep;
      } else {
        var k :| k in s.reaper.todo;
        BucketFreeOrMoving(s, s.buckets[k]);
        var mu := s.objects[s.buckets[k]].mu;
        a := if mu == Free then Visit(k) else Allow(mu.who.i);
      }
    } else if s.mu.Held? {
      a := Get(s.mu.who.i);
    } else {
      var i :| 0 <= i < |s.requests| && !s.requests[i].Finished?;
      match s.requests[i]
      case AtStore(_) => a := LockStore(i);
      case InBucket(_, _) => a := Allow(i);
      case AtBucket(_, b) =>
        BucketFreeOrMoving(s, b);
        a := if s.objects[b].mu == Free then LockBucket(i) else Allow(s.objects[b].mu.who.i);
    }
  }

  /** In no state of any run are all unfinished requests and the sweep stuck. */
  lemma NoDeadlock(c: Config, start: int, run: seq<State>, n: nat)
    requires IsRun(c, start, run) && n < |run| && !Idle(run[n])
    ensures exists a: Action :: Working(a) && Enabled(run[n], a)
  {
    Invariant(c, start, run, n);
    var a := CanMove(run[n]);
  }

  function Rank(pc: Pc): nat {
    match pc
    case AtStore(_) => 4
    case InStore(_) => 3
    case AtBucket(_, _) => 2
    case InBucket(_, _) => 1
    case Finished(_, _) => 0
  }

  function RequestWork(requests: seq<Pc>, n: nat): nat
    requires n <= |requests|
  {
    if n == 0 then 0 else RequestWork(requests, n - 1) + Rank(requests[n - 1])
  }

  function ReaperWork(s: State): nat {
    match s.reaper
    case Asleep => 0
    case Starting => 2 * |s.buckets.Keys| + 2
    case Sweeping(_, todo) => 2 * |todo| + 1
    case Checking(_, todo, _, _) => 2 * |todo|
  }

  function Work(s: State): nat {
    RequestWork(s.requests, |s.requests|) + ReaperWork(s)
  }

  lemma {:induction false} RequestMoves(requests: seq<Pc>, i: nat, pc: Pc, n: nat)
    requires i < |requests| && n <= |requests|
    ensures RequestWork(requests[i := pc], n)
         == RequestWork(requests, n) + if i < n then Rank(pc) - Rank(requests[i]) else 0
  {
    if n > 0 {
      RequestMoves(requests, i, pc, n - 1);
    }
  }

  lemma RequestWorkShrinks(c: Config, s: State, a: Action)
    requires StoreLocked(s) && Enabled(s, a) && (a.LockStore? || a.Get? || a.LockBucket? || a.Allow?)
    ensures Work(Apply(c, s, a)) < Work(s)
  {
    var after := Apply(c, s, a);
    assert after.requests == s.requests[a.i := after.requests[a.i]];
    assert ReaperWork(after) == ReaperWork(s);
    RequestMoves(s.requests, a.i, after.requests[a.i], |s.requests|);
  }

  lemma ReaperWorkShrinks(c: Config, s: State, a: Action)
    requires Sound(s) && Enabled(s, a) && (a.Begin? || a.Visit? || a.Check? || a.Sleep?)
    ensures Work(Apply(c, s, a)) < Work(s)
  {
    assert Apply(c, s, a).requests == s.requests;
  }

  /** Every step of work leaves less work. */
  lemma WorkShrinks(c: Config, s: State, a: Action)
    requires Inv(s) && Enabled(s, a) && Working(a)
    ensures Work(Apply(c, s, a)) < Work(s)
  {
    if a.LockStore? || a.Get? || a.LockBucket? || a.Allow? {
      RequestWorkShrinks(c, s, a);
    } else {
      ReaperWorkShrinks(c, s, a);
    }
  }

  ghost predicate WorkStep(c: Config, s: State, t: State) {
    exists a: Action :: Working(a) && Enabled(s, a) && t == Apply(c, s, a)
  }

  ghost predicate WorkStepAt(c: Config, run: seq<State>, i: nat)
    requires i + 1 < |run|
  {
    WorkStep(c, run[i], run[i + 1])
  }

  /** A run of nothing but steps of work. */
  ghost predicate WorkRun(c: Config, run: seq<State>) {
    run != [] && forall i :: 0 <= i < |run| - 1 ==> WorkStepAt(c, run, i)
  }

  lemma WorkStepShrinks(c: Config, s: State, t: State)
    requires Inv(s) && WorkStep(c, s, t)
    ensures Inv(t) && Work(t) < Work(s)
  {
    var a: Action :| Working(a) && Enabled(s, a) && t == Apply(c, s, a);
    InvStep(c, s, t);
    WorkShrinks(c, s, a);
  }

  ghost predicate Left(s: State, work: int) {
    Inv(s) && Work(s) <= work
  }

  lemma LeftStep(c: Config, run: seq<State>, i: nat, work: int)
    requires i + 1 < |run| && Left(run[i], work) && WorkStepAt(c, run, i)
    ensures Left(run[i + 1], work - 1)
  {
    WorkStepShrinks(c, run[i], run[i + 1]);
  }

  lemma {:induction false} WorkLeft(c: Config, run: seq<State>, i: nat, work: int)
    requires WorkRun(c, run) && Left(run[0], work) && i < |run|
    ensures Left(run[i], work - i)
  {
    if i > 0 {
      WorkLeft(c, run, i - 1, work);
      LeftStep(c, run, i - 1, work - (i - 1));
    }
  }

  /** However the work under way goes on from a state of a run, it ends within as many steps as there is work. */
  lemma WorkEnds(c: Config, start: int, run: seq<State>, n: nat, more: seq<State>)
    requires IsRun(c, start, run) && n < |run| && WorkRun(c, more) && more[0] == run[n]
    ensures |more| - 1 <= Work(run[n])
  {
    Invariant(c, start, run, n);
    WorkLeft(c, more, |more| - 1, Work(run[n]));
  }

  lemma WorkRunCons(c: Config, s: State, rest: seq<State>)
    requires WorkRun(c, rest) && WorkStep(c, s, rest[0])
    ensures WorkRun(c, [s] + rest)
  {
    var run := [s] + rest;
    forall i | 0 <= i < |run| - 1 ensures WorkStepAt(c, run, i) {
      if i > 0 {
        assert WorkStepAt(c, rest, i - 1);
      }
    }
  }

  lemma {:induction false} WorkCanEnd(c: Config, s: State) returns (run: seq<State>)
    requires Inv(s)
    ensures WorkRun(c, run) && run[0] == s && Idle(run[|run| - 1])
    decreases Work(s)
  {
    run := [s];
    if !Idle(s) {
      var a := CanMove(s);
      var t := Apply(c, s, a);
      assert WorkStep(c, s, t);
      WorkStepShrinks(c, s, t);
      var rest := WorkCanEnd(c, t);
      WorkRunCons(c, s, rest);
      run := run + rest;
    }
  }

  /** From every state of every run, all requests can be answered and the sweep can end. */
  lemma EveryoneFinishes(c: Config, start: int, run: seq<State>, n: nat) returns (more: seq<State>)
    requires IsRun(c, start, run) && n < |run|
    ensures WorkRun(c, more) && more[0] == run[n] && Idle(more[|more| - 1])
  {
    Invariant(c, start, run, n);
    more := WorkCanEnd(c, run[n]);
  }

  // ----- Admissions -----

  predicate InWindow(e: Entry, since: int, until: int) {
    since <= e.at <= until
  }

  /** The admissions of a principal in a window of time. */
  function Admissions(log: Log, key: string, since: int, until: int): nat {
    match log
    case Empty => 0
    case Logged(e, earlier) =>
      Admissions(earlier, key, since, until) + (if e.ok && e.key == key && InWindow(e, since, until) then 1 else 0)
  }

  /** The bucket objects that answered a principal in a window of time. */
  function Used(log: Log, key: string, since: int, until: int): set<nat> {
    match log
    case Empty => {}
    case Logged(e, earlier) =>
      Used(earlier, key, since, until) + (if e.key == key && InWindow(e, since, until) then {e.b} else {})
  }

  /** The admissions by one bucket object in a window of time. */
  function AdmissionsBy(log: Log, b: nat, since: int, until: int): nat {
    match log
    case Empty => 0
    case Logged(e, earlier) =>
      AdmissionsBy(earlier, b, since, until) + (if e.ok && e.b == b && InWindow(e, since, until) then 1 else 0)
  }

  /** A window's admissions by a bucket and, while the window lasts, the tokens left
      are covered by the capacity and the refill. */
  ghost predicate Covered(c: Config, bucket: Bucket, count: nat, since: int, until: int) {
    && Valid(c.rpm, bucket)
    && (count == 0 ||
        (since <= bucket.last &&
         count + (if bucket.last <= until then bucket.tokens else 0)
         <= c.rpm + Refill(c.rpm, Min(bucket.last, until) - since)))
  }

  ghost predicate Timely(s: State) {
    forall b :: 0 <= b < |s.objects| ==> s.objects[b].bucket.last <= s.now
  }

  ghost predicate LogSound(log: Log, objects: nat) {
    log.Logged? ==> log.entry.b < objects && LogSound(log.earlier, objects)
  }

  ghost predicate AllCovered(c: Config, s: State, since: int, until: int) {
    && Timely(s)
    && LogSound(s.log, |s.objects|)
    && (forall b :: 0 <= b < |s.objects| ==>
          Covered(c, s.objects[b].bucket, AdmissionsBy(s.log, b, since, until), since, until))
  }

  lemma CoveredCount(c: Config, bucket: Bucket, count: nat, since: int, until: int)
    requires Covered(c, bucket, count, since, until) && since <= until
    ensures count <= c.rpm + Refill(c.rpm, until - since)
  {
    RefillPositive(c.rpm, until - since);
    if count > 0 {
      RefillSplits(c.rpm, Min(bucket.last, until) - since, until - Min(bucket.last, until));
    }
  }

  lemma CoveredStep(c: Config, bucket: Bucket, count: nat, now: int, since: int, until: int)
    requires Covered(c, bucket, count, since, until) && bucket.last <= now && since <= until
    ensures Covered(c, After(c.rpm, bucket, now),
                    count + (if Admits(c.rpm, bucket, now) && since <= now <= until then 1 else 0), since, until)
  {
    RefillPositive(c.rpm, now - bucket.last);
    if since <= now <= until {
      WindowStep(c.rpm, bucket, now, since, count);
    } else if since <= bucket.last <= until < now {
      RefillSplits(c.rpm, bucket.last - since, until - bucket.last);
    }
  }

  lemma {:induction false} UnusedBucket(log: Log, objects: nat, b: nat, since: int, until: int)
    requires LogSound(log, objects) && b >= objects
    ensures AdmissionsBy(log, b, since, until) == 0
    ensures LogSound(log, objects + 1)
  {
    if log.Logged? {
      UnusedBucket(log.earlier, objects, b, since, until);
    }
  }

  lemma AllCoveredAction(c: Config, s: State, a: Action, since: int, until: int)
    requires Sound(s) && AllCovered(c, s, since, until) && Enabled(s, a) && since <= until
    ensures AllCovered(c, Apply(c, s, a), since, until)
  {
    if a.Get? {
      UnusedBucket(s.log, |s.objects|, |s.objects|, since, until);
    } else if a.Allow? {
      var b := s.requests[a.i].b;
      CoveredStep(c, s.objects[b].bucket, AdmissionsBy(s.log, b, since, until), s.now, since, until);
    }
  }

  lemma AllCoveredStep(c: Config, s: State, t: State, since: int, until: int)
    requires Sound(s) && AllCovered(c, s, since, until) && Step(c, s, t) && since <= until
    ensures AllCovered(c, t, since, until)
  {
    var a: Action :| Enabled(s, a) && t == Apply(c, s, a);
    AllCoveredAction(c, s, a, since, until);
  }

  lemma {:induction false} AlwaysCovered(c: Config, start: int, run: seq<State>, n: nat, since: int, until: int)
    requires IsRun(c, start, run) && n < |run| && since <= until
    ensures AllCovered(c, run[n], since, until)
  {
    if n > 0 {
      Invariant(c, start, run, n - 1);
      AlwaysCovered(c, start, run, n - 1, since, until);
      assert StepAt(c, run, n - 1);
      AllCoveredStep(c, run[n - 1], run[n], since, until);
    }
  }

  /** The admissions of a principal by the bucket objects in a set. */
  function AdmissionsAmong(log: Log, key: string, bs: set<nat>, since: int, until: int): nat {
    match log
    case Empty => 0
    case Logged(e, earlier) =>
      AdmissionsAmong(earlier, key, bs, since, until)
      + (if e.ok && e.key == key && e.b in bs && InWindow(e, since, until) then 1 else 0)
  }

  lemma {:induction false} AmongLess(log: Log, key: string, bs: set<nat>, b: nat, since: int, until: int)
    ensures AdmissionsAmong(log, key, bs, since, until)
         <= AdmissionsAmong(log, key, bs - {b}, since, until) + AdmissionsBy(log, b, since, until)
  {
    if log.Logged? {
      AmongLess(log.earlier, key, bs, b, since, until);
    }
  }

  lemma {:induction false} AmongUsed(log: Log, key: string, bs: set<nat>, since: int, until: int)
    requires Used(log, key, since, until) <= bs
    ensures AdmissionsAmong(log, key, bs, since, until) == Admissions(log, key, since, until)
  {
    if log.Logged? {
      AmongUsed(log.earlier, key, bs, since, until);
    }
  }

  lemma {:induction false} AmongNone(log: Log, key: string, since: int, until: int)
    ensures AdmissionsAmong(log, key, {}, since, until) == 0
  {
    if log.Logged? {
      AmongNone(log.earlier, key, since, until);
    }
  }

  lemma {:induction false} AmongBound(log: Log, key: string, bs: set<nat>, each: nat, since: int, until: int)
    requires forall b :: b in bs ==> AdmissionsBy(log, b, since, until) <= each
    ensures AdmissionsAmong(log, key, bs, since, until) <= Product(each, |bs|)
    decreases |bs|
  {
    if bs == {} {
      AmongNone(log, key, since, until);
    } else {
      var b :| b in bs;
      AmongLess(log, key, bs, b, since, until);
      AmongBound(log, key, bs - {b}, each, since, until);
    }
  }

  lemma {:induction false} UsedExist(log: Log, objects: nat, key: string, since: int, until: int)
    requires LogSound(log, objects)
    ensures forall b :: b in Used(log, key, since, until) ==> b < objects
  {
    if log.Logged? {
      UsedExist(log.earlier, objects, key, since, until);
    }
  }

  /** Orphaned buckets included, a principal's admissions in a window are at most
      the number of bucket objects that answered it, times what one bucket may admit. */
  lemma AdmissionsBound(c: Config, start: int, run: seq<State>, n: nat, key: string, since: int, until: int)
    requires IsRun(c, start, run) && n < |run| && since <= until
    ensures Refill(c.rpm, until - since) >= 0
    ensures Admissions(run[n].log, key, since, until)
         <= (c.rpm + Refill(c.rpm, until - since)) * |Used(run[n].log, key, since, until)|
  {
    AlwaysCovered(c, start, run, n, since, until);
    RefillPositive(c.rpm, until - since);
    var s := run[n];
    var bs, each := Used(s.log, key, since, until), c.rpm + Refill(c.rpm, until - since);
    UsedExist(s.log, |s.objects|, key, since, until);
    forall b | b in bs ensures AdmissionsBy(s.log, b, since, until) <= each {
      CoveredCount(c, s.objects[b].bucket, AdmissionsBy(s.log, b, since, until), since, until);
    }
    AmongUsed(s.log, key, bs, since, until);
    AmongBound(s.log, key, bs, each, since, until);
    ProductIs(each, |bs|);
  }

  // ----- Sweeps -----

  ghost predicate Awake(s: State) {
    s.reaper.Sweeping? || s.reaper.Checking?
  }

  /** What a sweep has behind it was used at its cutoff or later. */
  ghost predicate Swept(s: State) {
    Awake(s) ==> forall k :: k in s.buckets ==>
      k in s.reaper.todo
      || (s.buckets[k] < |s.objects| && s.objects[s.buckets[k]].bucket.last >= s.reaper.cutoff)
  }

  lemma SweptAction(c: Config, s: State, a: Action)
    requires Inv(s) && Timely(s) && Swept(s) && Enabled(s, a)
    ensures Sound(Apply(c, s, a)) && Swept(Apply(c, s, a))
  {
    SoundStep(c, s, a);
    var t := Apply(c, s, a);
    if Awake(t) && !a.Begin? {
      forall k | k in t.buckets
        ensures k in t.reaper.todo || t.objects[t.buckets[k]].bucket.last >= t.reaper.cutoff
      {
        assert k in s.buckets && t.buckets[k] == s.buckets[k];
      }
    }
  }

  lemma SweptStep(c: Config, s: State, t: State)
    requires Inv(s) && Timely(s) && Swept(s) && Step(c, s, t)
    ensures Swept(t)
  {
    var a: Action :| Enabled(s, a) && t == Apply(c, s, a);
    SweptAction(c, s, a);
  }

  lemma {:induction false} AlwaysSwept(c: Config, start: int, run: seq<State>, n: nat)
    requires IsRun(c, start, run) && n < |run|
    ensures Sound(run[n]) && Swept(run[n])
  {
    Invariant(c, start, run, n);
    if n > 0 {
      AlwaysSwept(c, start, run, n - 1);
      Invariant(c, start, run, n - 1);
      AlwaysCovered(c, start, run, n - 1, 0, 0);
      assert StepAt(c, run, n - 1);
      SweptStep(c, run[n - 1], run[n]);
    }
  }

  /** A sweep that reads the clock in state m and is still under way in state n. */
  ghost predicate SweepSince(run: seq<State>, m: nat, n: nat)
    requires n < |run|
  {
    m < n && run[m].reaper.Starting? && forall i :: m < i <= n ==> Awake(run[i])
  }

  lemma {:induction false} SweepBegan(c: Config, start: int, run: seq<State>, n: nat) returns (m: nat)
    requires IsRun(c, start, run) && n < |run| && Awake(run[n])
    ensures SweepSince(run, m, n) && run[n].reaper.cutoff == run[m].now - c.interval
  {
    assert n > 0;
    assert StepAt(c, run, n - 1);
    if Awake(run[n - 1]) {
      m := SweepBegan(c, start, run, n - 1);
    } else {
      m := n - 1;
    }
  }

  /** A sweep ends only when no bucket in the map was last used before the time it read at its beginning
      less the interval: it visits and evicts them all. */
  lemma SweepsAreComplete(c: Config, start: int, run: seq<State>, n: nat) returns (m: nat)
    requires IsRun(c, start, run) && n < |run| && Enabled(run[n], Sleep)
    ensures SweepSince(run, m, n)
    ensures var s := run[n];
            forall k :: k in s.buckets ==>
              s.buckets[k] < |s.objects| && s.objects[s.buckets[k]].bucket.last >= run[m].now - c.interval
  {
    AlwaysSwept(c, start, run, n);
    m := SweepBegan(c, start, run, n);
  }

  /** A bucket leaves the map only at the check of a sweep that finds it last used before that time. */
  lemma OnlyStaleAreEvicted(c: Config, start: int, run: seq<State>, n: nat, key: string) returns (m: nat)
    requires IsRun(c, start, run) && n + 1 < |run| && key in run[n].buckets
    ensures key in run[n + 1].buckets ==> run[n + 1].buckets[key] == run[n].buckets[key]
    ensures key !in run[n + 1].buckets ==>
              var s := run[n];
              && SweepSince(run, m, n) && s.reaper.Checking? && s.reaper.k == key
              && s.buckets[key] < |s.objects| && s.objects[s.buckets[key]].bucket.last < run[m].now - c.interval
  {
    Invariant(c, start, run, n);
    assert StepAt(c, run, n);
    m := 0;
    if Awake(run[n]) {
      m := SweepBegan(c, start, run, n);
    }
  }

  // ----- Requests and their answers -----

  function FinishedAs(requests: seq<Pc>, key: string, ok: bool, n: nat): nat
    requires n <= |requests|
  {
    if n == 0 then 0
    else FinishedAs(requests, key, ok, n - 1) + (if requests[n - 1] == Finished(key, ok) then 1 else 0)
  }

  function LoggedAs(log: Log, key: string, ok: bool): nat {
    match log
    case Empty => 0
    case Logged(e, earlier) => LoggedAs(earlier, key, ok) + (if e.key == key && e.ok == ok then 1 else 0)
  }

  lemma {:induction false} FinishesOne(requests: seq<Pc>, i: nat, pc: Pc, key: string, ok: bool, n: nat)
    requires i < |requests| && n <= |requests| && !requests[i].Finished?
    ensures FinishedAs(requests[i := pc], key, ok, n)
         == FinishedAs(requests, key, ok, n) + if i < n && pc == Finished(key, ok) then 1 else 0
  {
    if n > 0 {
      FinishesOne(requests, i, pc, key, ok, n - 1);
    }
  }

  lemma {:induction false} FinishedSnoc(requests: seq<Pc>, pc: Pc, key: string, ok: bool, n: nat)
    requires n <= |requests|
    ensures FinishedAs(requests + [pc], key, ok, n) == FinishedAs(requests, key, ok, n)
  {
    if n > 0 {
      FinishedSnoc(requests, pc, key, ok, n - 1);
    }
  }

  ghost predicate AnswersLogged(s: State, key: string, ok: bool) {
    FinishedAs(s.requests, key, ok, |s.requests|) == LoggedAs(s.log, key, ok)
  }

  lemma AnswersLoggedAction(c: Config, s: State, a: Action, key: string, ok: bool)
    requires AnswersLogged(s, key, ok) && Enabled(s, a)
    ensures AnswersLogged(Apply(c, s, a), key, ok)
  {
    var t := Apply(c, s, a);
    if a.Arrive? {
      FinishedSnoc(s.requests, AtStore(a.key), key, ok, |s.requests|);
    } else if a.LockStore? || a.Get? || a.LockBucket? || a.Allow? {
      assert t.requests == s.requests[a.i := t.requests[a.i]];
      FinishesOne(s.requests, a.i, t.requests[a.i], key, ok, |s.requests|);
    }
  }

  /** As many requests of a principal are answered yes, and as many no, as there are such decisions by buckets. */
  lemma {:induction false} AnswersAreDecisions(c: Config, start: int, run: seq<State>, n: nat, key: string, ok: bool)
    requires IsRun(c, start, run) && n < |run|
    ensures FinishedAs(run[n].requests, key, ok, |run[n].requests|) == LoggedAs(run[n].log, key, ok)
  {
    if n > 0 {
      AnswersAreDecisions(c, start, run, n - 1, key, ok);
      assert StepAt(c, run, n - 1);
      var a: Action :| Enabled(run[n - 1], a) && run[n] == Apply(c, run[n - 1], a);
      AnswersLoggedAction(c, run[n - 1], a, key, ok);
    }
  }

  /** A request keeps its principal to its end, and its answer from then on. */
  lemma {:induction false} RequestsKeepTheirKeys(c: Config, start: int, run: seq<State>, m: nat, n: nat, i: nat)
    requires IsRun(c, start, run) && m <= n < |run| && i < |run[m].requests|
    ensures i < |run[n].requests| && run[n].requests[i].key == run[m].requests[i].key
    ensures run[m].requests[i].Finished? ==> run[n].requests[i] == run[m].requests[i]
    decreases n
  {
    if m < n {
      RequestsKeepTheirKeys(c, start, run, m, n - 1, i);
      assert StepAt(c, run, n - 1);
    }
  }

  // ----- Without orphans: one bucket a principal -----

  /** Every request of the principal on its way to a bucket is on its way to the one in the map. */
  ghost predicate NoOrphans(s: State, key: string) {
    forall i :: 0 <= i < |s.requests| && (s.requests[i].AtBucket? || s.requests[i].InBucket?)
                && s.requests[i].key == key ==>
      key in s.buckets && s.buckets[key] == s.requests[i].b
  }

  /** The reaper is about to evict the principal's bucket while a request of the principal still holds it. */
  ghost predicate EvictsHeld(s: State, a: Action, key: string) {
    && a.Check? && s.reaper.Checking? && s.reaper.k == key && s.reaper.b < |s.objects|
    && s.objects[s.reaper.b].bucket.last < s.reaper.cutoff
    && exists i :: 0 <= i < |s.requests| && s.requests[i].AtBucket? && s.requests[i].b == s.reaper.b
  }

  /** A principal's orphans come from evicting the bucket one of its requests holds, and from nothing else. */
  lemma OrphanedExactlyByEviction(c: Config, start: int, run: seq<State>, n: nat, a: Action, key: string)
    requires IsRun(c, start, run) && n < |run| && NoOrphans(run[n], key) && Enabled(run[n], a)
    ensures NoOrphans(Apply(c, run[n], a), key) <==> !EvictsHeld(run[n], a, key)
  {
    Invariant(c, start, run, n);
    var s, t := run[n], Apply(c, run[n], a);
    if EvictsHeld(s, a, key) {
      var i :| 0 <= i < |s.requests| && s.requests[i].AtBucket? && s.requests[i].b == s.reaper.b;
      assert t.requests[i] == s.requests[i];
    }
  }

  /** A bucket a principal would have for itself: made for its first completed call, used by its calls in order. */
  datatype Own = Uncalled | Called(bucket: Bucket)

  function Before(rpm: nat, own: Own, now: int): Bucket {
    if own.Uncalled? then Fresh(rpm, now) else own.bucket
  }

  function OwnBucket(rpm: nat, log: Log, key: string): Own {
    match log
    case Empty => Uncalled
    case Logged(e, earlier) =>
      var own := OwnBucket(rpm, earlier, key);
      if e.key == key then Called(After(rpm, Before(rpm, own, e.at), e.at)) else own
  }

  /** Every call of the principal was decided as its own bucket decides. */
  ghost predicate OwnDecisions(rpm: nat, log: Log, key: string) {
    log.Logged? ==>
      && OwnDecisions(rpm, log.earlier, key)
      && (log.entry.key == key ==>
            log.entry.ok == Admits(rpm, Before(rpm, OwnBucket(rpm, log.earlier, key), log.entry.at), log.entry.at))
  }

  ghost predicate LogOrdered(log: Log, now: int) {
    log.Logged? ==> log.entry.at <= now && LogOrdered(log.earlier, log.entry.at)
  }

  /** Own decisions obey the rate of one bucket. */
  lemma {:induction false} OwnCovered(c: Config, log: Log, key: string, now: int, since: int, until: int)
    requires LogOrdered(log, now) && OwnDecisions(c.rpm, log, key) && since <= until
    ensures match OwnBucket(c.rpm, log, key)
            case Uncalled => Admissions(log, key, since, until) == 0
            case Called(b) => b.last <= now && Covered(c, b, Admissions(log, key, since, until), since, until)
  {
    if log.Logged? {
      var e := log.entry;
      OwnCovered(c, log.earlier, key, e.at, since, until);
      if e.key == key {
        CoveredStep(c, Before(c.rpm, OwnBucket(c.rpm, log.earlier, key), e.at),
                    Admissions(log.earlier, key, since, until), e.at, since, until);
      }
    }
  }

  /** Idle for a minute by now, if ever used. */
  ghost predicate IdleBy(own: Own, now: int) {
    own.Called? ==> own.bucket.last + MINUTE <= now
  }

  /** A bucket in the map is the principal's own, or a full one made after the own one had been idle for a minute. */
  ghost predicate StandsFor(rpm: nat, own: Own, b: Bucket) {
    own == Called(b) || (b.tokens == rpm && IdleBy(own, b.last))
  }

  lemma SameDecision(rpm: nat, own: Own, b: Bucket, now: int)
    requires StandsFor(rpm, own, b) && b.last <= now && (own.Called? ==> Valid(rpm, own.bucket))
    ensures Admits(rpm, b, now) == Admits(rpm, Before(rpm, own, now), now)
    ensures After(rpm, b, now) == After(rpm, Before(rpm, own, now), now)
  {
    if own != Called(b) {
      RefillPositive(rpm, now - b.last);
      RefillZero(rpm);
      if own.Called? {
        FullAfterMinute(rpm, own.bucket, now);
      }
    }
  }

  ghost predicate CutoffPast(c: Config, s: State) {
    s.reaper.Sweeping? || s.reaper.Checking? ==> s.reaper.cutoff + c.interval <= s.now
  }

  ghost predicate Follows(c: Config, s: State, key: string) {
    var own := OwnBucket(c.rpm, s.log, key);
    && OwnDecisions(c.rpm, s.log, key)
    && (own.Called? ==> Valid(c.rpm, own.bucket))
    && if key in s.buckets then
         s.buckets[key] < |s.objects| && StandsFor(c.rpm, own, s.objects[s.buckets[key]].bucket)
       else IdleBy(own, s.now)
  }

  lemma AllowFollows(c: Config, s: State, i: nat, key: string)
    requires Sound(s) && Timely(s) && NoOrphans(s, key) && Follows(c, s, key) && Enabled(s, Allow(i))
    ensures Follows(c, Apply(c, s, Allow(i)), key)
  {
    if s.requests[i].key == key {
      var own, b := OwnBucket(c.rpm, s.log, key), s.objects[s.requests[i].b].bucket;
      SameDecision(c.rpm, own, b, s.now);
      RefillPositive(c.rpm, s.now - b.last);
      RefillPositive(c.rpm, s.now - Before(c.rpm, own, s.now).last);
    }
  }

  lemma FollowsAction(c: Config, s: State, a: Action, key: string)
    requires Sound(s) && Timely(s) && CutoffPast(c, s) && NoOrphans(s, key) && Follows(c, s, key) && Enabled(s, a)
    requires c.interval >= MINUTE - 1
    ensures Follows(c, Apply(c, s, a), key)
  {
    if a.Allow? {
      AllowFollows(c, s, a.i, key);
    }
  }

  ghost predicate Regular(c: Config, s: State, key: string) {
    Timely(s) && CutoffPast(c, s) && LogOrdered(s.log, s.now) && Follows(c, s, key)
  }

  lemma {:induction false} LogOrderedLater(log: Log, now: int, later: int)
    requires LogOrdered(log, now) && now <= later
    ensures LogOrdered(log, later)
  {
  }

  lemma TimelyAction(c: Config, s: State, a: Action)
    requires Sound(s) && Timely(s) && CutoffPast(c, s) && LogOrdered(s.log, s.now) && Enabled(s, a)
    ensures var t := Apply(c, s, a); Timely(t) && CutoffPast(c, t) && LogOrdered(t.log, t.now)
  {
    LogOrderedLater(s.log, s.now, Apply(c, s, a).now);
  }

  lemma RegularStep(c: Config, s: State, t: State, key: string)
    requires Inv(s) && NoOrphans(s, key) && Regular(c, s, key) && Step(c, s, t) && c.interval >= MINUTE - 1
    ensures Regular(c, t, key)
  {
    var a: Action :| Enabled(s, a) && t == Apply(c, s, a);
    FollowsAction(c, s, a, key);
    TimelyAction(c, s, a);
  }

  lemma {:induction false} AlwaysRegular(c: Config, start: int, run: seq<State>, n: nat, key: string)
    requires c.interval >= MINUTE - 1 && IsRun(c, start, run) && n < |run|
    requires forall i :: 0 <= i < n ==> NoOrphans(run[i], key)
    ensures Regular(c, run[n], key)
  {
    if n > 0 {
      Invariant(c, start, run, n - 1);
      AlwaysRegular(c, start, run, n - 1, key);
      assert StepAt(c, run, n - 1);
      RegularStep(c, run[n - 1], run[n], key);
    }
  }

  /** As long as no sweep evicts a bucket that one of the principal's own requests holds, every decision on it, however
      requests overlap and whatever becomes of others', is that of a bucket the principal has for itself. */
  lemma DecisionsAreOwn(c: Config, start: int, run: seq<State>, n: nat, key: string)
    requires c.interval >= MINUTE - 1 && IsRun(c, start, run) && n < |run|
    requires forall i :: 0 <= i < n ==> NoOrphans(run[i], key)
    ensures OwnDecisions(c.rpm, run[n].log, key)
  {
    AlwaysRegular(c, start, run, n, key);
  }

  /** Under the same condition a principal is bounded by one bucket,
      however many evictions and new buckets there were. */
  lemma OneBucketBound(c: Config, start: int, run: seq<State>, n: nat, key: string, since: int, until: int)
    requires c.interval >= MINUTE - 1 && IsRun(c, start, run) && n < |run| && since <= until
    requires forall i :: 0 <= i < n ==> NoOrphans(run[i], key)
    ensures Admissions(run[n].log, key, since, until) <= c.rpm + Refill(c.rpm, until - since)
  {
    AlwaysRegular(c, start, run, n, key);
    OwnCovered(c, run[n].log, key, run[n].now, since, until);
    match OwnBucket(c.rpm, run[n].log, key)
    case Uncalled => RefillPositive(c.rpm, until - since);
    case Called(b) => CoveredCount(c, b, Admissions(run[n].log, key, since, until), since, until);
  }

  // ----- Orphaned buckets -----

  lemma Do(c: Config, start: int, run: seq<State>, a: Action) returns (more: seq<State>)
    requires IsRun(c, start, run) && Enabled(run[|run| - 1], a)
    ensures IsRun(c, start, more) && run <= more && more[|more| - 1] == Apply(c, run[|run| - 1], a)
  {
    more := run + [Apply(c, run[|run| - 1], a)];
    forall i | 0 <= i < |more| - 1 ensures StepAt(c, more, i) {
      if i < |run| - 1 {
        assert StepAt(c, run, i);
      } else {
        assert Step(c, run[|run| - 1], more[|run|]);
      }
    }
  }

  /** Request i is on its way to a bucket of its principal that is not in the map. */
  ghost predicate Orphan(s: State, i: nat, key: string) {
    && i < |s.requests| && (s.requests[i].AtBucket? || s.requests[i].InBucket?) && s.requests[i].key == key
    && s.requests[i].b < |s.objects|
    && !(key in s.buckets && s.buckets[key] == s.requests[i].b)
  }

  /** The store and the principal's bucket are free, and the reaper sleeps. */
  ghost predicate Open(s: State, key: string) {
    && s.mu == Free && s.reaper.Asleep?
    && (key in s.buckets ==> s.buckets[key] < |s.objects| && s.objects[s.buckets[key]].mu == Free)
  }

  /** Whoever is in the way of an open store can go on, without the orphan. */
  lemma CanClear(s: State, i: nat, key: string) returns (a: Action)
    requires Inv(s) && Orphan(s, i, key) && !Open(s, key)
    ensures Working(a) && Enabled(s, a)
    ensures a.Begin? || a.Check? || a.Sleep? || a.Visit? || (a.Get? && a.i != i) || (a.Allow? && a.i != i)
  {
    if s.reaper.Checking? {
      a := Check;
    } else if s.reaper.Starting? {
      a := Begin;
    } else if s.reaper.Sweeping? {
      if s.reaper.todo == {} {
        a := Sleep;
      } else {
        var k :| k in s.reaper.todo;
        BucketFreeOrMoving(s, s.buckets[k]);
        var mu := s.objects[s.buckets[k]].mu;
        a := if mu == Free then Visit(k) else Allow(mu.who.i);
      }
    } else if s.mu.Held? {
      a := Get(s.mu.who.i);
    } else {
      BucketFreeOrMoving(s, s.buckets[key]);
      a := Allow(s.objects[s.buckets[key]].mu.who.i);
    }
  }

  lemma StaysOrphan(c: Config, s: State, a: Action, i: nat, key: string)
    requires Inv(s) && Orphan(s, i, key) && Enabled(s, a)
    requires a.Begin? || a.Check? || a.Sleep? || a.Visit? || (a.Get? && a.i != i) || (a.Allow? && a.i != i)
    ensures Orphan(Apply(c, s, a), i, key)
  {
  }

  /** While the orphan stalls, the others clear the store. */
  lemma {:induction false} Clears(c: Config, start: int, run: seq<State>, i: nat, key: string)
    returns (more: seq<State>)
    requires IsRun(c, start, run) && Orphan(run[|run| - 1], i, key)
    ensures IsRun(c, start, more) && run <= more
    ensures Orphan(more[|more| - 1], i, key) && Open(more[|more| - 1], key)
    decreases Work(run[|run| - 1])
  {
    more := run;
    var s := run[|run| - 1];
    if !Open(s, key) {
      Invariant(c, start, run, |run| - 1);
      var a := CanClear(s, i, key);
      WorkShrinks(c, s, a);
      StaysOrphan(c, s, a, i, key);
      more := Do(c, start, run, a);
      more := Clears(c, start, more, i, key);
    }
  }

  /** The orphan's bucket has a token, the bucket in the map has `level` of them,
      and `count` calls of the principal have been admitted at this instant. */
  ghost predicate Serving(c: Config, s: State, i: nat, key: string, level: nat, count: nat) {
    && Orphan(s, i, key) && Admits(c.rpm, s.objects[s.requests[i].b].bucket, s.now)
    && Open(s, key) && key in s.buckets
    && Level(c.rpm, s.objects[s.buckets[key]].bucket, s.now) == level
    && Admissions(s.log, key, s.now, s.now) == count
  }

  lemma {:induction false} NoneYet(log: Log, key: string, now: int, later: int)
    requires LogOrdered(log, now) && now < later
    ensures Admissions(log, key, later, later) == 0
  {
    if log.Logged? {
      NoneYet(log.earlier, key, log.entry.at, later);
    }
  }

  ghost predicate Rested(c: Config, s: State) {
    forall b :: 0 <= b < |s.objects| ==> Level(c.rpm, s.objects[b].bucket, s.now) == c.rpm
  }

  lemma {:induction false} AlwaysOrdered(c: Config, start: int, run: seq<State>, n: nat)
    requires IsRun(c, start, run) && n < |run|
    ensures LogOrdered(run[n].log, run[n].now)
  {
    if n > 0 {
      AlwaysOrdered(c, start, run, n - 1);
      assert StepAt(c, run, n - 1);
      LogOrderedLater(run[n - 1].log, run[n - 1].now, run[n].now);
    }
  }

  /** After a minute without calls every bucket is full. */
  lemma Rests(c: Config, start: int, run: seq<State>, key: string) returns (more: seq<State>)
    requires IsRun(c, start, run)
    ensures IsRun(c, start, more) && run <= more
    ensures var s, t := run[|run| - 1], more[|more| - 1];
            t == s.(now := t.now) && Rested(c, t) && Admissions(t.log, key, t.now, t.now) == 0
  {
    var s := run[|run| - 1];
    var later := s.now + MINUTE;
    more := Do(c, start, run, Clock(later));
    AlwaysOrdered(c, start, run, |run| - 1);
    NoneYet(s.log, key, s.now, later);
    AlwaysCovered(c, start, run, |run| - 1, 0, 0);
    forall b | 0 <= b < |s.objects| ensures Level(c.rpm, s.objects[b].bucket, later) == c.rpm {
      assert Covered(c, s.objects[b].bucket, AdmissionsBy(s.log, b, 0, 0), 0, 0);
      FullAfterMinute(c.rpm, s.objects[b].bucket, later);
    }
  }

  /** A new request looks its bucket up, and stalls there. */
  lemma Stalls(c: Config, start: int, run: seq<State>, key: string) returns (more: seq<State>)
    requires IsRun(c, start, run) && run[|run| - 1].mu == Free
    ensures IsRun(c, start, more) && run <= more
    ensures var s := run[|run| - 1];
            more[|more| - 1] ==
              if key in s.buckets then s.(requests := s.requests + [AtBucket(key, s.buckets[key])])
              else s.(buckets := s.buckets[key := |s.objects|],
                      objects := s.objects + [Object(key, Fresh(c.rpm, s.now), Free)],
                      requests := s.requests + [AtBucket(key, |s.objects|)])
  {
    var i := |run[|run| - 1].requests|;
    more := Do(c, start, run, Arrive(key));
    more := Do(c, start, more, LockStore(i));
    more := Do(c, start, more, Get(i));
  }

  /** A stalled request goes on with the bucket it has. */
  lemma Resumes(c: Config, start: int, run: seq<State>, i: nat) returns (more: seq<State>)
    requires IsRun(c, start, run)
    requires var s := run[|run| - 1];
             && i < |s.requests| && s.requests[i].AtBucket?
             && s.requests[i].b < |s.objects| && s.objects[s.requests[i].b].mu == Free
    ensures IsRun(c, start, more) && run <= more
    ensures var s := run[|run| - 1];
            var key, b := s.requests[i].key, s.requests[i].b;
            var ok := Admits(c.rpm, s.objects[b].bucket, s.now);
            more[|more| - 1]
            == s.(objects := s.objects[b := Object(s.objects[b].key, After(c.rpm, s.objects[b].bucket, s.now), Free)],
                  requests := s.requests[i := Finished(key, ok)],
                  log := Logged(Entry(key, b, s.now, ok), s.log))
  {
    more := Do(c, start, run, LockBucket(i));
    more := Do(c, start, more, Allow(i));
  }

  /** A new request goes through the bucket in the map. */
  lemma GoesThrough(c: Config, start: int, run: seq<State>, i: nat, key: string, level: nat, count: nat)
    returns (more: seq<State>)
    requires IsRun(c, start, run) && Serving(c, run[|run| - 1], i, key, level, count) && 0 < level <= c.rpm
    ensures IsRun(c, start, more) && run <= more
    ensures Serving(c, more[|more| - 1], i, key, level - 1, count + 1)
  {
    more := Stalls(c, start, run, key);
    more := Resumes(c, start, more, |run[|run| - 1].requests|);
    RefillZero(c.rpm);
  }

  lemma {:induction false} Crowd(c: Config, start: int, run: seq<State>, i: nat, key: string, level: nat, count: nat)
    returns (more: seq<State>)
    requires IsRun(c, start, run) && Serving(c, run[|run| - 1], i, key, level, count) && level <= c.rpm
    ensures IsRun(c, start, more) && run <= more
    ensures Serving(c, more[|more| - 1], i, key, 0, count + level)
    decreases level
  {
    more := run;
    if level > 0 {
      more := GoesThrough(c, start, run, i, key, level, count);
      more := Crowd(c, start, more, i, key, level - 1, count + 1);
    }
  }

  /** The orphan's bucket admits the orphan, or another orphan that is inside it already. */
  lemma OrphanPasses(c: Config, start: int, run: seq<State>, i: nat, key: string, count: nat) returns (more: seq<State>)
    requires IsRun(c, start, run) && Serving(c, run[|run| - 1], i, key, 0, count)
    ensures IsRun(c, start, more) && run <= more
    ensures var s := more[|more| - 1]; Admissions(s.log, key, s.now, s.now) == count + 1
  {
    var s := run[|run| - 1];
    Invariant(c, start, run, |run| - 1);
    if s.requests[i].InBucket? {
      more := Do(c, start, run, Allow(i));
    } else if s.objects[s.requests[i].b].mu == Free {
      more := Resumes(c, start, run, i);
    } else {
      more := Do(c, start, run, Allow(s.objects[s.requests[i].b].mu.who.i));
    }
  }

  lemma OrphanExists(s: State, key: string) returns (i: nat)
    requires Sound(s) && !NoOrphans(s, key)
    ensures Orphan(s, i, key)
  {
    i :| i < |s.requests| && (s.requests[i].AtBucket? || s.requests[i].InBucket?) && s.requests[i].key == key
         && !(key in s.buckets && s.buckets[key] == s.requests[i].b);
  }

  /** With the store open and all buckets full, one more request makes sure that there is a bucket in the map. */
  lemma Serves(c: Config, start: int, run: seq<State>, i: nat, key: string) returns (more: seq<State>)
    requires IsRun(c, start, run) && c.rpm > 0
    requires var s := run[|run| - 1];
             Orphan(s, i, key) && Open(s, key) && Rested(c, s) && Admissions(s.log, key, s.now, s.now) == 0
    ensures IsRun(c, start, more) && run <= more
    ensures Serving(c, more[|more| - 1], i, key, c.rpm, 0)
  {
    RefillZero(c.rpm);
    more := Stalls(c, start, run, key);
  }

  /** From every state of a run in which a request of a principal holds a bucket that is not in the map,
      the run can go on to admit the principal once more than the limit at one instant. */
  lemma OrphanExceeds(c: Config, start: int, run: seq<State>, key: string) returns (more: seq<State>)
    requires c.rpm > 0 && IsRun(c, start, run) && !NoOrphans(run[|run| - 1], key)
    ensures IsRun(c, start, more) && run <= more
    ensures var s := more[|more| - 1];
            Admissions(s.log, key, s.now, s.now) == c.rpm + 1 > c.rpm + Refill(c.rpm, s.now - s.now)
  {
    Invariant(c, start, run, |run| - 1);
    var i := OrphanExists(run[|run| - 1], key);
    more := Clears(c, start, run, i, key);
    more := Rests(c, start, more, key);
    more := Serves(c, start, more, i, key);
    more := Crowd(c, start, more, i, key, c.rpm, 0);
    more := OrphanPasses(c, start, more, i, key, c.rpm);
    RefillZero(c.rpm);
  }

  /** A sweep evicts the only bucket in the map. */
  lemma Evicts(c: Config, run: seq<State>) returns (more: seq<State>)
    requires IsRun(c, 0, run)
    requires var s := run[|run| - 1];
             && s.mu == Free && s.reaper == Asleep && s.buckets == map["p" := 0]
             && |s.objects| > 0 && s.objects[0].mu == Free && s.objects[0].bucket.last < s.now - c.interval
    ensures IsRun(c, 0, more) && more[|more| - 1] == run[|run| - 1].(buckets := map[])
  {
    more := Do(c, 0, run, Wake);
    more := Do(c, 0, more, Begin);
    more := Do(c, 0, more, Visit("p"));
    more := Do(c, 0, more, Check);
    more := Do(c, 0, more, Sleep);
  }

  /** A bucket out of the map with a request still on its way to it. */
  lemma Orphaned(rpm: nat, interval: nat) returns (run: seq<State>)
    ensures IsRun(Config(rpm, interval), 0, run)
    ensures run[|run| - 1]
         == State(interval + 1, Free, map[], [Object("p", Bucket(rpm, 0), Free)], [AtBucket("p", 0)], Asleep, Empty)
  {
    var c := Config(rpm, interval);
    run := [Init(0)];
    run := Stalls(c, 0, run, "p");
    run := Do(c, 0, run, Clock(interval + 1));
    run := Evicts(c, run);
  }

  /** At every limit and interval there is such a run: when a request stalls between `get` and `allow` while its bucket
      is evicted, the orphan admits it in the same instant as the new bucket admits the full limit. */
  lemma OrphanAdmitsBeyondOneBucket(rpm: nat, interval: nat) returns (run: seq<State>)
    requires rpm > 0
    ensures IsRun(Config(rpm, interval), 0, run)
    ensures var s := run[|run| - 1];
            Admissions(s.log, "p", s.now, s.now) == rpm + 1 > rpm + Refill(rpm, s.now - s.now)
  {
    run := Orphaned(rpm, interval);
    assert Orphan(run[|run| - 1], 0, "p");
    run := OrphanExceeds(Config(rpm, interval), 0, run, "p");
  }
}
