/** The token bucket of internal/middleware/ratelimit.go.
    Time is an integer number of nanoseconds and the rate is the exact rational rpm/60 tokens per second. */
module TokenBuckets {
  import opened Arithmetic

  const SECOND := 1_000_000_000
  const MINUTE := 60_000_000_000

  /** Conversion of a number to an integer: truncation toward zero. */
  function Truncate(x: real): (t: int)
    ensures if x >= 0.0 then t as real <= x < t as real + 1.0 else t as real - 1.0 < x <= t as real
  {
    if x >= 0.0 then x.Floor else -((-x).Floor)
  }

  /** Whole tokens gained in dt nanoseconds at rpm tokens a minute, truncated toward zero. */
  function Refill(rpm: nat, dt: int): int {
    if dt >= 0 then Product(dt, rpm) / MINUTE else -(Product(-dt, rpm) / MINUTE)
  }

  datatype Bucket = Bucket(tokens: int, last: int)

  function Fresh(rpm: nat, now: int): Bucket {
    Bucket(rpm, now)
  }

  /** The tokens on hand at time now, before the call takes one. */
  function Level(rpm: nat, b: Bucket, now: int): int {
    Min(rpm, b.tokens + Refill(rpm, now - b.last))
  }

  predicate Admits(rpm: nat, b: Bucket, now: int) {
    Level(rpm, b, now) > 0
  }

  function After(rpm: nat, b: Bucket, now: int): Bucket {
    Bucket(Level(rpm, b, now) - (if Admits(rpm, b, now) then 1 else 0), now)
  }

  ghost predicate Valid(rpm: nat, b: Bucket) {
    0 <= b.tokens <= rpm
  }

  // ----- Runs of calls -----

  /** The time of the call before call n, or the given start. */
  function TimeBefore(from: int, times: seq<int>, n: nat): int
    requires n <= |times|
  {
    if n == 0 then from else times[n - 1]
  }

  /** The gap before call k. */
  function Gap(from: int, times: seq<int>, k: nat): int
    requires k < |times|
  {
    times[k] - TimeBefore(from, times, k)
  }

  /** The clock never runs backwards along the calls. */
  ghost predicate Ordered(from: int, times: seq<int>) {
    forall k :: 0 <= k < |times| ==> Gap(from, times, k) >= 0
  }

  /** The bucket after the first n calls. */
  function Run(rpm: nat, b: Bucket, times: seq<int>, n: nat): Bucket
    requires n <= |times|
  {
    if n == 0 then b else After(rpm, Run(rpm, b, times, n - 1), times[n - 1])
  }

  /** The decision on call k. */
  predicate Admit(rpm: nat, b: Bucket, times: seq<int>, k: nat)
    requires k < |times|
  {
    Admits(rpm, Run(rpm, b, times, k), times[k])
  }

  /** How many of the calls i, ..., j - 1 are admitted. */
  function Count(rpm: nat, b: Bucket, times: seq<int>, i: nat, j: nat): nat
    requires i <= j <= |times|
    decreases j
  {
    if i == j then 0 else Count(rpm, b, times, i, j - 1) + (if Admit(rpm, b, times, j - 1) then 1 else 0)
  }

  // ----- Truncated refills -----

  /** Truncation loses tokens when an interval is split, and never creates any. */
  lemma RefillSplits(rpm: nat, a: nat, b: nat)
    ensures Refill(rpm, a) + Refill(rpm, b) <= Refill(rpm, a + b)
    ensures 0 <= Refill(rpm, a) <= Refill(rpm, a + b)
  {
    ProductSum(a, b, rpm);
  }

  lemma {:induction false} RefillZero(rpm: nat)
    ensures Refill(rpm, 0) == 0
  {
    ProductIs(0, rpm);
  }

  lemma {:induction false} RefillMinute(rpm: nat)
    ensures Refill(rpm, MINUTE) == rpm
  {
    ProductIs(MINUTE, rpm);
  }

  /** An interval earns a token exactly when it is at least a minute divided by rpm. */
  lemma RefillPositive(rpm: nat, dt: nat)
    ensures Refill(rpm, dt) >= 1 <==> dt * rpm >= MINUTE
    ensures Refill(rpm, dt) >= 0
  {
    ProductIs(dt, rpm);
  }

  /** An idle minute fills the bucket. */
  lemma FullAfterMinute(rpm: nat, b: Bucket, now: int)
    requires Valid(rpm, b) && now - b.last >= MINUTE
    ensures Level(rpm, b, now) == rpm
  {
    RefillMinute(rpm);
    RefillSplits(rpm, MINUTE, now - b.last - MINUTE);
  }

  /** Less than a minute never earns a full bucket. */
  lemma ShortOfMinute(rpm: nat, dt: nat)
    requires rpm > 0 && dt < MINUTE
    ensures Refill(rpm, dt) < rpm
  {
    ProductIs(dt, rpm);
    assert MINUTE * rpm == dt * rpm + (MINUTE - dt) * rpm;
    assert (MINUTE - dt) * rpm > 0;
  }

  lemma {:induction false} RunValid(rpm: nat, b: Bucket, times: seq<int>, n: nat)
    requires Valid(rpm, b) && Ordered(b.last, times) && n <= |times|
    ensures Valid(rpm, Run(rpm, b, times, n))
    ensures Run(rpm, b, times, n).last == TimeBefore(b.last, times, n)
  {
    if n > 0 {
      RunValid(rpm, b, times, n - 1);
      RefillPositive(rpm, Gap(b.last, times, n - 1));
    }
  }

  lemma {:induction false} RunPrefix(rpm: nat, b: Bucket, s: seq<int>, t: seq<int>, n: nat)
    requires n <= |s| <= |t| && forall k :: 0 <= k < |s| ==> s[k] == t[k]
    ensures Run(rpm, b, s, n) == Run(rpm, b, t, n)
  {
    if n > 0 {
      RunPrefix(rpm, b, s, t, n - 1);
    }
  }

  // ----- Rate bounds -----

  /** Conservation over any window: what it admits plus what it leaves
      is at most what it found plus what its time span earns. */
  lemma {:induction false} Conservation(rpm: nat, b: Bucket, times: seq<int>, i: nat, j: nat)
    requires Valid(rpm, b) && Ordered(b.last, times) && i <= j <= |times|
    ensures TimeBefore(b.last, times, i) <= TimeBefore(b.last, times, j)
    ensures Count(rpm, b, times, i, j) + Run(rpm, b, times, j).tokens
         <= Run(rpm, b, times, i).tokens + Refill(rpm, TimeBefore(b.last, times, j) - TimeBefore(b.last, times, i))
    decreases j
  {
    if i == j {
      RefillZero(rpm);
    } else {
      Conservation(rpm, b, times, i, j - 1);
      RunValid(rpm, b, times, j - 1);
      var t := TimeBefore(b.last, times, j - 1);
      RefillSplits(rpm, t - TimeBefore(b.last, times, i), Gap(b.last, times, j - 1));
    }
  }

  /** One call in a window that opened at time since and has admitted count calls so far. */
  lemma WindowStep(rpm: nat, b: Bucket, now: int, since: int, count: nat)
    requires Valid(rpm, b) && b.last <= now && since <= now
    requires count == 0 || (since <= b.last && count + b.tokens <= rpm + Refill(rpm, b.last - since))
    ensures Valid(rpm, After(rpm, b, now))
    ensures count + (if Admits(rpm, b, now) then 1 else 0) + After(rpm, b, now).tokens <= rpm + Refill(rpm, now - since)
  {
    RefillPositive(rpm, now - since);
    RefillPositive(rpm, now - b.last);
    if count > 0 {
      RefillSplits(rpm, b.last - since, now - b.last);
    }
  }

  /** At the end of such a window, its calls are bounded by the capacity and the time. */
  lemma WindowCount(rpm: nat, b: Bucket, since: int, until: int, count: nat)
    requires Valid(rpm, b) && since <= until && b.last <= until
    requires count == 0 || (since <= b.last && count + b.tokens <= rpm + Refill(rpm, b.last - since))
    ensures count <= rpm + Refill(rpm, until - since)
  {
    RefillPositive(rpm, until - since);
    if count > 0 {
      RefillSplits(rpm, b.last - since, until - b.last);
    }
  }

  /** Measured from its first call, a window starts with at most the capacity. */
  lemma {:induction false} WindowConservation(rpm: nat, b: Bucket, times: seq<int>, i: nat, j: nat)
    requires Valid(rpm, b) && Ordered(b.last, times) && i < j <= |times|
    ensures times[i] <= times[j - 1]
    ensures Count(rpm, b, times, i, j) + Run(rpm, b, times, j).tokens <= rpm + Refill(rpm, times[j - 1] - times[i])
    decreases j
  {
    RunValid(rpm, b, times, j - 1);
    assert Gap(b.last, times, j - 1) >= 0;
    if i < j - 1 {
      WindowConservation(rpm, b, times, i, j - 1);
    }
    WindowStep(rpm, Run(rpm, b, times, j - 1), times[j - 1], times[i], Count(rpm, b, times, i, j - 1));
  }

  /** Every window of every run admits at most the capacity plus what the time from its first to its last call earns. */
  lemma WindowBound(rpm: nat, b: Bucket, times: seq<int>, i: nat, j: nat)
    requires Valid(rpm, b) && Ordered(b.last, times) && i < j <= |times|
    ensures times[i] <= times[j - 1]
    ensures Count(rpm, b, times, i, j) <= rpm + Refill(rpm, times[j - 1] - times[i])
  {
    WindowConservation(rpm, b, times, i, j);
    RunValid(rpm, b, times, j);
  }

  /** At most twice the nominal rate is admitted in any sixty seconds, counted in nanoseconds. */
  lemma TwicePerMinute(rpm: nat, b: Bucket, times: seq<int>, i: nat, j: nat)
    requires Valid(rpm, b) && Ordered(b.last, times) && i < j <= |times|
    requires times[j - 1] - times[i] <= 60_000_000_000
    ensures Count(rpm, b, times, i, j) <= 2 * rpm
  {
    WindowBound(rpm, b, times, i, j);
    var dt := times[j - 1] - times[i];
    RefillSplits(rpm, dt, MINUTE - dt);
    RefillMinute(rpm);
  }

  /** Calls at the same instant are admitted exactly as far as the tokens reach. */
  lemma {:induction false} BurstCount(rpm: nat, b: Bucket, times: seq<int>, i: nat, j: nat, now: int)
    requires Valid(rpm, b) && Ordered(b.last, times) && i < j <= |times|
    requires forall k :: i <= k < j ==> times[k] == now
    ensures var level := Level(rpm, Run(rpm, b, times, i), now);
            && Count(rpm, b, times, i, j) == Min(j - i, level)
            && Run(rpm, b, times, j).tokens == level - Min(j - i, level)
    decreases j
  {
    RunValid(rpm, b, times, j - 1);
    if i == j - 1 {
      RefillPositive(rpm, Gap(b.last, times, i));
    } else {
      BurstCount(rpm, b, times, i, j - 1, now);
      RefillZero(rpm);
    }
  }

  /** The bound of twice the rate is reached: rpm calls at once, and rpm more a minute later. */
  lemma TwicePerMinuteIsReached(rpm: nat, start: int) returns (times: seq<int>)
    requires rpm > 0
    ensures Ordered(start, times) && |times| == 2 * rpm && times[|times| - 1] - times[0] == 60_000_000_000
    ensures Count(rpm, Fresh(rpm, start), times, 0, 2 * rpm) == 2 * rpm
  {
    times := seq(2 * rpm, k requires 0 <= k < 2 * rpm => if k < rpm then start else start + MINUTE);
    var b := Fresh(rpm, start);
    RefillZero(rpm);
    BurstCount(rpm, b, times, 0, rpm, start);
    RunValid(rpm, b, times, rpm);
    FullAfterMinute(rpm, Run(rpm, b, times, rpm), start + MINUTE);
    BurstCount(rpm, b, times, rpm, 2 * rpm, start + MINUTE);
    CountSplits(rpm, b, times, 0, rpm, 2 * rpm);
  }

  lemma {:induction false} CountSplits(rpm: nat, b: Bucket, times: seq<int>, i: nat, j: nat, k: nat)
    requires i <= j <= k <= |times|
    ensures Count(rpm, b, times, i, k) == Count(rpm, b, times, i, j) + Count(rpm, b, times, j, k)
    decreases k
  {
    if j < k {
      CountSplits(rpm, b, times, i, j, k - 1);
    }
  }

  // ----- The ideal bucket -----

  /** A bucket of the same rate and capacity that keeps fractions of tokens. */
  datatype Ideal = Ideal(level: real, last: int)

  /** The exact refill, fractions included. */
  function IdealRefill(rpm: nat, dt: int): real {
    if dt >= 0 then Product(dt, rpm) as real / MINUTE as real else -(Product(-dt, rpm) as real / MINUTE as real)
  }

  function IdealLevel(rpm: nat, b: Ideal, now: int): real {
    var level := b.level + IdealRefill(rpm, now - b.last);
    if level <= rpm as real then level else rpm as real
  }

  predicate IdealAdmits(rpm: nat, b: Ideal, now: int) {
    IdealLevel(rpm, b, now) >= 1.0
  }

  function IdealAfter(rpm: nat, b: Ideal, now: int): Ideal {
    Ideal(IdealLevel(rpm, b, now) - (if IdealAdmits(rpm, b, now) then 1.0 else 0.0), now)
  }

  function IdealRun(rpm: nat, b: Ideal, times: seq<int>, n: nat): Ideal
    requires n <= |times|
  {
    if n == 0 then b else IdealAfter(rpm, IdealRun(rpm, b, times, n - 1), times[n - 1])
  }

  predicate IdealAdmit(rpm: nat, b: Ideal, times: seq<int>, k: nat)
    requires k < |times|
  {
    IdealAdmits(rpm, IdealRun(rpm, b, times, k), times[k])
  }

  /** The truncated refill is within one token of the exact one. */
  lemma RefillFraction(rpm: nat, dt: nat)
    ensures Refill(rpm, dt) as real <= IdealRefill(rpm, dt) < Refill(rpm, dt) as real + 1.0
  {
    var x, q := Product(dt, rpm), Refill(rpm, dt);
    assert q * MINUTE <= x < q * MINUTE + MINUTE;
    assert (q * MINUTE) as real <= x as real < (q * MINUTE + MINUTE) as real;
  }

  /** One call in lockstep: the ideal bucket stays ahead and gains less than a token. */
  lemma LagStep(rpm: nat, b: Bucket, c: Ideal, now: int)
    requires Valid(rpm, b) && c.last == b.last <= now && b.tokens as real <= c.level
    ensures var lag := IdealAfter(rpm, c, now).level - After(rpm, b, now).tokens as real;
            0.0 <= lag < c.level - b.tokens as real + 1.0
    ensures Admits(rpm, b, now) ==> IdealAdmits(rpm, c, now)
  {
    RefillFraction(rpm, now - b.last);
    RefillPositive(rpm, now - b.last);
  }

  /** Run in lockstep, the integer bucket never holds more than the ideal one
      and lags it by less than a token a call. */
  lemma {:induction false} IdealLag(rpm: nat, b: Bucket, times: seq<int>, n: nat)
    requires Valid(rpm, b) && Ordered(b.last, times) && n <= |times|
    ensures var ideal, whole := IdealRun(rpm, Ideal(b.tokens as real, b.last), times, n), Run(rpm, b, times, n);
            && ideal.last == whole.last
            && 0.0 <= ideal.level - whole.tokens as real <= n as real
            && (n > 0 ==> ideal.level - whole.tokens as real < n as real)
  {
    if n > 0 {
      IdealLag(rpm, b, times, n - 1);
      RunValid(rpm, b, times, n - 1);
      assert Gap(b.last, times, n - 1) >= 0;
      var ideal := IdealRun(rpm, Ideal(b.tokens as real, b.last), times, n - 1);
      LagStep(rpm, Run(rpm, b, times, n - 1), ideal, times[n - 1]);
    }
  }

  /** Every call the integer bucket admits, the ideal bucket admits as well. */
  lemma IdealAdmitsMore(rpm: nat, b: Bucket, times: seq<int>, k: nat)
    requires Valid(rpm, b) && Ordered(b.last, times) && k < |times|
    requires Admit(rpm, b, times, k)
    ensures IdealAdmit(rpm, Ideal(b.tokens as real, b.last), times, k)
  {
    IdealLag(rpm, b, times, k);
    RunValid(rpm, b, times, k);
    assert Gap(b.last, times, k) >= 0;
    LagStep(rpm, Run(rpm, b, times, k), IdealRun(rpm, Ideal(b.tokens as real, b.last), times, k), times[k]);
  }

  // ----- Pacing -----

  /** The gap before call k is long enough to earn a token. */
  ghost predicate Earns(rpm: nat, from: int, times: seq<int>, k: nat)
    requires k < |times|
  {
    Gap(from, times, k) * rpm >= MINUTE
  }

  /** Calls spaced by at least 60/rpm seconds are all admitted, however many there are:
      the first by a token on hand or by its gap, each later one by its gap. */
  lemma PacedCallsPass(rpm: nat, b: Bucket, times: seq<int>, k: nat)
    requires Valid(rpm, b) && Ordered(b.last, times) && k < |times|
    requires b.tokens > 0 || Earns(rpm, b.last, times, 0)
    requires forall i :: 0 < i < |times| ==> Earns(rpm, b.last, times, i)
    ensures Admit(rpm, b, times, k)
  {
    RunValid(rpm, b, times, k);
    RefillPositive(rpm, Gap(b.last, times, k));
    assert k > 0 ==> Earns(rpm, b.last, times, k);
  }

  /** From an empty bucket, the first n calls are all refused exactly when every gap is shorter than 60/rpm seconds:
      each refused call moves `last` and drops the fraction earned so far. */
  lemma {:induction false} StarvedExactlyByShortGaps(rpm: nat, b: Bucket, times: seq<int>, n: nat)
    requires rpm > 0 && b.tokens == 0 && Ordered(b.last, times) && n <= |times|
    ensures Count(rpm, b, times, 0, n) == 0 <==> forall k :: 0 <= k < n ==> !Earns(rpm, b.last, times, k)
    ensures Count(rpm, b, times, 0, n) == 0 ==> Run(rpm, b, times, n).tokens == 0
  {
    if n > 0 {
      StarvedExactlyByShortGaps(rpm, b, times, n - 1);
      RunValid(rpm, b, times, n - 1);
      RefillPositive(rpm, Gap(b.last, times, n - 1));
      assert Earns(rpm, b.last, times, n - 1) <==> Refill(rpm, Gap(b.last, times, n - 1)) >= 1;
    }
  }

  /** In every run of a new bucket, a client alone on it that waits `wait` after a refusal is admitted. */
  ghost predicate RetryHonoured(rpm: nat, wait: nat) {
    forall start: int, times: seq<int>, k: nat ::
      && Ordered(start, times) && k + 1 < |times|
      && !Admit(rpm, Fresh(rpm, start), times, k) && times[k] + wait <= times[k + 1]
      ==> Admit(rpm, Fresh(rpm, start), times, k + 1)
  }

  lemma RetryAdmitted(rpm: nat, start: int, times: seq<int>, k: nat)
    requires rpm >= 60 && Ordered(start, times) && k + 1 < |times|
    requires !Admit(rpm, Fresh(rpm, start), times, k) && times[k] + SECOND <= times[k + 1]
    ensures Admit(rpm, Fresh(rpm, start), times, k + 1)
  {
    RunValid(rpm, Fresh(rpm, start), times, k + 1);
    var dt := Gap(start, times, k + 1);
    assert dt * rpm >= SECOND * 60 by {
      assert dt * rpm == SECOND * rpm + (dt - SECOND) * rpm;
      assert (dt - SECOND) * rpm >= 0;
    }
    RefillPositive(rpm, dt);
  }

  /** Below sixty a minute: rpm calls at once and one more, refused, and a retry after a second. */
  lemma RetryRefused(rpm: nat) returns (times: seq<int>)
    requires 0 < rpm < 60
    ensures |times| == rpm + 2 && Ordered(0, times) && times[rpm] + SECOND == times[rpm + 1]
    ensures !Admit(rpm, Fresh(rpm, 0), times, rpm) && !Admit(rpm, Fresh(rpm, 0), times, rpm + 1)
  {
    times := seq(rpm + 2, k requires 0 <= k < rpm + 2 => if k <= rpm then 0 else SECOND);
    var b := Fresh(rpm, 0);
    RefillZero(rpm);
    BurstCount(rpm, b, times, 0, rpm, 0);
    RunValid(rpm, b, times, rpm);
    assert Run(rpm, b, times, rpm) == Bucket(0, 0);
    assert Run(rpm, b, times, rpm + 1) == Bucket(0, 0);
    RefillPositive(rpm, SECOND);
  }

  /** `Retry-After: 1` keeps its promise exactly when the limit is at least sixty requests a minute. */
  lemma RetryAfterHonouredIff(rpm: nat)
    requires rpm > 0
    ensures RetryHonoured(rpm, 1_000_000_000) <==> rpm >= 60
  {
    if rpm >= 60 {
      forall start: int, times: seq<int>, k: nat |
        && Ordered(start, times) && k + 1 < |times|
        && !Admit(rpm, Fresh(rpm, start), times, k) && times[k] + SECOND <= times[k + 1]
        ensures Admit(rpm, Fresh(rpm, start), times, k + 1)
      {
        RetryAdmitted(rpm, start, times, k);
      }
    } else {
      var times := RetryRefused(rpm);
    }
  }

  // ----- The class -----

  class TokenBucket {
    const capacity: nat
    const rate: real  // tokens per second
    var tokens: int
    var last: int

    ghost predicate Valid() {
      capacity > 0 && rate == capacity as real / 60.0
    }

    ghost function View(): Bucket
      reads this
    {
      Bucket(tokens, last)
    }

    constructor (requestsPerMinute: nat, now: int)
      requires requestsPerMinute > 0
      ensures Valid() && capacity == requestsPerMinute && View() == Fresh(requestsPerMinute, now)
    {
      capacity := requestsPerMinute;
      tokens := requestsPerMinute;
      rate := requestsPerMinute as real / 60.0;
      last := now;
    }

    method Allow(now: int) returns (ok: bool)
      requires Valid()
      modifies this`tokens, this`last
      ensures ok == Admits(capacity, old(View()), now)
      ensures View() == After(capacity, old(View()), now)
    {
      var elapsed := (now - last) as real / SECOND as real;
      last := now;
      assert Truncate(elapsed * rate) == Refill(capacity, now - old(last)) by {
        RefillIsTruncatedProduct(capacity, now - old(last));
      }
      tokens := tokens + Truncate(elapsed * rate);
      if tokens > capacity {
        tokens := capacity;
      }
      if tokens <= 0 {
        return false;
      }
      tokens := tokens - 1;
      return true;
    }
  }

  lemma ScaledProduct(d: nat, rpm: nat)
    ensures d as real / SECOND as real * (rpm as real / 60.0) == IdealRefill(rpm, d)
  {
    ProductIs(d, rpm);
    assert (d * rpm) as real == d as real * rpm as real;
  }

  lemma TruncatedIdealRefill(rpm: nat, d: nat)
    ensures Truncate(IdealRefill(rpm, d)) == Refill(rpm, d)
    ensures Truncate(-IdealRefill(rpm, d)) == -Refill(rpm, d)
  {
    RefillFraction(rpm, d);
    RefillPositive(rpm, d);
    assert IdealRefill(rpm, d).Floor == Refill(rpm, d);
  }

  lemma NegatedProduct(x: real, y: real)
    ensures (-x) * y == -(x * y)
  {
  }

  /** The product of elapsed seconds and tokens per second, truncated, is the integer refill. */
  lemma RefillIsTruncatedProduct(rpm: nat, dt: int)
    ensures Truncate(dt as real / 1_000_000_000.0 * (rpm as real / 60.0)) == Refill(rpm, dt)
  {
    var d: nat := if dt >= 0 then dt else -dt;
    ScaledProduct(d, rpm);
    TruncatedIdealRefill(rpm, d);
    if dt < 0 {
      NegatedProduct(d as real / SECOND as real, rpm as real / 60.0);
      assert dt as real / SECOND as real == -(d as real / SECOND as real);
    }
  }
}
