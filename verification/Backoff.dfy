/** Exponential backoff with jitter, and the retry loop that dials a session with it.
    Durations are whole nanoseconds; the floating-point product is taken over the reals. */
module Backoff {
  import opened Bytes

  const SECOND: int := 1_000_000_000
  const MAX_INT64: int := 0x7FFF_FFFF_FFFF_FFFF

  function Pow2(k: nat): (p: nat)
    ensures p > k
  {
    if k == 0 then 1 else 2 * Pow2(k - 1)
  }

  function Min(a: int, b: int): int { if a <= b then a else b }

  /** The k-th delay before jitter. */
  function Base(k: nat, maxInterval: int): int { Min(SECOND * Pow2(k), maxInterval) }

  function Scale(base: int, jitter: real): real { base as real * jitter }

  function Delay(k: nat, maxInterval: int, jitter: real): int {
    Scale(Base(k, maxInterval), jitter).Floor
  }

  predicate IsJitter(j: real) { 0.5 <= j < 1.5 }

  // -------------------------------------------------------------------- object

  class Backoff {
    var attempt: nat
    const maxRetries: int
    const maxInterval: int

    ghost predicate Valid()
      reads this
    {
      maxInterval > 0 && (maxRetries > 0 ==> attempt <= maxRetries)
    }

    constructor (maxRetries: int, maxInterval: int)
      ensures Valid() && attempt == 0 && this.maxRetries == maxRetries
      ensures this.maxInterval == if maxInterval <= 0 then 300 * SECOND else maxInterval
    {
      this.maxInterval := if maxInterval <= 0 then 300 * SECOND else maxInterval;
      this.maxRetries := maxRetries;
      attempt := 0;
    }

    method Next(jitter: real) returns (delay: int, ok: bool)
      requires Valid() && IsJitter(jitter)
      modifies this
      ensures Valid()
      ensures ok <==> !(maxRetries > 0 && old(attempt) == maxRetries)
      ensures if ok then attempt == old(attempt) + 1 && delay == Delay(old(attempt), maxInterval, jitter)
              else attempt == old(attempt) && delay == 0
    {
      if maxRetries > 0 && attempt >= maxRetries {
        return 0, false;
      }
      var d: real := SECOND as real * Pow2(attempt) as real;
      assert d == (SECOND * Pow2(attempt)) as real;
      if d > maxInterval as real {
        d := maxInterval as real;
      }
      d := d * jitter;
      attempt := attempt + 1;
      return d.Floor, true;
    }

    method Reset()
      requires Valid()
      modifies this
      ensures Valid() && attempt == 0
    {
      attempt := 0;
    }

    method Do(c: Call, ghost before: seq<Call>) returns (result: Option<int>)
      requires Valid() && attempt == SinceReset(before, maxRetries)
      requires c.Next? ==> IsJitter(c.jitter)
      modifies this
      ensures Valid() && attempt == SinceReset(before + [c], maxRetries)
      ensures result == ResultAfter(before, c, maxRetries, maxInterval)
    {
      assert (before + [c])[..|before|] == before;
      hide Delay;
      if c.Reset? {
        Reset();
        return None;
      }
      var delay, ok := Next(c.jitter);
      return if ok then Some(delay) else None;
    }

    /** Any sequence of calls on a fresh object. */
    method Drive(calls: seq<Call>) returns (results: seq<Option<int>>)
      requires Valid() && attempt == 0
      requires forall i | 0 <= i < |calls| :: calls[i].Next? ==> IsJitter(calls[i].jitter)
      modifies this
      ensures ResultsOf(results, calls, maxRetries, maxInterval)
    {
      results := [];
      var i := 0;
      while i < |calls|
        invariant 0 <= i <= |calls| && |results| == i && Valid()
        invariant attempt == SinceReset(calls[..i], maxRetries)
        invariant forall k | 0 <= k < i :: results[k] == ResultAfter(calls[..k], calls[k], maxRetries, maxInterval)
      {
        hide ResultAfter;
        assert calls[..i + 1] == calls[..i] + [calls[i]];
        var r := Do(calls[i], calls[..i]);
        results := results + [r];
        i := i + 1;
      }
    }
  }

  datatype Call = Next(jitter: real) | Reset

  /** Successful Next calls since the last Reset. */
  function SinceReset(calls: seq<Call>, maxRetries: int): (n: nat)
    ensures maxRetries > 0 ==> n <= maxRetries
  {
    if calls == [] || calls[|calls| - 1].Reset? then 0
    else
      var n := SinceReset(calls[..|calls| - 1], maxRetries);
      if maxRetries > 0 && n == maxRetries then n else n + 1
  }

  /** What a call returns after the calls before it: a Next, nothing once the retries since the
      last Reset are used up. */
  function ResultAfter(before: seq<Call>, c: Call, maxRetries: int, maxInterval: int): Option<int> {
    var k := SinceReset(before, maxRetries);
    if c.Reset? || (maxRetries > 0 && k == maxRetries) then None else Some(Delay(k, maxInterval, c.jitter))
  }

  predicate ResultsOf(results: seq<Option<int>>, calls: seq<Call>, maxRetries: int, maxInterval: int) {
    && |results| == |calls|
    && forall i | 0 <= i < |calls| :: results[i] == ResultAfter(calls[..i], calls[i], maxRetries, maxInterval)
  }

  /** Index after the last Reset; 0 when there is none. */
  function AfterLastReset(calls: seq<Call>): (i: nat)
    ensures i <= |calls| && (forall k | i <= k < |calls| :: calls[k].Next?) && (i > 0 ==> calls[i - 1].Reset?)
  {
    if calls == [] || calls[|calls| - 1].Reset? then |calls| else AfterLastReset(calls[..|calls| - 1])
  }

  function Successes(results: seq<Option<int>>): nat {
    if results == [] then 0
    else Successes(results[..|results| - 1]) + if results[|results| - 1].Some? then 1 else 0
  }

  lemma EarlierResults(results: seq<Option<int>>, calls: seq<Call>, maxRetries: int, maxInterval: int)
    requires ResultsOf(results, calls, maxRetries, maxInterval) && calls != []
    ensures var n := |calls| - 1;
            && ResultsOf(results[..n], calls[..n], maxRetries, maxInterval)
            && results[n] == ResultAfter(calls[..n], calls[n], maxRetries, maxInterval)
  {
    hide ResultAfter;
    var n := |calls| - 1;
    assert forall k | 0 <= k < n :: calls[..n][..k] == calls[..k];
  }

  /** The count the delays grow with is the number of delays given out since the last Reset. */
  lemma {:induction false} CountsSuccesses(
    results: seq<Option<int>>, calls: seq<Call>, maxRetries: int, maxInterval: int)
    requires ResultsOf(results, calls, maxRetries, maxInterval)
    ensures SinceReset(calls, maxRetries) == Successes(results[AfterLastReset(calls)..])
  {
    assert |results| == |calls|;
    hide Delay, ResultsOf;
    var i := AfterLastReset(calls);
    if i < |calls| {
      var n := |calls| - 1;
      EarlierResults(results, calls, maxRetries, maxInterval);
      CountsSuccesses(results[..n], calls[..n], maxRetries, maxInterval);
      assert AfterLastReset(calls[..n]) == i;
      assert results[i..][..n - i] == results[..n][i..];
    }
  }

  // ------------------------------------------------------------ sizes of delays

  lemma {:induction false} BasesGrow(k: nat, l: nat, maxInterval: int)
    requires k <= l
    ensures Base(k, maxInterval) <= Base(l, maxInterval) <= maxInterval
  {
    if k < l {
      BasesGrow(k, l - 1, maxInterval);
    }
  }

  lemma ScaleBounds(b: int, j: real)
    requires b > 0 && IsJitter(j)
    ensures b as real / 2.0 <= Scale(b, j) < 3.0 * b as real / 2.0
  {
    var x := b as real;
    assert x * (j - 0.5) >= 0.0 && x * (1.5 - j) > 0.0;
  }

  lemma FloorBounds(b: int, x: real)
    requires b as real / 2.0 <= x < 3.0 * b as real / 2.0
    ensures b - 1 <= 2 * x.Floor < 3 * b
  {
  }

  /** Jitter keeps a delay between half its base, rounded down, and one and a half times it. */
  lemma DelayBounds(k: nat, maxInterval: int, jitter: real)
    requires maxInterval > 0 && IsJitter(jitter)
    ensures Base(k, maxInterval) - 1 <= 2 * Delay(k, maxInterval, jitter) < 3 * Base(k, maxInterval)
  {
    assert Base(k, maxInterval) > 0;
    hide Base, Scale;
    ScaleBounds(Base(k, maxInterval), jitter);
    FloorBounds(Base(k, maxInterval), Scale(Base(k, maxInterval), jitter));
  }

  /** All delays of an interval fit an int64 duration exactly up to two thirds of 2^63. */
  lemma DelaysFitExactly(maxInterval: int)
    requires 0 < maxInterval <= MAX_INT64
    ensures (forall k: nat, j: real :: IsJitter(j) ==> Delay(k, maxInterval, j) <= MAX_INT64)
            <==> 3 * maxInterval <= 2 * (MAX_INT64 + 1)
  {
    if 3 * maxInterval <= 2 * (MAX_INT64 + 1) {
      forall k: nat, j: real | IsJitter(j)
        ensures Delay(k, maxInterval, j) <= MAX_INT64
      {
        DelayBounds(k, maxInterval, j);
        BasesGrow(k, k, maxInterval);
      }
    } else {
      var limit := (MAX_INT64 + 1) as real;
      var j := limit / maxInterval as real;
      QuotientIsJitter(maxInterval);
      assert Base(maxInterval, maxInterval) == maxInterval;
      assert Delay(maxInterval, maxInterval, j) == MAX_INT64 + 1;
    }
  }

  lemma QuotientIsJitter(maxInterval: int)
    requires 0 < maxInterval <= MAX_INT64 && 3 * maxInterval > 2 * (MAX_INT64 + 1)
    ensures var limit := (MAX_INT64 + 1) as real; var j := limit / maxInterval as real;
            IsJitter(j) && Scale(maxInterval, j).Floor == MAX_INT64 + 1
  {
    var m, limit := maxInterval as real, (MAX_INT64 + 1) as real;
    assert limit / m * m == limit;
  }

  // -------------------------------------------------------- capped geometric sum

  function BaseSum(n: nat, maxInterval: int): int {
    if n == 0 then 0 else BaseSum(n - 1, maxInterval) + Base(n - 1, maxInterval)
  }

  /** How many exponents from k on stay within the cap. */
  function Uncapped(k: nat, maxInterval: int): (c: nat)
    ensures c >= k
    ensures c > k ==> SECOND * Pow2(c - 1) <= maxInterval
    ensures SECOND * Pow2(c) > maxInterval
    decreases maxInterval - SECOND * Pow2(k)
  {
    if SECOND * Pow2(k) > maxInterval then k else Uncapped(k + 1, maxInterval)
  }

  lemma {:induction false} PowGrows(k: nat, l: nat)
    requires k <= l
    ensures Pow2(k) <= Pow2(l)
  {
    if k < l {
      PowGrows(k, l - 1);
    }
  }

  lemma {:induction false} SumBelowCap(n: nat, maxInterval: int)
    requires maxInterval > 0 && n <= Uncapped(0, maxInterval)
    ensures BaseSum(n, maxInterval) == (Pow2(n) - 1) * SECOND
  {
    if n > 0 {
      SumBelowCap(n - 1, maxInterval);
      PowGrows(n - 1, Uncapped(0, maxInterval) - 1);
      assert Base(n - 1, maxInterval) == SECOND * Pow2(n - 1);
    }
  }

  lemma {:induction false} SumAboveCap(c: nat, n: nat, maxInterval: int)
    requires c <= n && SECOND * Pow2(c) > maxInterval
    ensures BaseSum(n, maxInterval) == BaseSum(c, maxInterval) + (n - c) * maxInterval
  {
    if n > c {
      SumAboveCap(c, n - 1, maxInterval);
      PowGrows(c, n - 1);
      assert Base(n - 1, maxInterval) == maxInterval;
      OneMore(n - c, maxInterval);
    }
  }

  lemma OneMore(k: nat, m: int)
    ensures (k - 1) * m + m == k * m
  {
  }

  /** The sum of the first n delays before jitter, in closed form. */
  lemma BaseSumClosedForm(n: nat, maxInterval: int)
    requires maxInterval > 0
    ensures var c := Uncapped(0, maxInterval);
            BaseSum(n, maxInterval) == if n <= c then (Pow2(n) - 1) * SECOND
                                       else (Pow2(c) - 1) * SECOND + (n - c) * maxInterval
  {
    var c := Uncapped(0, maxInterval);
    if n <= c {
      SumBelowCap(n, maxInterval);
    } else {
      SumBelowCap(c, maxInterval);
      SumAboveCap(c, n, maxInterval);
    }
  }

  // --------------------------------------------------------------- retry loop

  /** One dial: whether it works and, if not, the jitter of the wait and whether the context
      ends it. */
  datatype Attempt = Attempt(ok: bool, jitter: real, cancelled: bool)
  datatype Outcome = Connected | Exhausted | Cancelled | StillRetrying

  function Sum(s: seq<int>): int {
    if s == [] then 0 else Sum(s[..|s| - 1]) + s[|s| - 1]
  }

  predicate WaitsOf(waits: seq<int>, script: seq<Attempt>, cap: int) {
    && |waits| <= |script|
    && forall i | 0 <= i < |waits| :: IsJitter(script[i].jitter) && waits[i] == Delay(i, cap, script[i].jitter)
  }

  /** The total time waited, against the capped geometric sum. */
  lemma {:induction false} TotalWait(waits: seq<int>, script: seq<Attempt>, cap: int)
    requires cap > 0 && WaitsOf(waits, script, cap)
    ensures BaseSum(|waits|, cap) - |waits| <= 2 * Sum(waits) <= 3 * BaseSum(|waits|, cap)
    ensures waits != [] ==> 2 * Sum(waits) < 3 * BaseSum(|waits|, cap)
  {
    if waits != [] {
      var n := |waits| - 1;
      TotalWait(waits[..n], script, cap);
      DelayBounds(n, cap, script[n].jitter);
    }
  }

  /** M waits last between half and one and a half times the closed form of their bases. */
  lemma RetriesWaitWithinBounds(waits: seq<int>, script: seq<Attempt>, cap: int)
    requires cap > 0 && waits != [] && WaitsOf(waits, script, cap)
    ensures var c, n := Uncapped(0, cap), |waits|;
            var bases := if n <= c then (Pow2(n) - 1) * SECOND else (Pow2(c) - 1) * SECOND + (n - c) * cap;
            bases - n <= 2 * Sum(waits) < 3 * bases
  {
    TotalWait(waits, script, cap);
    BaseSumClosedForm(|waits|, cap);
  }

  function Cap(interval: int): int { if interval <= 0 then 300 * SECOND else interval }

  /** dialMuxSession, against a script of what its dials and waits meet. With a retry limit M
      and every dial failing it makes exactly M + 1 dials and M waits. */
  method DialMuxSession(maxRetries: int, interval: int, script: seq<Attempt>)
    returns (outcome: Outcome, dials: nat, waits: seq<int>)
    requires forall a | a in script :: IsJitter(a.jitter)
    ensures dials <= |script| && WaitsOf(waits, script, Cap(interval))
    ensures forall i | 0 <= i < |waits| :: !script[i].ok && !script[i].cancelled
    ensures if outcome == StillRetrying then dials == |waits| == |script| else dials == |waits| + 1
    ensures maxRetries > 0 ==> |waits| <= maxRetries
    ensures maxRetries > 0 && |script| > maxRetries && (forall a | a in script :: !a.ok && !a.cancelled)
            ==> outcome == Exhausted && dials == maxRetries + 1
    ensures outcome == Connected ==> script[dials - 1].ok
    ensures outcome == Exhausted ==> !script[dials - 1].ok && maxRetries > 0 && |waits| == maxRetries
    ensures outcome == Cancelled ==>
              !script[dials - 1].ok && script[dials - 1].cancelled && !(maxRetries > 0 && |waits| == maxRetries)
  {
    var bo := new Backoff(maxRetries, interval);
    dials, waits := 0, [];
    while dials < |script|
      invariant bo.Valid() && fresh(bo) && bo.maxRetries == maxRetries && bo.maxInterval == Cap(interval)
      invariant bo.attempt == |waits| == dials <= |script|
      invariant WaitsOf(waits, script, Cap(interval))
      invariant forall i | 0 <= i < |waits| :: !script[i].ok && !script[i].cancelled
    {
      var a := script[dials];
      assert a in script;
      dials := dials + 1;
      if a.ok { return Connected, dials, waits; }
      var delay, ok := bo.Next(a.jitter);
      if !ok { return Exhausted, dials, waits; }
      if a.cancelled { return Cancelled, dials, waits; }
      waits := waits + [delay];
    }
    return StillRetrying, dials, waits;
  }
}
