/** Circuit breaking: a leaf's health after a history of probes, and the delay before the next probe. Delays are exact
    real numbers of seconds. */
module LeafHealth {
  import opened Common

  datatype State = State(health: Health, failures: nat)

  /** A history starts with the result of initialize; the results of the probes follow. True is success. */
  type History = seq<bool>

  /** Length of the run of failures that the history ends with. */
  function FailureRun(h: History): (n: nat)
    ensures n <= |h|
  {
    if h == [] || h[|h| - 1] then 0 else FailureRun(h[..|h| - 1]) + 1
  }

  /** The last `n` results are failures, and the one before is not. */
  predicate EndsWithRun(h: History, n: nat) {
    && n <= |h|
    && (forall i :: |h| - n <= i < |h| ==> !h[i])
    && (n < |h| ==> h[|h| - n - 1])
  }

  lemma {:induction false} FailureRunIsTrailing(h: History, n: nat)
    ensures FailureRun(h) == n <==> EndsWithRun(h, n)
    decreases |h|
  {
    if h != [] && !h[|h| - 1] {
      var front := h[..|h| - 1];
      if n > 0 {
        FailureRunIsTrailing(front, n - 1);
        assert EndsWithRun(h, n) <==> EndsWithRun(front, n - 1) by {
          assert n < |h| ==> h[|h| - n - 1] == front[|front| - (n - 1) - 1];
        }
      }
    }
  }

  function Max(a: nat, b: nat): nat {
    if a < b then b else a
  }

  /** The leaf after a history, as the monitor's steps make it. */
  function After(h: History, threshold: nat): State {
    if h == [] then State(Unknown, 0)
    else if h[|h| - 1] then State(Healthy, 0)
    else if |h| == 1 then State(Unhealthy, 1)
    else
      var before := After(h[..|h| - 1], threshold);
      var failures := before.failures + 1;
      State(if failures >= threshold then Unhealthy else before.health, failures)
  }

  /** Theorem: the counter is the length of the trailing run of failures, and the leaf is unhealthy exactly when that
      run reaches the threshold or reaches back to a failed initialize. */
  lemma {:induction false} HealthIsDecidedByRun(h: History, threshold: nat)
    requires h != []
    ensures After(h, threshold).failures == FailureRun(h)
    ensures After(h, threshold).health.Unhealthy? <==>
              (FailureRun(h) >= 1 && FailureRun(h) >= threshold) || FailureRun(h) == |h|
    ensures !After(h, threshold).health.Unknown?
    decreases |h|
  {
    if !h[|h| - 1] && |h| > 1 {
      HealthIsDecidedByRun(h[..|h| - 1], threshold);
    }
  }

  class Leaf {
    var health: Health
    var consecutiveFailures: nat

    function Current(): State
      reads this
    {
      State(health, consecutiveFailures)
    }

    constructor ()
      ensures Current() == State(Unknown, 0)
    {
      health, consecutiveFailures := Unknown, 0;
    }

    method MarkHealthy()
      modifies this
      ensures Current() == State(Healthy, 0)
    {
      health := Healthy;
      consecutiveFailures := 0;
    }

    method MarkUnhealthy()
      modifies this
      ensures Current() == State(Unhealthy, old(consecutiveFailures) + 1)
    {
      health := Unhealthy;
      consecutiveFailures := consecutiveFailures + 1;
    }

    method RecordFailure() returns (failures: nat)
      modifies this
      ensures Current() == State(old(health), failures) && failures == old(consecutiveFailures) + 1
    {
      consecutiveFailures := consecutiveFailures + 1;
      failures := consecutiveFailures;
    }
  }

  datatype Settings = Settings(base: real, threshold: nat, multiplier: real)

  /** The monitor over any finite part of its endless loop: `results` are the outcomes of initialize and of the
      probes, `delays` the sleeps after each probe. */
  method MonitorLeaf(leaf: Leaf, settings: Settings, results: History) returns (delays: seq<real>)
    requires results != [] && settings.base >= 0.0 && leaf.Current() == State(Unknown, 0)
    modifies leaf
    ensures leaf.Current() == After(results, if settings.threshold >= 1 then settings.threshold else 1)
    ensures |delays| == |results| - 1
    ensures forall i :: 0 <= i < |delays| ==>
              delays[i] == NextDelay(settings.base, settings.multiplier,
                                     if settings.threshold >= 1 then settings.threshold else 1,
                                     FailureRun(results[..i + 2]))
  {
    var threshold := Max(settings.threshold, 1);
    var multiplier := if settings.multiplier >= 1.0 then settings.multiplier else 1.0;
    if results[0] {
      leaf.MarkHealthy();
    } else {
      leaf.MarkUnhealthy();
    }
    delays := [];
    for i := 1 to |results|
      invariant leaf.Current() == After(results[..i], threshold)
      invariant |delays| == i - 1
      invariant forall j :: 0 <= j < i - 1 ==>
                  delays[j] == NextDelay(settings.base, settings.multiplier, threshold, FailureRun(results[..j + 2]))
    {
      assert results[..i + 1][..i] == results[..i];
      if results[i] {
        leaf.MarkHealthy();
      } else {
        var failures := leaf.RecordFailure();
        if failures >= threshold {
          leaf.health := Unhealthy;
        }
      }
      HealthIsDecidedByRun(results[..i + 1], threshold);
      SmallMultiplierIsOne(settings.base, settings.multiplier, threshold, leaf.consecutiveFailures);
      var delay := NextDelay(settings.base, multiplier, threshold, leaf.consecutiveFailures);
      delays := delays + [delay];
    }
    assert results[..|results|] == results;
  }

  // ---------- Backoff ----------

  const MAX_BACKOFF := 300.0

  function Min(a: real, b: real): real {
    if a <= b then a else b
  }

  function Pow(m: real, k: nat): real {
    if k == 0 then 1.0 else m * Pow(m, k - 1)
  }

  /** The base interval grown `k` times. */
  function Grown(base: real, m: real, k: nat): real {
    base * Pow(m, k)
  }

  function NextDelay(base: real, multiplier: real, threshold: nat, failures: nat): real {
    if failures < threshold || multiplier <= 1.0 then Min(base, MAX_BACKOFF)
    else Min(Grown(base, multiplier, failures - threshold), MAX_BACKOFF)
  }

  lemma SmallMultiplierIsOne(base: real, multiplier: real, threshold: nat, failures: nat)
    ensures multiplier <= 1.0 ==> NextDelay(base, multiplier, threshold, failures) == Min(base, MAX_BACKOFF)
    ensures NextDelay(base, if multiplier >= 1.0 then multiplier else 1.0, threshold, failures)
            == NextDelay(base, multiplier, threshold, failures)
  {
  }

  lemma MulGrows(x: real, m: real)
    requires x >= 0.0 && m >= 1.0
    ensures m * x >= x
  {
    assert m * x - x == (m - 1.0) * x;
  }

  lemma {:induction false} PowIsAtLeastOne(m: real, k: nat)
    requires m >= 1.0
    ensures Pow(m, k) >= 1.0
  {
    if k > 0 {
      PowIsAtLeastOne(m, k - 1);
      MulGrows(Pow(m, k - 1), m);
    }
  }

  lemma GrowStep(base: real, m: real, k: nat)
    ensures Grown(base, m, 0) == base
    ensures Grown(base, m, k + 1) == m * Grown(base, m, k)
  {
    Reorder(base, m, Pow(m, k));
  }

  lemma Reorder(a: real, b: real, c: real)
    ensures a * (b * c) == b * (a * c)
  {
  }

  lemma {:induction false} GrownIsAtLeastBase(base: real, m: real, k: nat)
    requires base >= 0.0 && m >= 1.0
    ensures Grown(base, m, k) >= base
  {
    PowIsAtLeastOne(m, k);
    MulGrows(base, Pow(m, k));
  }

  /** Past the threshold the delay is the grown base, up to the cap. */
  lemma DelayIsGrown(base: real, m: real, threshold: nat, k: nat)
    requires m > 1.0
    ensures NextDelay(base, m, threshold, threshold + k) == Min(Grown(base, m, k), MAX_BACKOFF)
  {
  }

  lemma GrownDelayStep(m: real, grown: real, next: real, delay: real, later: real, product: real)
    requires m >= 1.0 && next == m * grown && product == m * delay
    requires delay == Min(grown, MAX_BACKOFF) && later == Min(next, MAX_BACKOFF)
    ensures later == Min(MAX_BACKOFF, product)
  {
    if grown <= MAX_BACKOFF {
      SameProduct(m, delay, grown);
      assert product == next;
    } else {
      assert next >= grown by { MulGrows(grown, m); }
      assert product >= delay by { MulGrows(delay, m); }
    }
  }

  lemma SameProduct(m: real, a: real, b: real)
    requires a == b
    ensures m * a == m * b
  {
  }

  /** From the threshold on, each failure multiplies the delay, up to the cap. */
  lemma DelayStep(base: real, m: real, threshold: nat, f: nat)
    requires base >= 0.0 && m >= 1.0 && f >= threshold
    ensures NextDelay(base, m, threshold, f + 1) == Min(300.0, m * NextDelay(base, m, threshold, f))
  {
    var delay, later := NextDelay(base, m, threshold, f), NextDelay(base, m, threshold, f + 1);
    if m > 1.0 {
      var k := f - threshold;
      DelayIsGrown(base, m, threshold, k);
      DelayIsGrown(base, m, threshold, k + 1);
      GrowStep(base, m, k);
      GrownDelayStep(m, Grown(base, m, k), Grown(base, m, k + 1), delay, later, m * delay);
    } else {
      UnitStep(m, delay);
    }
  }

  lemma UnitStep(m: real, delay: real)
    requires m == 1.0 && delay <= MAX_BACKOFF
    ensures Min(MAX_BACKOFF, m * delay) == delay
  {
  }

  lemma CappedGrowth(delay: real, m: real, cap: real)
    requires 0.0 <= delay <= cap && m >= 1.0
    ensures delay <= Min(cap, m * delay)
  {
    MulGrows(delay, m);
  }

  lemma DelayStartsAtBase(base: real, m: real, threshold: nat, f: nat)
    requires f <= threshold
    ensures NextDelay(base, m, threshold, f) == Min(base, MAX_BACKOFF)
  {
    GrowStep(base, m, 0);
  }

  lemma DelayIsBounded(base: real, m: real, threshold: nat, f: nat)
    requires base >= 0.0
    ensures Min(base, MAX_BACKOFF) <= NextDelay(base, m, threshold, f) <= MAX_BACKOFF
  {
    if m > 1.0 && f >= threshold { GrownIsAtLeastBase(base, m, f - threshold); }
  }

  /** The delay stays between the base interval and the cap, never falls as failures add up, and starts to grow only
      past the threshold. */
  lemma DelayIsBoundedAndMonotone(base: real, m: real, threshold: nat, f: nat)
    requires base >= 0.0
    ensures Min(base, 300.0) <= NextDelay(base, m, threshold, f) <= 300.0
    ensures NextDelay(base, m, threshold, f) <= NextDelay(base, m, threshold, f + 1)
    ensures f <= threshold || m <= 1.0 ==> NextDelay(base, m, threshold, f) == Min(base, 300.0)
  {
    DelayIsBounded(base, m, threshold, f);
    if f < threshold {
      DelayStartsAtBase(base, m, threshold, f);
      DelayStartsAtBase(base, m, threshold, f + 1);
    } else if m > 1.0 {
      if f == threshold { DelayStartsAtBase(base, m, threshold, f); }
      DelayStep(base, m, threshold, f);
      CappedGrowth(NextDelay(base, m, threshold, f), m, MAX_BACKOFF);
    }
  }

  lemma {:induction false} MonotoneAcross(base: real, m: real, threshold: nat, f: nat, g: nat)
    requires base >= 0.0 && f <= g
    ensures NextDelay(base, m, threshold, f) <= NextDelay(base, m, threshold, g)
    decreases g
  {
    if f < g {
      MonotoneAcross(base, m, threshold, f, g - 1);
      DelayIsBoundedAndMonotone(base, m, threshold, g - 1);
    }
  }

  /** Powers outgrow every line: Bernoulli's inequality. */
  lemma {:induction false} Bernoulli(m: real, k: nat)
    requires m >= 1.0
    ensures Pow(m, k) >= 1.0 + k as real * (m - 1.0)
  {
    if k > 0 {
      Bernoulli(m, k - 1);
      var p, d := Pow(m, k - 1), m - 1.0;
      PowIsAtLeastOne(m, k - 1);
      MulGrows(d, p);
      assert Pow(m, k) == p + d * p;
      assert k as real * d == (k - 1) as real * d + d;
    }
  }

  lemma Product(a: real, b: real, c: real)
    requires a >= b && c >= 0.0
    ensures c * a >= c * b
  {
    assert c * a - c * b == c * (a - b);
  }

  /** Some number of steps of size `d` covers any distance. */
  lemma Archimedes(x: real, d: real) returns (k: nat)
    requires d > 0.0
    ensures k as real * d >= x
  {
    var steps := (x / d).Floor + 1;
    k := if steps < 0 then 0 else steps;
    assert k as real >= x / d;
    Product(k as real, x / d, d);
    assert d * (x / d) == x;
  }

  lemma PowReaches(base: real, m: real) returns (k: nat)
    requires base > 0.0 && m > 1.0
    ensures Grown(base, m, k) >= MAX_BACKOFF
  {
    k := Archimedes(MAX_BACKOFF / base, m - 1.0);
    Bernoulli(m, k);
    Product(Pow(m, k), MAX_BACKOFF / base, base);
    assert base * (MAX_BACKOFF / base) == MAX_BACKOFF;
  }

  /** From `n` failures on, the delay is the cap. */
  ghost predicate CappedFrom(base: real, m: real, threshold: nat, n: nat) {
    forall f: nat :: f >= n ==> NextDelay(base, m, threshold, f) == 300.0
  }

  lemma CapIsKept(base: real, m: real, threshold: nat, n: nat)
    requires base >= 0.0 && NextDelay(base, m, threshold, n) == MAX_BACKOFF
    ensures CappedFrom(base, m, threshold, n)
  {
    forall f: nat | f >= n
      ensures NextDelay(base, m, threshold, f) == MAX_BACKOFF
    {
      MonotoneAcross(base, m, threshold, n, f);
      DelayIsBoundedAndMonotone(base, m, threshold, f);
    }
  }

  /** Theorem: after finitely many failures the delay is the cap, for good, exactly when it starts there or can grow. */
  lemma ReachesCapIff(base: real, m: real, threshold: nat)
    requires base >= 0.0
    ensures (exists n: nat :: CappedFrom(base, m, threshold, n)) <==> base >= 300.0 || (base > 0.0 && m > 1.0)
  {
    if base >= MAX_BACKOFF {
      DelayIsBoundedAndMonotone(base, m, threshold, 0);
      CapIsKept(base, m, threshold, 0);
    } else if base > 0.0 && m > 1.0 {
      var k := PowReaches(base, m);
      CapIsKept(base, m, threshold, threshold + k);
    } else {
      forall n: nat
        ensures !CappedFrom(base, m, threshold, n)
      {
        assert NextDelay(base, m, threshold, n) < MAX_BACKOFF;
      }
    }
  }
}
