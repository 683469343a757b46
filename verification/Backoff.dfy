/** Restart delays of ponos/pkg/containerManager (dockerManager.go, restartManager.go) and the retry
    loop of ponos/pkg/clients/grpcRetry.go. Durations are integers; the multiplier is num/den. */
module Backoff {

  type pos = n: int | n > 0 witness 1

  datatype Policy = Policy(delay: int, num: int, den: pos, maxDelay: int)

  function Min(a: int, b: int): int { if a <= b then a else b }
  function Max(a: int, b: int): int { if a <= b then b else a }

  /** time.Duration(float64(d) * multiplier): the product, truncated toward zero. */
  function Scale(p: Policy, d: int): int {
    var product := d * p.num;
    if product >= 0 then product / p.den else -(-product / p.den)
  }

  /** The truncated quotient: no farther from zero than the product over den, and less than one off. */
  lemma ScaleIsQuotient(p: Policy, d: int)
    ensures d * p.num >= 0 ==> Scale(p, d) * p.den <= d * p.num < (Scale(p, d) + 1) * p.den
    ensures d * p.num < 0 ==> (Scale(p, d) - 1) * p.den < d * p.num <= Scale(p, d) * p.den
  {
    var product := d * p.num;
    var magnitude := if product >= 0 then product else -product;
    var q, r := magnitude / p.den, magnitude % p.den;
    assert magnitude == p.den * q + r;
    assert q * p.den == p.den * q && (q + 1) * p.den == p.den * q + p.den;
    assert (-q) * p.den == -(p.den * q) && (-q - 1) * p.den == -(p.den * q) - p.den;
  }

  /** The delay after n multiplications, with no cap anywhere. */
  function Power(p: Policy, n: nat): int {
    if n == 0 then p.delay else Scale(p, Power(p, n - 1))
  }

  /** The loop variable after n rounds of "multiply while below the maximum". */
  function Guarded(p: Policy, n: nat): int {
    if n == 0 then p.delay
    else if Guarded(p, n - 1) < p.maxDelay then Scale(p, Guarded(p, n - 1)) else Guarded(p, n - 1)
  }

  function RestartDelay(p: Policy, count: nat): int {
    if count == 0 then p.delay else Min(Guarded(p, count), p.maxDelay)
  }

  /** The k-th sleep of the retry interceptor, capped at every step. */
  function RetryDelay(p: Policy, k: nat): int {
    if k == 0 then p.delay else Min(Scale(p, RetryDelay(p, k - 1)), p.maxDelay)
  }

  /** calculateRestartDelay, the same loop in both files. */
  method CalculateRestartDelay(p: Policy, restartCount: nat) returns (delay: int)
    ensures delay == RestartDelay(p, restartCount)
    ensures restartCount == 0 ==> delay == p.delay
    ensures restartCount > 0 ==> delay <= p.maxDelay
    ensures restartCount == 1 && p.delay < p.maxDelay ==> delay == Min(Scale(p, p.delay), p.maxDelay)
  {
    if restartCount == 0 { return p.delay; }
    delay := p.delay;
    var i := 0;
    while i < restartCount && delay < p.maxDelay
      invariant 0 <= i <= restartCount
      invariant delay == Guarded(p, i)
    {
      delay := Scale(p, delay);
      i := i + 1;
    }
    if i < restartCount {
      GuardedStays(p, i, restartCount);
    }
    if delay > p.maxDelay { delay := p.maxDelay; }
  }

  lemma {:induction false} GuardedStays(p: Policy, i: nat, n: nat)
    requires i <= n && Guarded(p, i) >= p.maxDelay
    ensures Guarded(p, n) == Guarded(p, i)
  {
    if i < n { GuardedStays(p, i, n - 1); }
  }

  // ----- arithmetic of one multiplication

  predicate Sane(p: Policy) {
    p.delay >= 0 && p.num >= 0 && p.maxDelay >= 0
  }

  lemma ScaleBounds(p: Policy, d: int)
    requires d >= 0 && p.num >= 0
    ensures Scale(p, d) >= 0
    ensures p.num >= p.den ==> Scale(p, d) >= d
    ensures p.num < p.den && d > 0 ==> Scale(p, d) < d
    ensures d == 0 ==> Scale(p, d) == 0
  {
    assert d * p.num >= 0;
    if p.num >= p.den {
      assert d * p.num >= d * p.den;
      DivideUp(d * p.num, d, p.den);
    } else if d > 0 {
      assert d * p.num < d * p.den;
      DivideDown(d * p.num, d, p.den);
    }
  }

  lemma DivideUp(x: int, q: int, d: pos)
    requires x >= q * d
    ensures x / d >= q
  {
    var k := x / d;
    assert x == d * k + x % d;
    assert k < q ==> (k + 1) * d <= q * d;
  }

  lemma DivideDown(x: int, q: int, d: pos)
    requires x < q * d
    ensures x / d < q
  {
    var k := x / d;
    assert x == d * k + x % d;
    assert k >= q ==> k * d >= q * d;
  }

  lemma ScaleMonotone(p: Policy, c: int, d: int)
    requires 0 <= c <= d && p.num >= 0
    ensures Scale(p, c) <= Scale(p, d)
  {
    assert 0 <= c * p.num <= d * p.num;
    var q := c * p.num / p.den;
    assert c * p.num == p.den * q + c * p.num % p.den;
    DivideUp(d * p.num, q, p.den);
  }

  // ----- the early-exit loop against the capped power

  /** Either the delay never shrinks, or the cap is not in force from the start. */
  predicate CapIsStable(p: Policy) {
    p.num >= p.den || p.delay < p.maxDelay || p.maxDelay == 0
  }

  lemma {:induction false} PowerNonNegative(p: Policy, n: nat)
    requires Sane(p)
    ensures Power(p, n) >= 0
    ensures p.num >= p.den ==> Power(p, n) >= p.delay
    ensures p.num < p.den ==> Power(p, n) <= p.delay
  {
    if n > 0 {
      PowerNonNegative(p, n - 1);
      ScaleBounds(p, Power(p, n - 1));
    }
  }

  lemma {:induction false} CappedPower(p: Policy, n: nat)
    requires Sane(p) && CapIsStable(p)
    ensures Guarded(p, n) >= 0
    ensures Min(Guarded(p, n), p.maxDelay) == Min(Power(p, n), p.maxDelay)
    ensures Guarded(p, n) < p.maxDelay ==> Guarded(p, n) == Power(p, n)
  {
    if n > 0 {
      CappedPower(p, n - 1);
      PowerNonNegative(p, n - 1);
      PowerNonNegative(p, n);
      ScaleBounds(p, Power(p, n - 1));
      ScaleBounds(p, Guarded(p, n - 1));
    }
  }

  lemma {:induction false} ShrinksToZero(p: Policy, n: nat)
    requires Sane(p) && p.num < p.den
    ensures Power(p, n) <= Max(0, p.delay - n)
    ensures p.delay >= p.maxDelay > 0 && n > 0 ==> RetryDelay(p, n) <= Max(0, p.delay - n) && RetryDelay(p, n) >= 0
  {
    PowerNonNegative(p, n);
    if n > 0 {
      ShrinksToZero(p, n - 1);
      PowerNonNegative(p, n - 1);
      ScaleBounds(p, Power(p, n - 1));
      if p.delay >= p.maxDelay > 0 {
        ScaleBounds(p, RetryDelay(p, n - 1));
      }
    }
  }

  /** A base delay that is not below the cap is never multiplied: every later delay is the cap. */
  lemma DelayAtCap(p: Policy, n: nat)
    requires p.delay >= p.maxDelay && n > 0
    ensures RestartDelay(p, n) == p.maxDelay
  {
    GuardedStays(p, 0, n);
  }

  ghost predicate EqualsCappedPower(p: Policy) {
    forall n: nat :: n > 0 ==> RestartDelay(p, n) == Min(Power(p, n), p.maxDelay)
  }

  ghost predicate AgreesWithRetry(p: Policy) {
    forall k: nat :: RestartDelay(p, k) == RetryDelay(p, k)
  }

  /** The loop that stops early computes min(f^n(delay), maxDelay) for every count
      exactly when the cap is stable. */
  lemma CappedPowerIff(p: Policy)
    requires Sane(p)
    ensures EqualsCappedPower(p) <==> CapIsStable(p)
  {
    if CapIsStable(p) {
      forall n: nat | n > 0 ensures RestartDelay(p, n) == Min(Power(p, n), p.maxDelay) {
        CappedPower(p, n);
      }
    } else {
      GuardedStays(p, 0, p.delay);
      ShrinksToZero(p, p.delay);
      assert RestartDelay(p, p.delay) != Min(Power(p, p.delay), p.maxDelay);
    }
  }

  lemma {:induction false} RetryIsCappedPower(p: Policy, k: nat)
    requires Sane(p) && CapIsStable(p) && k > 0
    ensures RetryDelay(p, k) == Min(Power(p, k), p.maxDelay)
  {
    PowerNonNegative(p, k - 1);
    ScaleBounds(p, p.maxDelay);
    if k > 1 {
      RetryIsCappedPower(p, k - 1);
      if Power(p, k - 1) > p.maxDelay {
        ScaleMonotone(p, p.maxDelay, Power(p, k - 1));
      }
    }
  }

  /** Restart loop and retry interceptor wait equally long at every attempt, under the same condition. */
  lemma RetryAgreementIff(p: Policy)
    requires Sane(p)
    ensures AgreesWithRetry(p) <==> CapIsStable(p)
  {
    if CapIsStable(p) {
      forall k: nat ensures RestartDelay(p, k) == RetryDelay(p, k) {
        if k > 0 {
          CappedPower(p, k);
          RetryIsCappedPower(p, k);
        }
      }
    } else {
      GuardedStays(p, 0, p.delay);
      ShrinksToZero(p, p.delay);
      assert RestartDelay(p, p.delay) != RetryDelay(p, p.delay);
    }
  }

  // ----- monotonicity and size

  lemma {:induction false} PowerMonotone(p: Policy, m: nat, n: nat)
    requires Sane(p) && p.num >= p.den && m <= n
    ensures Power(p, m) <= Power(p, n)
  {
    if m < n {
      PowerMonotone(p, m, n - 1);
      PowerNonNegative(p, n - 1);
      ScaleBounds(p, Power(p, n - 1));
    }
  }

  lemma RestartDelayMonotone(p: Policy, m: nat, n: nat)
    requires Sane(p) && p.num >= p.den && 0 < m <= n
    ensures RestartDelay(p, m) <= RestartDelay(p, n)
  {
    CappedPower(p, m);
    CappedPower(p, n);
    PowerMonotone(p, m, n);
  }

  ghost predicate NeverShrinks(p: Policy) {
    forall m: nat, n: nat :: m <= n ==> RestartDelay(p, m) <= RestartDelay(p, n)
  }

  /** Count zero returns the base delay uncapped, so the whole sequence is monotone and capped
      exactly when the base delay already respects the cap. */
  lemma NeverShrinksIff(p: Policy)
    requires Sane(p) && p.num >= p.den
    ensures NeverShrinks(p) <==> p.delay <= p.maxDelay
    ensures (forall n: nat :: RestartDelay(p, n) <= p.maxDelay) <==> p.delay <= p.maxDelay
  {
    assert RestartDelay(p, 0) == p.delay && RestartDelay(p, 1) <= p.maxDelay;
    if p.delay <= p.maxDelay {
      forall m: nat, n: nat | m <= n ensures RestartDelay(p, m) <= RestartDelay(p, n) {
        if m > 0 {
          RestartDelayMonotone(p, m, n);
        } else if n > 0 {
          CappedPower(p, n);
          PowerMonotone(p, 0, n);
        }
      }
    }
  }

  /** Every value the loop holds, before the final cap, stays within one multiplication of the cap. */
  lemma {:induction false} IntermediateBound(p: Policy, n: nat)
    requires Sane(p)
    ensures 0 <= Guarded(p, n) <= Max(p.delay, Scale(p, p.maxDelay))
  {
    if n > 0 {
      IntermediateBound(p, n - 1);
      var g := Guarded(p, n - 1);
      ScaleBounds(p, g);
      if g < p.maxDelay { ScaleMonotone(p, g, p.maxDelay); }
    }
  }

  // ----- retryUnaryInterceptor

  /** The sleeps, one from the other: the first is the initial delay as it is, each later one the scaled and
      capped one before it. */
  lemma SleepsFollow(p: Policy, sleeps: seq<int>)
    requires forall i :: 0 <= i < |sleeps| ==> sleeps[i] == RetryDelay(p, i)
    ensures sleeps != [] ==> sleeps[0] == p.delay
    ensures forall i :: 0 < i < |sleeps| ==>
              var next := Scale(p, sleeps[i - 1]);
              sleeps[i] == if next > p.maxDelay then p.maxDelay else next
  {
  }

  datatype Invocation = Succeeded | Retryable | Fatal
  datatype Verdict = Ok | FatalError | ContextError | Exhausted

  /** Attempt i failed in a way that is retried, and the caller's context was still alive after it. */
  predicate TriesOn(invoke: nat -> Invocation, cancelled: nat -> bool, i: nat) {
    invoke(i).Retryable? && !cancelled(i)
  }

  method RetryUnary(p: Policy, maxRetries: int, invoke: nat -> Invocation, cancelled: nat -> bool)
    returns (verdict: Verdict, attempts: nat, sleeps: seq<int>)
    ensures attempts <= Max(0, maxRetries + 1)
    ensures attempts == 0 <==> maxRetries < 0
    ensures forall i :: 0 <= i < attempts - 1 ==> TriesOn(invoke, cancelled, i)
    ensures attempts == 0 ==> verdict == Exhausted
    ensures attempts > 0 ==> verdict == (match invoke(attempts - 1)
                                         case Succeeded => Ok
                                         case Fatal => FatalError
                                         case Retryable => if attempts - 1 == maxRetries then Exhausted
                                                           else ContextError)
    ensures verdict == ContextError ==> cancelled(attempts - 1)
    ensures |sleeps| == Max(0, attempts - 1)
    ensures forall i :: 0 <= i < |sleeps| ==> sleeps[i] == RetryDelay(p, i)
  {
    sleeps, attempts := [], 0;
    var delay := p.delay;
    var attempt := 0;
    while attempt <= maxRetries
      invariant attempt == attempts <= Max(0, maxRetries + 1)
      invariant forall i :: 0 <= i < attempts ==> TriesOn(invoke, cancelled, i)
      invariant attempt == 0 || attempt <= maxRetries
      invariant |sleeps| == attempts && forall i :: 0 <= i < |sleeps| ==> sleeps[i] == RetryDelay(p, i)
      invariant delay == RetryDelay(p, attempt)
    {
      var err := invoke(attempt);
      attempts := attempt + 1;
      if err.Succeeded? { return Ok, attempts, sleeps; }
      if err.Fatal? { return FatalError, attempts, sleeps; }
      if attempt == maxRetries { return Exhausted, attempts, sleeps; }
      if cancelled(attempt) { return ContextError, attempts, sleeps; }
      sleeps := sleeps + [delay];
      delay := Scale(p, delay);
      if delay > p.maxDelay { delay := p.maxDelay; }
      attempt := attempt + 1;
    }
    return Exhausted, attempts, sleeps;
  }
}
