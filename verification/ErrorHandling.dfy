/** Retry decisions and backoff delays of the validation workers' error handler. */
module ErrorHandling {
  import opened Prelude

  datatype Category =
    | Timeout | RateLimit | Network | BrokerUnavailable
    | InvalidMessage | SchemaError | ValidatorRejected
    | WitnessFailure | IntegrityViolation
    | Duplicate
    | Unknown

  datatype Action = Retry | DeadLetter | Propagate | Skip

  datatype Decision = Decision(action: Action, category: Category, delay: real)

  datatype Handler = Handler(maxAttempts: int, baseDelay: real, maxDelay: real)

  function Base(h: Handler, c: Category): real {
    match c
    case Timeout => 2.0
    case RateLimit => 5.0
    case Network => 1.0
    case BrokerUnavailable => 3.0
    case _ => h.baseDelay
  }

  function Pow2(n: nat): real {
    if n == 0 then 1.0 else 2.0 * Pow2(n - 1)
  }

  /** A uniform draw from a to b; `t` in [0, 1] is the random number. */
  function Uniform(a: real, b: real, t: real): real {
    a + (b - a) * t
  }

  /** Decorrelated jitter; the first delay is the base, uncapped. */
  function Delay(base: real, maxDelay: real, attempt: int, t: real): real {
    if attempt <= 1 then base
    else
      var drawn := Uniform(base, base * Pow2(attempt - 2) * 3.0, t);
      if drawn < maxDelay then drawn else maxDelay
  }

  predicate Permanent(c: Category) {
    c == InvalidMessage || c == SchemaError || c == ValidatorRejected
  }

  predicate Constitutional(c: Category) {
    c == WitnessFailure || c == IntegrityViolation
  }

  function Handle(h: Handler, c: Category, attempt: int, t: real): Decision {
    if Constitutional(c) then Decision(Propagate, c, 1.0)
    else if c == Duplicate then Decision(Skip, c, 1.0)
    else if Permanent(c) then Decision(DeadLetter, c, 1.0)
    else if attempt < h.maxAttempts then Decision(Retry, c, Delay(Base(h, c), h.maxDelay, attempt, t))
    else Decision(DeadLetter, c, 1.0)
  }

  // ---------- delays ----------

  lemma {:induction false} Pow2AtLeastOne(n: nat)
    ensures Pow2(n) >= 1.0
  {
    if n > 0 {
      Pow2AtLeastOne(n - 1);
    }
  }

  lemma NonNegative(x: real, y: real)
    requires x >= 0.0 && y >= 0.0
    ensures x * y >= 0.0
  {
  }

  lemma DrawInRange(base: real, top: real, t: real)
    requires base <= top && 0.0 <= t <= 1.0
    ensures base <= Uniform(base, top, t) <= top
  {
    var width := top - base;
    NonNegative(width, t);
    NonNegative(width, 1.0 - t);
    assert width * (1.0 - t) == width - width * t;
  }

  /** A delay never exceeds three times the previous exponential step. */
  lemma DelayBound(base: real, maxDelay: real, attempt: int, t: real)
    requires base >= 0.0 && attempt >= 2 && 0.0 <= t <= 1.0
    ensures var top := 3.0 * base * Pow2(attempt - 2);
            Delay(base, maxDelay, attempt, t) <= top
            && (base <= maxDelay ==> base <= Delay(base, maxDelay, attempt, t))
  {
    var p := Pow2(attempt - 2);
    Pow2AtLeastOne(attempt - 2);
    NonNegative(base, 3.0 * p - 1.0);
    assert base * (3.0 * p - 1.0) == base * p * 3.0 - base;
    assert base * p * 3.0 == 3.0 * base * p;
    DrawInRange(base, base * p * 3.0, t);
  }

  ghost predicate AlwaysInRange(base: real, maxDelay: real) {
    forall attempt: int, t: real :: 0.0 <= t <= 1.0 ==> base <= Delay(base, maxDelay, attempt, t) <= maxDelay
  }

  /** All delays lie between the base and the maximum, for every attempt and draw, exactly
      when the base is neither negative nor above the maximum. */
  lemma DelaysInRangeExactly(base: real, maxDelay: real)
    ensures AlwaysInRange(base, maxDelay) <==> 0.0 <= base <= maxDelay
  {
    if 0.0 <= base <= maxDelay {
      forall attempt: int, t: real | 0.0 <= t <= 1.0
        ensures base <= Delay(base, maxDelay, attempt, t) <= maxDelay
      {
        if attempt >= 2 {
          DelayBound(base, maxDelay, attempt, t);
        }
      }
    }
    if AlwaysInRange(base, maxDelay) {
      assert base <= Delay(base, maxDelay, 1, 0.0) <= maxDelay;
      assert base <= Delay(base, maxDelay, 2, 1.0) <= maxDelay;
      assert Pow2(0) == 1.0;
    }
  }

  function Lesser(a: real, b: real): real {
    if a < b then a else b
  }

  lemma DrawFor(base: real, top: real, d: real) returns (t: real)
    requires base <= d <= top
    ensures 0.0 <= t <= 1.0 && Uniform(base, top, t) == d
  {
    if base == top {
      t := 0.0;
    } else {
      t := (d - base) / (top - base);
      assert (top - base) * t == d - base;
      Quotient(d - base, top - base);
    }
  }

  lemma Quotient(a: real, b: real)
    requires 0.0 <= a <= b && b > 0.0
    ensures 0.0 <= a / b <= 1.0
  {
  }

  /** Some random number draws this delay. */
  ghost predicate Drawable(base: real, maxDelay: real, attempt: int, d: real) {
    exists t: real :: 0.0 <= t <= 1.0 && Delay(base, maxDelay, attempt, t) == d
  }

  /** The delay is some value from the base to the top, or the maximum in place of a greater one. */
  ghost predicate Between(base: real, top: real, maxDelay: real, d: real) {
    exists x: real :: base <= x <= top && d == Lesser(x, maxDelay)
  }

  lemma DrawnBetween(base: real, maxDelay: real, attempt: int, top: real, d: real)
    requires attempt >= 2 && top == base * Pow2(attempt - 2) * 3.0 && base <= top
    requires Drawable(base, maxDelay, attempt, d)
    ensures Between(base, top, maxDelay, d)
  {
    var t: real :| 0.0 <= t <= 1.0 && Delay(base, maxDelay, attempt, t) == d;
    DrawInRange(base, top, t);
    var x := Uniform(base, top, t);
    assert base <= x <= top && d == Lesser(x, maxDelay);
  }

  lemma BetweenDrawn(base: real, maxDelay: real, attempt: int, top: real, d: real)
    requires attempt >= 2 && top == base * Pow2(attempt - 2) * 3.0 && base <= top
    requires Between(base, top, maxDelay, d)
    ensures Drawable(base, maxDelay, attempt, d)
  {
    var x: real :| base <= x <= top && d == Lesser(x, maxDelay);
    var t := DrawFor(base, top, x);
    assert 0.0 <= t <= 1.0 && Delay(base, maxDelay, attempt, t) == d;
  }

  /** After the first attempt, the delays drawn are exactly those from the base to three times
      the previous exponential step, and the maximum in place of any above it. */
  lemma DelaysAttained(base: real, maxDelay: real, attempt: int, d: real)
    requires base >= 0.0 && attempt >= 2
    ensures Drawable(base, maxDelay, attempt, d) <==> Between(base, 3.0 * base * Pow2(attempt - 2), maxDelay, d)
  {
    var p := Pow2(attempt - 2);
    Pow2AtLeastOne(attempt - 2);
    TopIsAbove(base, p);
    if Drawable(base, maxDelay, attempt, d) {
      DrawnBetween(base, maxDelay, attempt, base * p * 3.0, d);
    }
    if Between(base, 3.0 * base * p, maxDelay, d) {
      BetweenDrawn(base, maxDelay, attempt, base * p * 3.0, d);
    }
  }

  lemma TopIsAbove(base: real, p: real)
    requires base >= 0.0 && p >= 1.0
    ensures base <= base * p * 3.0 == 3.0 * base * p
  {
    NonNegative(base, 3.0 * p - 1.0);
    assert base * (3.0 * p - 1.0) == base * p * 3.0 - base;
  }

  // ---------- the documented retry loop ----------

  /** A failed attempt: its category and the random draw for its delay. */
  datatype Failure = Failure(category: Category, draw: real)

  datatype Ending = Succeeded | Stopped(action: Action)

  datatype Handled = Handled(attempts: nat, ending: Ending, delays: seq<real>)

  /** Attempts from number n on; `outcome(n)` is what attempt n meets. */
  function RetryLoop(h: Handler, outcome: nat -> Option<Failure>, n: nat): Handled
    decreases if h.maxAttempts <= n then 0 else h.maxAttempts - n
  {
    match outcome(n)
    case None => Handled(1, Succeeded, [])
    case Some(f) =>
      var d := Handle(h, f.category, n, f.draw);
      if d.action == Retry then
        var rest := RetryLoop(h, outcome, n + 1);
        Handled(1 + rest.attempts, rest.ending, [d.delay] + rest.delays)
      else Handled(1, Stopped(d.action), [])
  }

  /** The errors worth another attempt: those of the transport, and unknown ones. */
  predicate Transient(c: Category) {
    c in {Timeout, RateLimit, Network, BrokerUnavailable, Unknown}
  }

  /** Attempt k fails in a way that is retried. */
  predicate Retried(h: Handler, outcome: nat -> Option<Failure>, k: nat) {
    outcome(k).Some? && Transient(outcome(k).value.category) && k < h.maxAttempts
  }

  /** What the loop reports when attempt k is its last: witness failures and integrity
      violations are propagated, duplicates skipped, everything else is dead-lettered. */
  function EndingAt(outcome: nat -> Option<Failure>, k: nat): Ending {
    match outcome(k)
    case None => Succeeded
    case Some(f) =>
      match f.category
      case WitnessFailure => Stopped(Propagate)
      case IntegrityViolation => Stopped(Propagate)
      case Duplicate => Stopped(Skip)
      case _ => Stopped(DeadLetter)
  }

  /** From attempt n on, the loop stops at the first attempt that succeeds, fails in a way that
      is not transient, or is the last allowed, and reports what happened there. */
  lemma {:induction false} LoopStopsExactly(h: Handler, outcome: nat -> Option<Failure>, n: nat)
    ensures var r := RetryLoop(h, outcome, n);
            && 1 <= r.attempts && |r.delays| == r.attempts - 1
            && (forall k: nat :: n <= k < n + r.attempts - 1 ==> Retried(h, outcome, k))
            && !Retried(h, outcome, n + r.attempts - 1)
            && r.ending == EndingAt(outcome, n + r.attempts - 1)
    decreases if h.maxAttempts <= n then 0 else h.maxAttempts - n
  {
    if Retried(h, outcome, n) {
      LoopStopsExactly(h, outcome, n + 1);
    }
  }

  /** So at most max(1, maxAttempts) attempts are made. */
  lemma AttemptsBounded(h: Handler, outcome: nat -> Option<Failure>)
    ensures RetryLoop(h, outcome, 1).attempts <= if h.maxAttempts < 1 then 1 else h.maxAttempts
  {
    var r := RetryLoop(h, outcome, 1);
    LoopStopsExactly(h, outcome, 1);
    if r.attempts > 1 {
      assert Retried(h, outcome, r.attempts - 1);
    }
  }

  /** The loop sleeps for the delay of each attempt's own category, number and draw. */
  lemma {:induction false} LoopDelays(h: Handler, outcome: nat -> Option<Failure>, n: nat, i: nat)
    requires i < |RetryLoop(h, outcome, n).delays|
    ensures outcome(n + i).Some?
    ensures var f := outcome(n + i).value;
            RetryLoop(h, outcome, n).delays[i] == Delay(Base(h, f.category), h.maxDelay, n + i, f.draw)
    decreases i
  {
    if i > 0 {
      LoopDelays(h, outcome, n + 1, i - 1);
    }
  }

  /** The first sleep is the category's own: two seconds after a timeout, five after a rate
      limit, one after a network error, three when the broker is unavailable, and the
      configured base otherwise. */
  lemma FirstSleep(h: Handler, outcome: nat -> Option<Failure>)
    requires RetryLoop(h, outcome, 1).delays != []
    ensures outcome(1).Some?
    ensures var c, d := outcome(1).value.category, RetryLoop(h, outcome, 1).delays[0];
            && (c == Timeout ==> d == 2.0) && (c == RateLimit ==> d == 5.0)
            && (c == Network ==> d == 1.0) && (c == BrokerUnavailable ==> d == 3.0)
            && (c == Unknown ==> d == h.baseDelay)
  {
    LoopDelays(h, outcome, 1, 0);
  }

  // ---------- how long the loop sleeps ----------

  function Sum(delays: seq<real>): real {
    if delays == [] then 0.0 else Sum(delays[..|delays| - 1]) + delays[|delays| - 1]
  }

  /** The total of the loop's first m delays. */
  function Slept(h: Handler, outcome: nat -> Option<Failure>, m: nat): real
    requires m <= |RetryLoop(h, outcome, 1).delays|
  {
    Sum(RetryLoop(h, outcome, 1).delays[..m])
  }

  /** The sum is at most the first delay and n maxima. */
  ghost predicate WithinCaps(sum: real, first: real, n: nat, cap: real) {
    sum <= first + n as real * cap
  }

  /** The sum is at most the top base and three times the steps of n doublings of it. */
  ghost predicate WithinSteps(sum: real, top: real, n: nat) {
    sum <= top + 3.0 * top * (Pow2(n) - 1.0)
  }

  lemma CapStep(base: real, cap: real, m: real)
    ensures base + m * cap + cap == base + (m + 1.0) * cap
  {
  }

  lemma {:induction false} SumCapped(delays: seq<real>, base: real, cap: real)
    requires delays != [] && delays[0] <= base
    requires forall i :: 1 <= i < |delays| ==> delays[i] <= cap
    ensures WithinCaps(Sum(delays), base, |delays| - 1, cap)
  {
    var front := delays[..|delays| - 1];
    if front == [] {
      assert Sum(front) == 0.0;
    } else {
      SumCapped(front, base, cap);
      CapStep(base, cap, (|front| - 1) as real);
      assert (|delays| - 1) as real == (|front| - 1) as real + 1.0;
    }
  }

  /** Whatever categories the failures have: after the first delay, which is the uncapped base
      of the first failure, every further one costs at most the maximum. */
  lemma TotalDelayCapped(h: Handler, outcome: nat -> Option<Failure>, m: nat)
    requires 1 <= m <= |RetryLoop(h, outcome, 1).delays|
    ensures outcome(1).Some?
    ensures WithinCaps(Slept(h, outcome, m), Base(h, outcome(1).value.category), m - 1, h.maxDelay)
  {
    var delays := RetryLoop(h, outcome, 1).delays[..m];
    LoopDelays(h, outcome, 1, 0);
    forall i | 1 <= i < |delays| ensures delays[i] <= h.maxDelay {
      LoopDelays(h, outcome, 1, i);
    }
    SumCapped(delays, Base(h, outcome(1).value.category), h.maxDelay);
  }

  lemma GeometricStep(top: real, p: real)
    ensures top + 3.0 * top * (p - 1.0) + 3.0 * top * p == top + 3.0 * top * (2.0 * p - 1.0)
  {
    assert 3.0 * top * (p - 1.0) == 3.0 * top * p - 3.0 * top;
    assert 3.0 * top * (2.0 * p - 1.0) == 2.0 * (3.0 * top * p) - 3.0 * top;
  }

  lemma {:induction false} SumGeometric(delays: seq<real>, top: real)
    requires delays != [] && delays[0] <= top
    requires forall i :: 1 <= i < |delays| ==> delays[i] <= 3.0 * top * Pow2(i - 1)
    ensures WithinSteps(Sum(delays), top, |delays| - 1)
  {
    var front := delays[..|delays| - 1];
    if front == [] {
      assert Sum(front) == 0.0;
    } else {
      SumGeometric(front, top);
      GeometricStep(top, Pow2(|front| - 1));
    }
  }

  lemma Scaled(a: real, b: real, p: real)
    requires a <= b && p >= 0.0
    ensures 3.0 * a * p <= 3.0 * b * p
  {
    NonNegative(b - a, p);
    assert 3.0 * b * p - 3.0 * a * p == 3.0 * ((b - a) * p);
  }

  /** Every failure's base lies between 0 and `top`, and its draw is a random number. */
  ghost predicate Drawn(h: Handler, outcome: nat -> Option<Failure>, top: real) {
    forall k: nat :: outcome(k).Some? ==>
      0.0 <= Base(h, outcome(k).value.category) <= top && 0.0 <= outcome(k).value.draw <= 1.0
  }

  /** A delay after the first is at most three times the previous step of the largest base. */
  lemma DelayWithinStep(h: Handler, outcome: nat -> Option<Failure>, top: real, i: nat)
    requires 1 <= i < |RetryLoop(h, outcome, 1).delays| && Drawn(h, outcome, top)
    ensures RetryLoop(h, outcome, 1).delays[i] <= 3.0 * top * Pow2(i - 1)
  {
    LoopDelays(h, outcome, 1, i);
    var f := outcome(1 + i).value;
    CategoryWithinStep(Base(h, f.category), top, h.maxDelay, i, f.draw);
  }

  lemma CategoryWithinStep(base: real, top: real, maxDelay: real, i: nat, t: real)
    requires 0.0 <= base <= top && i >= 1 && 0.0 <= t <= 1.0
    ensures Delay(base, maxDelay, 1 + i, t) <= 3.0 * top * Pow2(i - 1)
  {
    DelayBound(base, maxDelay, 1 + i, t);
    Pow2AtLeastOne(i - 1);
    Scaled(base, top, Pow2(i - 1));
  }

  /** The delays also stay below the sum of the exponential steps of the largest base. */
  lemma TotalDelayGeometric(h: Handler, outcome: nat -> Option<Failure>, top: real, m: nat)
    requires 1 <= m <= |RetryLoop(h, outcome, 1).delays| && Drawn(h, outcome, top)
    ensures WithinSteps(Slept(h, outcome, m), top, m - 1)
  {
    var delays := RetryLoop(h, outcome, 1).delays[..m];
    LoopDelays(h, outcome, 1, 0);
    forall i | 1 <= i < |delays| ensures delays[i] <= 3.0 * top * Pow2(i - 1) {
      DelayWithinStep(h, outcome, top, i);
    }
    SumGeometric(delays, top);
  }

  /** With one category throughout, both bounds are those of its base. */
  lemma OneCategoryDelays(h: Handler, outcome: nat -> Option<Failure>, c: Category, m: nat)
    requires 1 <= m <= |RetryLoop(h, outcome, 1).delays| && Base(h, c) >= 0.0
    requires forall k: nat :: outcome(k).Some? ==>
               outcome(k).value.category == c && 0.0 <= outcome(k).value.draw <= 1.0
    ensures WithinCaps(Slept(h, outcome, m), Base(h, c), m - 1, h.maxDelay)
    ensures WithinSteps(Slept(h, outcome, m), Base(h, c), m - 1)
  {
    TotalDelayCapped(h, outcome, m);
    TotalDelayGeometric(h, outcome, Base(h, c), m);
  }
}
