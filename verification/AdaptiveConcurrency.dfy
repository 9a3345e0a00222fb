/** The adaptive concurrency controller, called by one worker at a time. */
module AdaptiveController {
  import opened Basics

  const SCALE_UP_THRESHOLD: nat := 10
  const MAX_BACKOFF_MS: nat := 30_000
  const FIRST_BACKOFF_MS: nat := 500
  const MIN_BATCH: nat := 5
  const MAX_BATCH: nat := 100

  function Min(a: nat, b: nat): nat { if a < b then a else b }

  function Max(a: nat, b: nat): nat { if a < b then b else a }

  datatype Limits = Limits(min: nat, max: nat)

  // ----- the values that a single exchange installs

  function Decay(backoff: nat): nat { backoff * 3 / 4 }

  function Raise(backoff: nat): nat {
    if backoff == 0 then FIRST_BACKOFF_MS else Min(MAX_BACKOFF_MS, backoff * 2)
  }

  function Up(l: Limits, current: nat): nat { Min(l.max, current + Max(1, current / 5)) }

  function Halve(l: Limits, current: nat): nat { Max(l.min, current / 2) }

  function Trim(l: Limits, current: nat): nat {
    Max(l.min, SaturatingSub(current, Max(1, current / 10)))
  }

  function BatchUp(batch: nat): nat { Min(MAX_BATCH, batch + Max(5, batch / 5)) }

  function BatchDown(batch: nat): nat { Max(MIN_BATCH, batch / 2) }

  // ----- one call at a time

  datatype State = State(current: nat, successes: nat, backoff: nat, batch: nat, rateLimits: nat)

  datatype Call = Success | RateLimit | Error

  function Initial(initial: nat): State { State(initial, 0, 0, 50, 0) }

  function AfterSuccess(l: Limits, s: State): State {
    var decayed := s.(backoff := Decay(s.backoff), successes := s.successes + 1);
    if s.successes + 1 < SCALE_UP_THRESHOLD then decayed
    else decayed.(successes := 0,
                  current := if s.current < l.max then Up(l, s.current) else s.current,
                  batch := if s.batch < MAX_BATCH then BatchUp(s.batch) else s.batch)
  }

  function AfterRateLimit(l: Limits, s: State): State {
    State(if s.current > l.min then Halve(l, s.current) else s.current,
          0, Raise(s.backoff), BatchDown(s.batch), (s.rateLimits + 1) % U64)
  }

  function AfterError(l: Limits, s: State): State {
    s.(successes := 0, current := if s.current > l.min then Trim(l, s.current) else s.current)
  }

  function After(l: Limits, s: State, call: Call): State {
    match call
    case Success => AfterSuccess(l, s)
    case RateLimit => AfterRateLimit(l, s)
    case Error => AfterError(l, s)
  }

  function AfterAll(l: Limits, s: State, calls: seq<Call>): State {
    if calls == [] then s else After(l, AfterAll(l, s, calls[..|calls| - 1]), calls[|calls| - 1])
  }

  /** What every state keeps: `current` stays between the configured bounds widened by the start value. */
  ghost predicate InBounds(l: Limits, initial: nat, s: State) {
    && Min(initial, l.min) <= s.current <= Max(initial, l.max)
    && s.successes < SCALE_UP_THRESHOLD
    && s.backoff <= MAX_BACKOFF_MS
    && MIN_BATCH <= s.batch <= MAX_BATCH
  }

  class AdaptiveConcurrency {
    const limits: Limits
    var current: nat
    var successes: nat
    var backoff: nat
    var batch: nat
    var rateLimits: nat

    ghost function Value(): State reads this { State(current, successes, backoff, batch, rateLimits) }

    constructor (initial: nat, min: nat, max: nat)
      ensures limits == Limits(min, max) && Value() == Initial(initial)
      ensures InBounds(limits, initial, Value())
      ensures current == initial && batch == 50 && successes == backoff == rateLimits == 0
    {
      limits := Limits(min, max);
      current, successes, backoff, batch, rateLimits := initial, 0, 0, 50, 0;
    }

    method RecordSuccess()
      modifies this
      ensures Value() == After(limits, old(Value()), Success)
      ensures forall initial :: old(InBounds(limits, initial, Value())) ==> InBounds(limits, initial, Value())
    {
      if backoff > 0 {
        backoff := backoff * 3 / 4;
      }
      successes := successes + 1;
      if successes >= SCALE_UP_THRESHOLD {
        successes := 0;
        if current < limits.max {
          var increase := Max(1, current / 5);
          current := Min(limits.max, current + increase);
        }
        if batch < MAX_BATCH {
          var increase := Max(5, batch / 5);
          batch := Min(MAX_BATCH, batch + increase);
        }
      }
    }

    method RecordRateLimit()
      modifies this
      ensures Value() == After(limits, old(Value()), RateLimit)
      ensures forall initial :: old(InBounds(limits, initial, Value())) ==> InBounds(limits, initial, Value())
    {
      successes := 0;
      rateLimits := (rateLimits + 1) % U64;
      backoff := if backoff == 0 then 500 else Min(MAX_BACKOFF_MS, backoff * 2);
      batch := Max(MIN_BATCH, batch / 2);
      if current > limits.min {
        current := Max(limits.min, current / 2);
      }
    }

    method RecordError()
      modifies this
      ensures Value() == After(limits, old(Value()), Error)
      ensures forall initial :: old(InBounds(limits, initial, Value())) ==> InBounds(limits, initial, Value())
    {
      successes := 0;
      if current > limits.min {
        var decrease := Max(1, current / 10);
        current := Max(limits.min, SaturatingSub(current, decrease));
      }
    }
  }

  // ----- whole runs

  lemma AfterKeepsBounds(l: Limits, initial: nat, s: State, call: Call)
    requires InBounds(l, initial, s)
    ensures InBounds(l, initial, After(l, s, call))
  {
  }

  /** Bounds over every sequence of calls, for any start value and any limits. */
  lemma {:induction false} RunKeepsBounds(l: Limits, initial: nat, calls: seq<Call>)
    ensures InBounds(l, initial, AfterAll(l, Initial(initial), calls))
  {
    if calls != [] {
      RunKeepsBounds(l, initial, calls[..|calls| - 1]);
      AfterKeepsBounds(l, initial, AfterAll(l, Initial(initial), calls[..|calls| - 1]), calls[|calls| - 1]);
    }
  }

  function Repeat(call: Call, n: nat): (r: seq<Call>)
    ensures |r| == n && forall i | 0 <= i < n :: r[i] == call
  {
    if n == 0 then [] else Repeat(call, n - 1) + [call]
  }

  /** The state after `n` calls of one kind. */
  function Streak(l: Limits, s: State, call: Call, n: nat): State {
    AfterAll(l, s, Repeat(call, n))
  }

  lemma StreakNext(l: Limits, s: State, call: Call, n: nat)
    ensures Streak(l, s, call, 0) == s
    ensures Streak(l, s, call, n + 1) == After(l, Streak(l, s, call, n), call)
  {
    assert Repeat(call, n + 1)[..n] == Repeat(call, n);
  }

  // ----- a streak of successes

  function DecayTimes(backoff: nat, n: nat): nat {
    if n == 0 then backoff else Decay(DecayTimes(backoff, n - 1))
  }

  lemma {:induction false} DecayMonotone(a: nat, b: nat, n: nat)
    requires a <= b
    ensures DecayTimes(a, n) <= DecayTimes(b, n)
  {
    if n > 0 {
      DecayMonotone(a, b, n - 1);
    }
  }

  lemma {:induction false} DecaySplits(b: nat, m: nat, n: nat)
    ensures DecayTimes(b, m + n) == DecayTimes(DecayTimes(b, m), n)
  {
    if n > 0 {
      DecaySplits(b, m, n - 1);
    }
  }

  /** A list of values, each the decay of the one before, is the list of iterated decays. */
  lemma {:induction false} DecayPath(path: seq<nat>, i: nat)
    requires i < |path| && forall k | 0 <= k < i :: path[k + 1] == Decay(path[k])
    ensures path[i] == DecayTimes(path[0], i)
  {
    if i > 0 {
      DecayPath(path, i - 1);
    }
  }

  lemma DecayFromTop()
    ensures DecayTimes(MAX_BACKOFF_MS, 33) == 1 && DecayTimes(MAX_BACKOFF_MS, 34) == 0
  {
    hide DecayTimes;
    DecayPath([30000, 22500, 16875, 12656, 9492, 7119, 5339], 6);
    DecayPath([5339, 4004, 3003, 2252, 1689, 1266, 949], 6);
    DecayPath([949, 711, 533, 399, 299, 224, 168], 6);
    DecayPath([168, 126, 94, 70, 52, 39, 29], 6);
    DecayPath([29, 21, 15, 11, 8, 6, 4], 6);
    DecayPath([4, 3, 2, 1], 3);
    DecaySplits(30_000, 6, 6);
    DecaySplits(30_000, 12, 6);
    DecaySplits(30_000, 18, 6);
    DecaySplits(30_000, 24, 6);
    DecaySplits(30_000, 30, 3);
    DecayLast(MAX_BACKOFF_MS, 33);
  }

  lemma DecayLast(b: nat, n: nat)
    ensures DecayTimes(b, n + 1) == Decay(DecayTimes(b, n))
  {
  }

  lemma {:induction false} StreakDecays(l: Limits, s: State, n: nat)
    ensures Streak(l, s, Success, n).backoff == DecayTimes(s.backoff, n)
  {
    StreakNext(l, s, Success, if n == 0 then 0 else n - 1);
    if n > 0 {
      StreakDecays(l, s, n - 1);
    }
  }

  /** Thirty-four successes in a row clear every backoff that the controller can reach, and from the
      highest one thirty-three do not. */
  lemma {:induction false} SuccessesClearBackoff(l: Limits, initial: nat, s: State, n: nat)
    requires InBounds(l, initial, s)
    ensures n >= 34 ==> Streak(l, s, Success, n).backoff == 0
    ensures n == 33 && s.backoff == MAX_BACKOFF_MS ==> Streak(l, s, Success, n).backoff == 1
  {
    StreakDecays(l, s, n);
    DecayFromTop();
    if n >= 34 {
      DecayMonotone(s.backoff, MAX_BACKOFF_MS, 34);
      DecaySplits(s.backoff, 34, n - 34);
      DecayOfZero(n - 34);
    }
  }

  lemma {:induction false} DecayOfZero(n: nat)
    ensures DecayTimes(0, n) == 0
  {
    if n > 0 { DecayOfZero(n - 1); }
  }

  /** Ten successes for every missing step, less those already counted, bring concurrency to the maximum. */
  lemma {:induction false} SuccessesReachMax(l: Limits, s: State, n: nat)
    requires s.current <= l.max && s.successes < SCALE_UP_THRESHOLD
    requires n + s.successes >= 10 * (l.max - s.current)
    ensures Streak(l, s, Success, n).current == l.max
    decreases n
  {
    if n == 0 {
      StreakNext(l, s, Success, 0);
    } else {
      StreakShift(l, s, Success, n - 1);
      var t := After(l, s, Success);
      if s.current == l.max {
        assert t.current == l.max;
        SuccessesReachMax(l, t, n - 1);
      } else {
        SuccessesReachMax(l, t, n - 1);
      }
    }
  }

  lemma {:induction false} StreakShift(l: Limits, s: State, call: Call, n: nat)
    ensures Streak(l, s, call, n + 1) == Streak(l, After(l, s, call), call, n)
  {
    StreakNext(l, s, call, n);
    if n == 0 {
      StreakNext(l, s, call, 0);
      StreakNext(l, After(l, s, call), call, 0);
    } else {
      StreakShift(l, s, call, n - 1);
      StreakNext(l, After(l, s, call), call, n - 1);
    }
  }

  // ----- a streak of rate limits

  function Pow2(n: nat): (r: nat)
    ensures r >= 1
  {
    if n == 0 then 1 else 2 * Pow2(n - 1)
  }

  lemma {:induction false} BackoffStreak(l: Limits, s: State, n: nat)
    requires s.backoff <= MAX_BACKOFF_MS
    ensures var t := Streak(l, s, RateLimit, n);
            t.backoff <= MAX_BACKOFF_MS && (n > 0 ==> t.backoff >= Min(MAX_BACKOFF_MS, Pow2(n)))
  {
    hide Streak;
    if n == 0 {
      StreakNext(l, s, RateLimit, 0);
    } else {
      StreakNext(l, s, RateLimit, n - 1);
      BackoffStreak(l, s, n - 1);
    }
  }

  lemma {:induction false} BatchStreak(l: Limits, s: State, n: nat)
    requires s.batch >= MIN_BATCH
    ensures Streak(l, s, RateLimit, n).batch == Max(MIN_BATCH, Quotient(s.batch, Pow2(n)))
  {
    hide Streak, Pow2, Quotient;
    if n == 0 {
      StreakNext(l, s, RateLimit, 0);
      QuotientStart(s.batch);
    } else {
      StreakNext(l, s, RateLimit, n - 1);
      BatchStreak(l, s, n - 1);
      BatchHalves(s.batch, n - 1);
    }
  }

  lemma BatchHalves(x: nat, n: nat)
    ensures BatchDown(Max(MIN_BATCH, Quotient(x, Pow2(n)))) == Max(MIN_BATCH, Quotient(x, Pow2(n + 1)))
  {
    HalvingDivides(x, Pow2(n));
  }

  lemma HalvingDivides(x: nat, d: nat)
    requires d >= 1
    ensures x / d / 2 == x / (2 * d)
  {
    var q, r := x / d, x % d;
    assert x == q * d + r;
    var h, b := q / 2, q % 2;
    assert q == 2 * h + b;
    assert x == h * (2 * d) + (b * d + r) by {
      assert q * d == (2 * h + b) * d == h * (2 * d) + b * d;
    }
    assert 0 <= b * d + r < 2 * d;
    QuotientIs(x, 2 * d, h, b * d + r);
  }

  lemma QuotientIs(x: nat, d: nat, q: nat, r: nat)
    requires d >= 1 && x == q * d + r && r < d
    ensures x / d == q
  {
    var q' := x / d;
    assert x == q' * d + x % d;
    if q' > q { MulMonotone(q + 1, q', d); }
    if q' < q { MulMonotone(q' + 1, q, d); }
  }

  lemma SmallQuotient(x: nat, d: nat)
    requires x < d
    ensures x / d == 0
  {
  }

  /** Fifteen rate limits in a row pin the backoff at thirty seconds and the batch size at five. */
  lemma {:induction false} RateLimitsPin(l: Limits, initial: nat, s: State, n: nat)
    requires InBounds(l, initial, s) && n >= 15
    ensures var t := Streak(l, s, RateLimit, n); t.backoff == MAX_BACKOFF_MS && t.batch == MIN_BATCH
  {
    BackoffStreak(l, s, n);
    BatchStreak(l, s, n);
    Pow2Grows(15, n);
    assert Pow2(15) == 32768;
    SmallQuotient(s.batch, Pow2(n));
  }

  lemma {:induction false} Pow2Grows(m: nat, n: nat)
    requires m <= n
    ensures Pow2(m) <= Pow2(n)
  {
    if m < n { Pow2Grows(m, n - 1); }
  }

  /** Rate limits bring concurrency to the minimum as soon as their number outgrows log2 of the start. */
  lemma {:induction false} RateLimitsReachMin(l: Limits, s: State, n: nat)
    requires l.min <= s.current < Pow2(n)
    ensures Streak(l, s, RateLimit, n).current == l.min
  {
    RateLimitsHalve(l, s, n);
    SmallQuotient(s.current, Pow2(n));
  }

  lemma {:induction false} RateLimitsHalve(l: Limits, s: State, n: nat)
    requires l.min <= s.current
    ensures Streak(l, s, RateLimit, n).current == Max(l.min, Quotient(s.current, Pow2(n)))
  {
    hide Streak, Pow2, Quotient;
    if n == 0 {
      StreakNext(l, s, RateLimit, 0);
      QuotientStart(s.current);
    } else {
      StreakNext(l, s, RateLimit, n - 1);
      RateLimitsHalve(l, s, n - 1);
      HalveAgain(l, s.current, n - 1);
    }
  }

  function Quotient(x: nat, d: nat): nat
    requires d >= 1
  {
    x / d
  }

  lemma QuotientStart(x: nat)
    ensures Quotient(x, Pow2(0)) == x
  {
  }

  lemma HalveAgain(l: Limits, x: nat, n: nat)
    ensures var c := Max(l.min, Quotient(x, Pow2(n)));
            (if c > l.min then Halve(l, c) else c) == Max(l.min, Quotient(x, Pow2(n + 1)))
  {
    HalvingDivides(x, Pow2(n));
  }

  // ----- what one call does, in numbers

  /** `part` is a fifth, a tenth and so on of `whole`, rounded down, but not less than `least`. */
  ghost predicate IsShare(part: nat, whole: nat, divisor: nat, least: nat) {
    part >= least && divisor * part + divisor > whole && (part > least ==> divisor * part <= whole)
  }

  lemma ShareIs(whole: nat, divisor: nat, least: nat)
    requires divisor >= 1
    ensures IsShare(Max(least, whole / divisor), whole, divisor, least)
  {
    var q := whole / divisor;
    assert whole == divisor * q + whole % divisor;
    if q < least {
      MulMonotone(q, least, divisor);
    }
  }

  /** `b` is `a` raised by a fifth, at least by `least`, up to `top`. */
  ghost predicate Rises(a: nat, b: nat, least: nat, top: nat) {
    exists up: nat :: IsShare(up, a, 5, least) && b == if a + up < top then a + up else top
  }

  /** `b` is `a` lowered by a tenth, at least by 1, down to `bottom`. */
  ghost predicate Falls(a: nat, b: nat, bottom: nat) {
    exists down: nat :: IsShare(down, a, 10, 1) && b == if a > down + bottom then a - down else bottom
  }

  lemma UpRises(l: Limits, a: nat)
    ensures Rises(a, Up(l, a), 1, l.max)
  {
    ShareIs(a, 5, 1);
    hide IsShare;
  }

  lemma BatchRises(a: nat)
    ensures Rises(a, BatchUp(a), 5, 100)
  {
    ShareIs(a, 5, 5);
    hide IsShare;
  }

  lemma TrimFalls(l: Limits, a: nat)
    ensures Falls(a, Trim(l, a), l.min)
  {
    ShareIs(a, 10, 1);
    hide IsShare;
  }

  /** Every success takes a quarter off the backoff, rounded up. The tenth in a row raises a concurrency below the
      maximum by a fifth, at least by 1, and a batch below 100 by a fifth, at least by 5, and stops at those limits;
      the others change neither. */
  lemma {:induction false} SuccessMeaning(l: Limits, s: State)
    requires s.successes < 10
    ensures var t := After(l, s, Success);
            && 4 * t.backoff <= 3 * s.backoff < 4 * t.backoff + 4
            && t.rateLimits == s.rateLimits
            && t.successes == (if s.successes == 9 then 0 else s.successes + 1)
            && (s.successes < 9 || s.current >= l.max ==> t.current == s.current)
            && (s.successes < 9 || s.batch >= 100 ==> t.batch == s.batch)
            && (s.successes == 9 && s.current < l.max ==> Rises(s.current, t.current, 1, l.max))
            && (s.successes == 9 && s.batch < 100 ==> Rises(s.batch, t.batch, 5, 100))
  {
    UpRises(l, s.current);
    BatchRises(s.batch);
    hide Rises, Up, BatchUp;
  }

  /** A rate limit doubles the backoff, starting at 500 and ending at 30000, halves the batch down to 5 and a
      concurrency above the minimum down to that, clears the successes and is counted modulo 2^64. */
  lemma {:induction false} RateLimitMeaning(l: Limits, s: State)
    ensures var t := After(l, s, RateLimit);
            && t.backoff == (if s.backoff == 0 then 500 else if s.backoff < 15_000 then 2 * s.backoff else 30_000)
            && t.successes == 0 && t.rateLimits == (s.rateLimits + 1) % 0x1_0000_0000_0000_0000
            && IsShare(t.batch, s.batch, 2, 5)
            && (s.current <= l.min ==> t.current == s.current)
            && (s.current > l.min ==> IsShare(t.current, s.current, 2, l.min))
  {
    ShareIs(s.batch, 2, 5);
    ShareIs(s.current, 2, l.min);
    hide IsShare;
  }

  /** An error takes a tenth off a concurrency above the minimum, at least 1, down to the minimum. It clears the
      successes and leaves backoff, batch and counter alone. */
  lemma {:induction false} ErrorMeaning(l: Limits, s: State)
    ensures var t := After(l, s, Error);
            && t.successes == 0 && t.backoff == s.backoff && t.batch == s.batch && t.rateLimits == s.rateLimits
            && (s.current <= l.min ==> t.current == s.current)
            && (s.current > l.min ==> Falls(s.current, t.current, l.min))
  {
    TrimFalls(l, s.current);
    hide Falls, Trim;
  }

  /** As many errors as there are steps to the minimum reach it. */
  lemma {:induction false} ErrorsReachMin(l: Limits, s: State, n: nat)
    requires l.min <= s.current && n >= s.current - l.min
    ensures Streak(l, s, Error, n).current == l.min
    decreases n
  {
    if n == 0 {
      StreakNext(l, s, Error, 0);
    } else {
      StreakShift(l, s, Error, n - 1);
      hide Streak;
      ErrorsReachMin(l, After(l, s, Error), n - 1);
    }
  }

  // ----- the batch size under successes

  function GrowTimes(batch: nat, n: nat): nat {
    if n == 0 then batch else Grown(GrowTimes(batch, n - 1))
  }

  function Grown(batch: nat): nat { if batch < MAX_BATCH then BatchUp(batch) else batch }

  lemma {:induction false} GrowMonotone(a: nat, b: nat, n: nat)
    requires a <= b <= MAX_BATCH
    ensures GrowTimes(a, n) <= GrowTimes(b, n) <= MAX_BATCH
  {
    if n > 0 {
      GrowMonotone(a, b, n - 1);
    }
  }

  lemma {:induction false} GrowPath(path: seq<nat>, i: nat)
    requires i < |path| && forall k | 0 <= k < i :: path[k + 1] == Grown(path[k])
    ensures path[i] == GrowTimes(path[0], i)
  {
    if i > 0 {
      GrowPath(path, i - 1);
    }
  }

  lemma GrowFromBottom()
    ensures GrowTimes(5, 11) == 87 && GrowTimes(5, 12) == 100
  {
    var path := [5, 10, 15, 20, 25, 30, 36, 43, 51, 61, 73, 87, 100];
    hide GrowTimes;
    GrowPath(path, 11);
    GrowPath(path, 12);
  }

  lemma {:induction false} GrowPastTop(b: nat, n: nat)
    requires GrowTimes(b, 12) == 100 && n >= 12
    ensures GrowTimes(b, n) == 100
  {
    if n > 12 {
      GrowPastTop(b, n - 1);
    }
  }

  /** The batch after `n` successes has grown once for every tenth of them in a row. */
  lemma {:induction false} StreakGrows(l: Limits, s: State, n: nat)
    requires s.successes < 10
    ensures var t := Streak(l, s, Success, n);
            t.successes == (s.successes + n) % 10 && t.batch == GrowTimes(s.batch, (s.successes + n) / 10)
  {
    hide *;
    if n == 0 {
      StreakNext(l, s, Success, 0);
      NotGrown(s);
    } else {
      StreakNext(l, s, Success, n - 1);
      StreakGrows(l, s, n - 1);
      GrowsOnTenth(l, Streak(l, s, Success, n - 1), s.batch, s.successes + n - 1);
    }
  }

  lemma NotGrown(s: State)
    requires s.successes < 10
    ensures s.successes == (s.successes + 0) % 10 && s.batch == GrowTimes(s.batch, (s.successes + 0) / 10)
  {
  }

  lemma GrowsOnTenth(l: Limits, t: State, batch: nat, m: nat)
    requires t.successes == m % 10 && t.batch == GrowTimes(batch, m / 10)
    ensures var u := After(l, t, Success);
            u.successes == (m + 1) % 10 && u.batch == GrowTimes(batch, (m + 1) / 10)
  {
    hide BatchUp, Up, Decay;
    if m % 10 == 9 {
      assert (m + 1) % 10 == 0 && (m + 1) / 10 == m / 10 + 1;
    } else {
      assert (m + 1) % 10 == m % 10 + 1 && (m + 1) / 10 == m / 10;
    }
  }

  /** A hundred and twenty successes in a row, counted with those before, bring every batch size that the controller
      can reach to 100, and from the smallest one a hundred and nineteen do not. */
  lemma {:induction false} SuccessesFillBatch(l: Limits, initial: nat, s: State, n: nat)
    requires InBounds(l, initial, s)
    ensures s.successes + n >= 120 ==> Streak(l, s, Success, n).batch == 100
    ensures s.successes + n == 119 && s.batch == 5 ==> Streak(l, s, Success, n).batch == 87
  {
    StreakGrows(l, s, n);
    GrowFromBottom();
    hide Streak, GrowTimes;
    if s.successes + n >= 120 {
      GrowMonotone(5, s.batch, 12);
      GrowPastTop(s.batch, (s.successes + n) / 10);
    }
  }
}
