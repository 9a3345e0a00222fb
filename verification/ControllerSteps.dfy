/** The same controller shared by any number of workers. Every load, exchange, store and increment is a
    step of its own, and steps of different workers interleave freely. Loads are relaxed: one may see any
    value that its field has held so far, not only the newest; an exchange may also fail for no reason. */
module ControllerSteps {
  import opened Basics
  import opened AdaptiveController

  /** Where a worker stands inside a call; `seen` is the value it loaded. */
  datatype Pc =
    | Idle
    | SuccessLoadBackoff
    | SuccessDecay(seen: nat)
    | SuccessCount
    | SuccessReset
    | SuccessLoadCurrent
    | SuccessScale(seen: nat)
    | SuccessLoadBatch
    | SuccessGrow(seen: nat)
    | LimitReset
    | LimitCount
    | LimitLoadBackoff
    | LimitRaise(seen: nat)
    | LimitLoadBatch
    | LimitShrink(seen: nat)
    | LimitLoadCurrent
    | LimitHalve(seen: nat)
    | ErrorReset
    | ErrorLoadCurrent
    | ErrorTrim(seen: nat)

  /** The shared atomics. A field that is changed by exchanges carries every value it has held, newest last. */
  datatype System = System(
    current: seq<nat>,
    backoff: seq<nat>,
    batch: seq<nat>,
    successes: nat,
    rateLimits: nat,
    workers: map<nat, Pc>)

  datatype Event =
    | Begin(worker: nat, call: Call)
    | Go(worker: nat, seen: nat, wins: bool)

  function PcOf(sys: System, w: nat): Pc { if w in sys.workers then sys.workers[w] else Idle }

  function Last(s: seq<nat>): nat { if s == [] then 0 else s[|s| - 1] }

  function Start(initial: nat): System { System([initial], [0], [50], 0, 0, map[]) }

  /** The values that the atomics hold now. */
  function Latest(sys: System): State {
    State(Last(sys.current), sys.successes, Last(sys.backoff), Last(sys.batch), sys.rateLimits)
  }

  predicate Enabled(sys: System, ev: Event) {
    match ev
    case Begin(w, _) => PcOf(sys, w).Idle?
    case Go(w, seen, wins) =>
      match PcOf(sys, w)
      case Idle => false
      case SuccessLoadBackoff | LimitLoadBackoff => seen in sys.backoff
      case SuccessLoadCurrent | LimitLoadCurrent | ErrorLoadCurrent => seen in sys.current
      case SuccessLoadBatch | LimitLoadBatch => seen in sys.batch
      case SuccessDecay(v) => wins ==> Last(sys.backoff) == v
      case LimitRaise(v) => wins ==> Last(sys.backoff) == v
      case SuccessScale(v) => wins ==> Last(sys.current) == v
      case LimitHalve(v) => wins ==> Last(sys.current) == v
      case ErrorTrim(v) => wins ==> Last(sys.current) == v
      case SuccessGrow(v) => wins ==> Last(sys.batch) == v
      case LimitShrink(v) => wins ==> Last(sys.batch) == v
      case _ => true
  }

  function Exchange(history: seq<nat>, value: nat, wins: bool): seq<nat> {
    if wins then history + [value] else history
  }

  function FirstPc(call: Call): Pc {
    match call
    case Success => SuccessLoadBackoff
    case RateLimit => LimitReset
    case Error => ErrorReset
  }

  /** What a step does to the shared fields. */
  function Shared(l: Limits, sys: System, pc: Pc, wins: bool): System {
    match pc
    case SuccessDecay(v) => sys.(backoff := Exchange(sys.backoff, Decay(v), wins))
    case SuccessCount => sys.(successes := sys.successes + 1)
    case SuccessReset => sys.(successes := 0)
    case SuccessScale(v) => sys.(current := Exchange(sys.current, Up(l, v), wins))
    case SuccessGrow(v) => sys.(batch := Exchange(sys.batch, BatchUp(v), wins))
    case LimitReset => sys.(successes := 0)
    case LimitCount => sys.(rateLimits := (sys.rateLimits + 1) % U64)
    case LimitRaise(v) => sys.(backoff := Exchange(sys.backoff, Raise(v), wins))
    case LimitShrink(v) => sys.(batch := Exchange(sys.batch, BatchDown(v), wins))
    case LimitHalve(v) => sys.(current := Exchange(sys.current, Halve(l, v), wins))
    case ErrorReset => sys.(successes := 0)
    case ErrorTrim(v) => sys.(current := Exchange(sys.current, Trim(l, v), wins))
    case _ => sys
  }

  /** Where the worker stands after a step. */
  function NextPc(l: Limits, sys: System, pc: Pc, seen: nat): Pc {
    match pc
    case Idle => Idle
    case SuccessLoadBackoff => if seen > 0 then SuccessDecay(seen) else SuccessCount
    case SuccessDecay(_) => SuccessCount
    case SuccessCount => if sys.successes + 1 >= SCALE_UP_THRESHOLD then SuccessReset else Idle
    case SuccessReset => SuccessLoadCurrent
    case SuccessLoadCurrent => if seen < l.max then SuccessScale(seen) else SuccessLoadBatch
    case SuccessScale(_) => SuccessLoadBatch
    case SuccessLoadBatch => if seen < MAX_BATCH then SuccessGrow(seen) else Idle
    case SuccessGrow(_) => Idle
    case LimitReset => LimitCount
    case LimitCount => LimitLoadBackoff
    case LimitLoadBackoff => LimitRaise(seen)
    case LimitRaise(_) => LimitLoadBatch
    case LimitLoadBatch => LimitShrink(seen)
    case LimitShrink(_) => LimitLoadCurrent
    case LimitLoadCurrent => if seen > l.min then LimitHalve(seen) else Idle
    case LimitHalve(_) => Idle
    case ErrorReset => ErrorLoadCurrent
    case ErrorLoadCurrent => if seen > l.min then ErrorTrim(seen) else Idle
    case ErrorTrim(_) => Idle
  }

  function Apply(l: Limits, sys: System, ev: Event): System {
    match ev
    case Begin(w, call) => sys.(workers := sys.workers[w := FirstPc(call)])
    case Go(w, seen, wins) =>
      var pc := PcOf(sys, w);
      Shared(l, sys, pc, wins).(workers := sys.workers[w := NextPc(l, sys, pc, seen)])
  }

  function Run(l: Limits, initial: nat, events: seq<Event>): System {
    if events == [] then Start(initial)
    else Apply(l, Run(l, initial, events[..|events| - 1]), events[|events| - 1])
  }

  /** Every event is possible where it happens. */
  predicate Possible(l: Limits, initial: nat, events: seq<Event>) {
    events == [] ||
    (Possible(l, initial, events[..|events| - 1]) &&
     Enabled(Run(l, initial, events[..|events| - 1]), events[|events| - 1]))
  }

  // ----- the atomic controller that the fields refine

  ghost predicate CurrentMoves(l: Limits, a: nat, b: nat) {
    (a < l.max && b == Up(l, a)) || (a > l.min && (b == Halve(l, a) || b == Trim(l, a)))
  }

  ghost predicate BackoffMoves(a: nat, b: nat) {
    (a > 0 && b == Decay(a)) || b == Raise(a)
  }

  ghost predicate BatchMoves(a: nat, b: nat) {
    (a < MAX_BATCH && b == BatchUp(a)) || b == BatchDown(a)
  }

  ghost predicate CurrentRun(l: Limits, initial: nat, h: seq<nat>) {
    h != [] && h[0] == initial && forall i | 0 < i < |h| :: CurrentMoves(l, h[i - 1], h[i])
  }

  ghost predicate BackoffRun(h: seq<nat>) {
    h != [] && h[0] == 0 && forall i | 0 < i < |h| :: BackoffMoves(h[i - 1], h[i])
  }

  ghost predicate BatchRun(h: seq<nat>) {
    h != [] && h[0] == 50 && forall i | 0 < i < |h| :: BatchMoves(h[i - 1], h[i])
  }

  /** Every field's history is a run of the atomic controller: each new value is an up, down or decay
      step from the value right before it. */
  ghost predicate Refines(l: Limits, initial: nat, sys: System) {
    CurrentRun(l, initial, sys.current) && BackoffRun(sys.backoff) && BatchRun(sys.batch)
  }

  ghost predicate SeenAllows(l: Limits, pc: Pc) {
    match pc
    case SuccessDecay(v) => v > 0
    case SuccessScale(v) => v < l.max
    case SuccessGrow(v) => v < MAX_BATCH
    case LimitHalve(v) => v > l.min
    case ErrorTrim(v) => v > l.min
    case _ => true
  }

  /** Workers that saw the threshold reached and have not reset the counter yet. */
  ghost function Resetting(workers: map<nat, Pc>): set<nat> {
    set w | w in workers && workers[w].SuccessReset?
  }

  /** Workers inside a rate limit call that is not counted yet. */
  ghost function Uncounted(workers: map<nat, Pc>): set<nat> {
    set w | w in workers && (workers[w].LimitReset? || workers[w].LimitCount?)
  }

  /** The rate limit calls that have begun. */
  ghost function LimitCalls(events: seq<Event>): nat {
    if events == [] then 0
    else
      var last := events[|events| - 1];
      LimitCalls(events[..|events| - 1]) + if last.Begin? && last.call.RateLimit? then 1 else 0
  }

  ghost predicate Inv(l: Limits, initial: nat, sys: System) {
    && Refines(l, initial, sys)
    && (forall w | w in sys.workers :: SeenAllows(l, sys.workers[w]))
    && sys.successes < SCALE_UP_THRESHOLD + |Resetting(sys.workers)|
  }

  // ----- every interleaving

  lemma SetChanges(a: set<nat>, b: set<nat>, w: nat)
    requires forall x | x != w :: x in a <==> x in b
    ensures |b| == |a| + (if w in b then 1 else 0) - (if w in a then 1 else 0)
  {
    assert a - {w} == b - {w};
    assert |a - {w}| == |a| - if w in a then 1 else 0;
    assert |b - {w}| == |b| - if w in b then 1 else 0;
  }

  lemma ResettingChanges(workers: map<nat, Pc>, w: nat, pc: Pc)
    ensures var old_ := if w in workers then workers[w] else Idle;
            |Resetting(workers[w := pc])| == |Resetting(workers)|
              + (if pc.SuccessReset? then 1 else 0) - (if old_.SuccessReset? then 1 else 0)
  {
    SetChanges(Resetting(workers), Resetting(workers[w := pc]), w);
  }

  lemma UncountedChanges(workers: map<nat, Pc>, w: nat, pc: Pc)
    ensures var old_ := if w in workers then workers[w] else Idle;
            |Uncounted(workers[w := pc])| == |Uncounted(workers)|
              + (if pc.LimitReset? || pc.LimitCount? then 1 else 0)
              - (if old_.LimitReset? || old_.LimitCount? then 1 else 0)
  {
    SetChanges(Uncounted(workers), Uncounted(workers[w := pc]), w);
  }

  lemma CurrentNext(l: Limits, initial: nat, h: seq<nat>, v: nat)
    requires CurrentRun(l, initial, h) && CurrentMoves(l, Last(h), v)
    ensures CurrentRun(l, initial, h + [v])
  {
    hide CurrentMoves;
  }

  lemma BackoffNext(h: seq<nat>, v: nat)
    requires BackoffRun(h) && BackoffMoves(Last(h), v)
    ensures BackoffRun(h + [v])
  {
    hide BackoffMoves;
  }

  lemma BatchNext(h: seq<nat>, v: nat)
    requires BatchRun(h) && BatchMoves(Last(h), v)
    ensures BatchRun(h + [v])
  {
    hide BatchMoves;
  }

  lemma StepRefines(l: Limits, initial: nat, sys: System, ev: Event)
    requires Refines(l, initial, sys) && Enabled(sys, ev) && SeenAllows(l, PcOf(sys, ev.worker))
    ensures Refines(l, initial, Apply(l, sys, ev))
  {
    hide CurrentRun, BackoffRun, BatchRun, NextPc, Last, Up, Halve, Trim, Decay, Raise, BatchUp, BatchDown;
    if ev.Go? && ev.wins {
      match PcOf(sys, ev.worker)
      case SuccessDecay(v) => BackoffNext(sys.backoff, Decay(v));
      case LimitRaise(v) => BackoffNext(sys.backoff, Raise(v));
      case SuccessScale(v) => CurrentNext(l, initial, sys.current, Up(l, v));
      case LimitHalve(v) => CurrentNext(l, initial, sys.current, Halve(l, v));
      case ErrorTrim(v) => CurrentNext(l, initial, sys.current, Trim(l, v));
      case SuccessGrow(v) => BatchNext(sys.batch, BatchUp(v));
      case LimitShrink(v) => BatchNext(sys.batch, BatchDown(v));
      case _ =>
    }
  }

  lemma StepKeepsInv(l: Limits, initial: nat, sys: System, ev: Event)
    requires Inv(l, initial, sys) && Enabled(sys, ev)
    ensures Inv(l, initial, Apply(l, sys, ev))
  {
    var sys' := Apply(l, sys, ev);
    StepRefines(l, initial, sys, ev);
    hide Refines;
    ResettingChanges(sys.workers, ev.worker, sys'.workers[ev.worker]);
  }

  /** In every interleaving of any number of workers each field refines the atomic controller. */
  lemma {:induction false} EveryRunRefines(l: Limits, initial: nat, events: seq<Event>)
    requires Possible(l, initial, events)
    ensures Inv(l, initial, Run(l, initial, events))
  {
    if events == [] {
      assert Resetting(map[]) == {};
    } else {
      EveryRunRefines(l, initial, events[..|events| - 1]);
      StepKeepsInv(l, initial, Run(l, initial, events[..|events| - 1]), events[|events| - 1]);
    }
  }

  /** Whatever the interleaving, each field moves only by the amounts of a call: concurrency up by a fifth, down to
      half or down by a tenth; backoff down by a quarter or doubled; batch up by a fifth or down to half. */
  lemma {:induction false} EveryMoveIsAShare(l: Limits, initial: nat, events: seq<Event>, i: nat)
    requires Possible(l, initial, events)
    ensures var sys := Run(l, initial, events);
            && (0 < i < |sys.current| ==>
                  var a, b := sys.current[i - 1], sys.current[i];
                  || (a < l.max && Rises(a, b, 1, l.max))
                  || (a > l.min && (IsShare(b, a, 2, l.min) || Falls(a, b, l.min))))
            && (0 < i < |sys.backoff| ==>
                  var a, b := sys.backoff[i - 1], sys.backoff[i];
                  || (a > 0 && 4 * b <= 3 * a < 4 * b + 4)
                  || b == (if a == 0 then 500 else if a < 15_000 then 2 * a else 30_000))
            && (0 < i < |sys.batch| ==>
                  var a, b := sys.batch[i - 1], sys.batch[i];
                  (a < 100 && Rises(a, b, 5, 100)) || IsShare(b, a, 2, 5))
  {
    EveryRunRefines(l, initial, events);
    var sys := Run(l, initial, events);
    assert Refines(l, initial, sys);
    hide Run, Possible, Up, Halve, Trim, BatchUp, BatchDown, Rises, Falls, IsShare, Inv;
    if 0 < i < |sys.current| {
      assert CurrentMoves(l, sys.current[i - 1], sys.current[i]);
      CurrentShares(l, sys.current[i - 1]);
    }
    if 0 < i < |sys.backoff| {
      assert BackoffMoves(sys.backoff[i - 1], sys.backoff[i]);
    }
    if 0 < i < |sys.batch| {
      assert BatchMoves(sys.batch[i - 1], sys.batch[i]);
      BatchShares(sys.batch[i - 1]);
    }
  }

  lemma CurrentShares(l: Limits, a: nat)
    ensures Rises(a, Up(l, a), 1, l.max) && IsShare(Halve(l, a), a, 2, l.min) && Falls(a, Trim(l, a), l.min)
  {
    UpRises(l, a);
    TrimFalls(l, a);
    ShareIs(a, 2, l.min);
    hide Rises, Falls, IsShare, Up, Trim;
  }

  lemma BatchShares(a: nat)
    ensures Rises(a, BatchUp(a), 5, 100) && IsShare(BatchDown(a), a, 2, 5)
  {
    BatchRises(a);
    ShareIs(a, 2, 5);
    hide Rises, IsShare, BatchUp;
  }

  /** Whatever the interleaving, no value ever leaves its bounds, stale loads included. */
  lemma {:induction false} EveryRunStaysInBounds(l: Limits, initial: nat, events: seq<Event>)
    requires Possible(l, initial, events)
    ensures var sys := Run(l, initial, events);
            && (forall v | v in sys.current :: Min(initial, l.min) <= v <= Max(initial, l.max))
            && (forall v | v in sys.backoff :: v <= MAX_BACKOFF_MS)
            && (forall v | v in sys.batch :: MIN_BATCH <= v <= MAX_BATCH)
  {
    EveryRunRefines(l, initial, events);
    var sys := Run(l, initial, events);
    forall v | v in sys.current ensures Min(initial, l.min) <= v <= Max(initial, l.max) {
      var i :| 0 <= i < |sys.current| && sys.current[i] == v;
      CurrentBounded(l, initial, sys, i);
    }
    forall v | v in sys.backoff ensures v <= MAX_BACKOFF_MS {
      var i :| 0 <= i < |sys.backoff| && sys.backoff[i] == v;
      BackoffBounded(l, initial, sys, i);
    }
    forall v | v in sys.batch ensures MIN_BATCH <= v <= MAX_BATCH {
      var i :| 0 <= i < |sys.batch| && sys.batch[i] == v;
      BatchBounded(l, initial, sys, i);
    }
  }

  lemma {:induction false} CurrentBounded(l: Limits, initial: nat, sys: System, i: nat)
    requires Refines(l, initial, sys) && i < |sys.current|
    ensures Min(initial, l.min) <= sys.current[i] <= Max(initial, l.max)
  {
    if i > 0 {
      CurrentBounded(l, initial, sys, i - 1);
      assert CurrentMoves(l, sys.current[i - 1], sys.current[i]);
    }
  }

  lemma {:induction false} BackoffBounded(l: Limits, initial: nat, sys: System, i: nat)
    requires Refines(l, initial, sys) && i < |sys.backoff|
    ensures sys.backoff[i] <= MAX_BACKOFF_MS
  {
    if i > 0 {
      BackoffBounded(l, initial, sys, i - 1);
      assert BackoffMoves(sys.backoff[i - 1], sys.backoff[i]);
    }
  }

  lemma {:induction false} BatchBounded(l: Limits, initial: nat, sys: System, i: nat)
    requires Refines(l, initial, sys) && i < |sys.batch|
    ensures MIN_BATCH <= sys.batch[i] <= MAX_BATCH
  {
    if i > 0 {
      BatchBounded(l, initial, sys, i - 1);
      assert BatchMoves(sys.batch[i - 1], sys.batch[i]);
    }
  }

  /** Conservation: the diagnostic counter plus the calls still on their way to it is the number of rate
      limit calls that have begun, in 64-bit arithmetic. */
  lemma {:induction false} EveryLimitIsCounted(l: Limits, initial: nat, events: seq<Event>)
    requires Possible(l, initial, events)
    ensures var sys := Run(l, initial, events);
            (sys.rateLimits + |Uncounted(sys.workers)|) % U64 == LimitCalls(events) % U64
  {
    if events == [] {
      assert Uncounted(map[]) == {};
    } else {
      var before, ev := events[..|events| - 1], events[|events| - 1];
      EveryLimitIsCounted(l, initial, before);
      var sys := Run(l, initial, before);
      LimitsStep(l, sys, ev);
      assert Run(l, initial, events) == Apply(l, sys, ev) && Possible(l, initial, events);
      hide Run, Uncounted, Apply, Possible;
      WrapNext(LimitCalls(before), sys.rateLimits + |Uncounted(sys.workers)|);
    }
  }

  /** A step counts a call at most once: what leaves the way to the counter arrives in the counter. */
  lemma LimitsStep(l: Limits, sys: System, ev: Event)
    requires Enabled(sys, ev)
    ensures var sys' := Apply(l, sys, ev);
            (sys'.rateLimits + |Uncounted(sys'.workers)|) % U64 ==
            (sys.rateLimits + |Uncounted(sys.workers)| + if ev.Begin? && ev.call.RateLimit? then 1 else 0) % U64
  {
    var sys' := Apply(l, sys, ev);
    UncountedChanges(sys.workers, ev.worker, sys'.workers[ev.worker]);
    var u' := |Uncounted(sys'.workers)|;
    hide Uncounted;
    if ev.Go? && PcOf(sys, ev.worker).LimitCount? {
      CarryWrap(sys.rateLimits, u');
    }
  }

  lemma WrapNext(a: nat, b: nat)
    requires a % U64 == b % U64
    ensures (a + 1) % U64 == (b + 1) % U64
  {
  }

  lemma CarryWrap(a: nat, u: nat)
    ensures ((a + 1) % U64 + u) % U64 == (a + (u + 1)) % U64
  {
  }

  // ----- one worker alone

  /** The steps that a call may still need: every call ends within eight steps of its own worker. */
  function Rank(pc: Pc): (r: nat)
    ensures r <= 8 && (r == 0 <==> pc.Idle?)
  {
    match pc
    case Idle => 0
    case SuccessLoadBackoff => 8
    case SuccessDecay(_) => 7
    case SuccessCount => 6
    case SuccessReset => 5
    case SuccessLoadCurrent => 4
    case SuccessScale(_) => 3
    case SuccessLoadBatch => 2
    case SuccessGrow(_) => 1
    case LimitReset => 8
    case LimitCount => 7
    case LimitLoadBackoff => 6
    case LimitRaise(_) => 5
    case LimitLoadBatch => 4
    case LimitShrink(_) => 3
    case LimitLoadCurrent => 2
    case LimitHalve(_) => 1
    case ErrorReset => 3
    case ErrorLoadCurrent => 2
    case ErrorTrim(_) => 1
  }

  /** A step of one worker brings that worker closer to the end of its call and moves no other worker. */
  lemma {:induction false} StepsAreBounded(l: Limits, sys: System, ev: Event)
    requires ev.Go? && Enabled(sys, ev)
    ensures Rank(PcOf(Apply(l, sys, ev), ev.worker)) < Rank(PcOf(sys, ev.worker))
    ensures forall w | w != ev.worker :: PcOf(Apply(l, sys, ev), w) == PcOf(sys, w)
  {
  }

  /** No worker ever waits for another: inside a call it can always take a step, whatever the others do. */
  lemma {:induction false} NeverBlocked(l: Limits, initial: nat, events: seq<Event>, w: nat)
    requires Possible(l, initial, events) && !PcOf(Run(l, initial, events), w).Idle?
    ensures exists seen, wins :: Enabled(Run(l, initial, events), Go(w, seen, wins))
  {
    EveryRunRefines(l, initial, events);
    var sys := Run(l, initial, events);
    hide Run, Possible;
    assert Last(sys.current) in sys.current && Last(sys.backoff) in sys.backoff && Last(sys.batch) in sys.batch;
    var seen :=
      match PcOf(sys, w)
      case SuccessLoadBackoff | LimitLoadBackoff => Last(sys.backoff)
      case SuccessLoadBatch | LimitLoadBatch => Last(sys.batch)
      case _ => Last(sys.current);
    assert Enabled(sys, Go(w, seen, false));
  }

  /** The step of an undisturbed worker: it loads the newest value and its exchange succeeds. */
  function Undisturbed(sys: System, w: nat): Event {
    var seen :=
      match PcOf(sys, w)
      case SuccessLoadBackoff | LimitLoadBackoff => Last(sys.backoff)
      case SuccessLoadBatch | LimitLoadBatch => Last(sys.batch)
      case _ => Last(sys.current);
    Go(w, seen, true)
  }

  /** Lets worker `w` finish its call with no step of another worker in between. */
  function Finish(l: Limits, sys: System, w: nat): System
    decreases Rank(PcOf(sys, w))
  {
    if PcOf(sys, w).Idle? then sys else Finish(l, Apply(l, sys, Undisturbed(sys, w)), w)
  }

  /** A whole call that nobody disturbs is exactly the sequential call. */
  lemma {:induction false} UndisturbedCallIsSequential(l: Limits, sys: System, w: nat, call: Call)
    requires PcOf(sys, w).Idle? && sys.current != [] && sys.backoff != [] && sys.batch != []
    ensures Latest(Finish(l, Apply(l, sys, Begin(w, call)), w)) == After(l, Latest(sys), call)
  {
    FinishSequential(l, Apply(l, sys, Begin(w, call)), w);
  }

  /** What the rest of an undisturbed call still does to the shared values. */
  function Rest(l: Limits, s: State, pc: Pc): State
    decreases Rank(pc)
  {
    match pc
    case Idle => s
    case SuccessLoadBackoff => AfterSuccess(l, s)
    case SuccessDecay(v) => AfterSuccess(l, s)
    case SuccessCount => AfterSuccess(l, s).(backoff := s.backoff)
    case SuccessReset => Rest(l, s.(successes := 0), SuccessLoadCurrent)
    case SuccessLoadCurrent | SuccessScale(_) =>
      Rest(l, s.(current := if s.current < l.max then Up(l, s.current) else s.current), SuccessLoadBatch)
    case SuccessLoadBatch | SuccessGrow(_) =>
      s.(batch := if s.batch < MAX_BATCH then BatchUp(s.batch) else s.batch)
    case LimitReset => AfterRateLimit(l, s)
    case LimitCount => AfterRateLimit(l, s).(successes := s.successes)
    case LimitLoadBackoff | LimitRaise(_) => Rest(l, s.(backoff := Raise(s.backoff)), LimitLoadBatch)
    case LimitLoadBatch | LimitShrink(_) => Rest(l, s.(batch := BatchDown(s.batch)), LimitLoadCurrent)
    case LimitLoadCurrent | LimitHalve(_) =>
      s.(current := if s.current > l.min then Halve(l, s.current) else s.current)
    case ErrorReset => AfterError(l, s)
    case ErrorLoadCurrent | ErrorTrim(_) =>
      s.(current := if s.current > l.min then Trim(l, s.current) else s.current)
  }

  /** The worker's loaded value, if it holds one, is still the newest and still passed its test. */
  ghost predicate Fresh(l: Limits, sys: System, pc: Pc) {
    && SeenAllows(l, pc)
    && match pc
       case SuccessDecay(v) => Last(sys.backoff) == v
       case LimitRaise(v) => Last(sys.backoff) == v
       case SuccessScale(v) => Last(sys.current) == v
       case LimitHalve(v) => Last(sys.current) == v
       case ErrorTrim(v) => Last(sys.current) == v
       case SuccessGrow(v) => Last(sys.batch) == v
       case LimitShrink(v) => Last(sys.batch) == v
       case _ => true
  }

  lemma {:induction false} FinishSequential(l: Limits, sys: System, w: nat)
    requires Fresh(l, sys, PcOf(sys, w))
    ensures Latest(Finish(l, sys, w)) == Rest(l, Latest(sys), PcOf(sys, w))
    decreases Rank(PcOf(sys, w))
  {
    var pc := PcOf(sys, w);
    if !pc.Idle? {
      UndisturbedStep(l, sys, w);
      FinishSequential(l, Apply(l, sys, Undisturbed(sys, w)), w);
    }
  }

  predicate InSuccess(pc: Pc) {
    pc.SuccessLoadBackoff? || pc.SuccessDecay? || pc.SuccessCount? || pc.SuccessReset?
  }

  predicate InScaling(pc: Pc) {
    pc.SuccessLoadCurrent? || pc.SuccessScale? || pc.SuccessLoadBatch? || pc.SuccessGrow?
  }

  predicate InError(pc: Pc) {
    pc.ErrorReset? || pc.ErrorLoadCurrent? || pc.ErrorTrim?
  }

  lemma UndisturbedStep(l: Limits, sys: System, w: nat)
    requires Fresh(l, sys, PcOf(sys, w)) && !PcOf(sys, w).Idle?
    ensures StaysSequential(l, sys, w)
  {
    hide StaysSequential, Fresh;
    var pc := PcOf(sys, w);
    if InSuccess(pc) {
      UndisturbedSuccess(l, sys, w);
    } else if InScaling(pc) {
      UndisturbedScaling(l, sys, w);
    } else if InError(pc) {
      UndisturbedError(l, sys, w);
    } else {
      UndisturbedLimit(l, sys, w);
    }
  }

  ghost predicate StaysSequential(l: Limits, sys: System, w: nat) {
    var sys' := Apply(l, sys, Undisturbed(sys, w));
    && Rank(PcOf(sys', w)) < Rank(PcOf(sys, w))
    && Fresh(l, sys', PcOf(sys', w))
    && Rest(l, Latest(sys'), PcOf(sys', w)) == Rest(l, Latest(sys), PcOf(sys, w))
  }

  lemma UndisturbedSuccess(l: Limits, sys: System, w: nat)
    requires Fresh(l, sys, PcOf(sys, w)) && InSuccess(PcOf(sys, w))
    ensures StaysSequential(l, sys, w)
  {
  }

  lemma UndisturbedScaling(l: Limits, sys: System, w: nat)
    requires Fresh(l, sys, PcOf(sys, w)) && InScaling(PcOf(sys, w))
    ensures StaysSequential(l, sys, w)
  {
  }

  lemma UndisturbedError(l: Limits, sys: System, w: nat)
    requires Fresh(l, sys, PcOf(sys, w)) && InError(PcOf(sys, w))
    ensures StaysSequential(l, sys, w)
  {
  }

  lemma UndisturbedLimit(l: Limits, sys: System, w: nat)
    requires Fresh(l, sys, PcOf(sys, w)) && !PcOf(sys, w).Idle?
    requires !InSuccess(PcOf(sys, w)) && !InScaling(PcOf(sys, w)) && !InError(PcOf(sys, w))
    ensures StaysSequential(l, sys, w)
  {
    hide Raise, BatchDown, Halve, Up, Trim, Decay, BatchUp;
  }
}
