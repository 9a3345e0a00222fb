/** Choosing sample blocks from a range, with 64-bit floats taken as reals. */
module Sampling {
  import opened Options
  import opened BlockLists

  const RECOMMENDED_RPC_CHUNK_SIZE: nat := 50

  function Ceil(x: real): int { -((-x).Floor) }

  /** Rounds half away from zero; the arguments here are never negative. */
  function Round(x: real): (r: nat)
    requires x >= 0.0
  {
    (x + 0.5).Floor
  }

  /** The sampling rate of a fetcher: the default is every block. */
  function BoundedRate(rate: Option<real>): (r: real)
    ensures 0.001 <= r <= 1.0
  {
    var wanted := if rate.Some? then rate.value else 1.0;
    if wanted < 0.001 then 0.001 else if wanted > 1.0 then 1.0 else wanted
  }

  function SampleCount(rate: real, total: nat): (r: nat)
    requires total >= 2
    ensures 2 <= r <= total
  {
    var desired := Ceil(total as real * rate);
    if desired < 2 then 2 else if desired > total then total else desired
  }

  function All(from: nat, to: nat): (r: seq<nat>)
    ensures |r| == if from <= to then to - from + 1 else 0
    ensures forall i | 0 <= i < |r| :: r[i] == from + i
    decreases if from <= to then to - from + 1 else 0
  {
    if from > to then [] else [from] + All(from + 1, to)
  }

  /** The range is sampled with a step, instead of taken whole. */
  predicate IsStepped(rate: real, from: nat, to: nat) {
    && from < to
    && to - from > RECOMMENDED_RPC_CHUNK_SIZE / 2
    && SampleCount(rate, to - from + 1) < to - from + 1
  }

  function Step(total: nat, count: nat): real
    requires count >= 2
  {
    total as real / (count - 1) as real
  }

  function Point(from: nat, step: real, i: nat): nat
    requires step >= 0.0
  {
    from + Round(i as real * step)
  }

  /** The sample points from index `i` on, up to the first one beyond `to`. */
  function Points(from: nat, to: nat, step: real, i: nat, count: nat): seq<nat>
    requires step >= 0.0
    decreases count - i
  {
    if i >= count || Point(from, step, i) > to then []
    else [Point(from, step, i)] + Points(from, to, step, i + 1, count)
  }

  function Samples(rate: real, from: nat, to: nat): seq<nat> {
    if from > to then []
    else if from == to then [to]
    else if !IsStepped(rate, from, to) then All(from, to)
    else
      var total := to - from + 1;
      var count := SampleCount(rate, total);
      Dedup([from] + Points(from, to, Step(total, count), 0, count) + [to])
  }

  method BlockRangeSamples(rate: real, from: nat, to: nat) returns (samples: seq<nat>)
    ensures samples == Samples(rate, from, to)
  {
    if from > to {
      return [];
    }
    if from == to {
      return [to];
    }
    var range := to - from;
    var total := range + 1;
    var count := SampleCount(rate, total);
    if range <= RECOMMENDED_RPC_CHUNK_SIZE / 2 {
      return All(from, to);
    }
    if count >= total {
      return All(from, to);
    }
    var step := Step(total, count);
    samples := [from];
    var i := 0;
    while i < count
      invariant 0 <= i <= count
      invariant samples + Points(from, to, step, i, count) == [from] + Points(from, to, step, 0, count)
    {
      var block := Point(from, step, i);
      if block > to {
        break;
      }
      ghost var rest := Points(from, to, step, i + 1, count);
      assert samples + ([block] + rest) == (samples + [block]) + rest;
      samples := samples + [block];
      i := i + 1;
    }
    assert Points(from, to, step, i, count) == [] && samples + [] == samples;
    samples := samples + [to];
    samples := Dedup(samples);
  }

  // ----- arithmetic

  lemma Division(total: nat, count: nat)
    requires 2 <= count < total
    ensures Step(total, count) > 1.0
    ensures (count - 1) as real * Step(total, count) == total as real
  {
    var n, t := (count - 1) as real, total as real;
    assert n >= 1.0 && t > n;
    assert n * (t / n) == t;
    if t / n <= 1.0 {
      Scale(n, t / n, 1.0);
    }
  }

  lemma Scale(n: real, a: real, b: real)
    requires n >= 0.0 && a <= b
    ensures n * a <= n * b
  {
  }

  lemma PointsGrow(from: nat, step: real, i: nat)
    requires step > 1.0
    ensures Point(from, step, i) < Point(from, step, i + 1)
    ensures Point(from, step, i + 1) - Point(from, step, i) <= Ceil(step)
  {
    var x := i as real * step;
    assert (i + 1) as real * step == x + step;
  }

  lemma {:induction false} GrowsFar(from: nat, step: real, i: nat, j: nat)
    requires step > 1.0 && i <= j
    ensures Point(from, step, i) + (j - i) <= Point(from, step, j)
  {
    if i < j {
      GrowsFar(from, step, i, j - 1);
      PointsGrow(from, step, j - 1);
    }
  }

  /** The last point inside the range is the one before the last index; the last index always leaves it. */
  lemma {:induction false} Ends(from: nat, to: nat, count: nat)
    requires from <= to && 2 <= count < to - from + 1
    ensures var step := Step(to - from + 1, count);
            && step > 1.0
            && Point(from, step, 0) == from
            && Point(from, step, count - 2) <= to
            && Point(from, step, count - 1) == to + 1
            && to - Point(from, step, count - 2) <= Ceil(step)
  {
    var total := to - from + 1;
    var step := Step(total, count);
    Division(total, count);
    var x := (count - 2) as real * step;
    assert x == total as real - step;
    assert (count - 1) as real * step == total as real;
    assert x >= 0.0;
  }

  /** Exactly the indices below the last one give a point. */
  lemma {:induction false} PointsMeaning(from: nat, to: nat, count: nat, i: nat)
    requires from <= to && 2 <= count < to - from + 1 && i <= count - 1
    ensures var step := Step(to - from + 1, count);
            var p := Points(from, to, step, i, count);
            |p| == count - 1 - i && forall k | 0 <= k < |p| :: p[k] == Point(from, step, i + k)
    decreases count - i
  {
    Ends(from, to, count);
    var step := Step(to - from + 1, count);
    if i < count - 1 {
      GrowsFar(from, step, i, count - 2);
      PointsMeaning(from, to, count, i + 1);
    }
  }

  // ----- laws

  lemma {:induction false} DedupOfIncreasing(s: seq<nat>, t: nat)
    requires s != [] && Increasing(s) && s[|s| - 1] <= t
    ensures Dedup(s + [t]) == if s[|s| - 1] == t then s else s + [t]
  {
    if |s| == 1 {
      assert (s + [t])[1..] == [t];
    } else {
      assert (s + [t])[1..] == s[1..] + [t];
      DedupOfIncreasing(s[1..], t);
      assert s[0] < s[1];
      assert s == [s[0]] + s[1..];
    }
  }

  /** The stepped samples: the points, and the end of the range if no point hits it. */
  lemma SteppedMeaning(rate: real, from: nat, to: nat)
    requires IsStepped(rate, from, to)
    ensures var total := to - from + 1;
            var count := SampleCount(rate, total);
            var points := Points(from, to, Step(total, count), 0, count);
            && points != [] && Increasing(points) && points[|points| - 1] <= to
            && Samples(rate, from, to) == if points[|points| - 1] == to then points else points + [to]
  {
    var total := to - from + 1;
    var count := SampleCount(rate, total);
    var step := Step(total, count);
    var points := Points(from, to, step, 0, count);
    Ends(from, to, count);
    PointsMeaning(from, to, count, 0);
    forall i, j | 0 <= i < j < |points| ensures points[i] < points[j] {
      GrowsFar(from, step, i, j);
    }
    assert points[0] == from;
    hide Points, Point, Step, SampleCount, Ceil;
    DedupOfIncreasing(points, to);
    DedupRepeat(from, points, to);
  }

  lemma DedupRepeat(from: nat, points: seq<nat>, to: nat)
    requires points != [] && points[0] == from
    ensures Dedup([from] + points + [to]) == Dedup(points + [to])
  {
    assert ([from] + points + [to])[1..] == points + [to];
  }

  /** For every range and rate the samples rise strictly, stay in the range and hold both of its ends. */
  lemma {:induction false} SamplesCoverRange(rate: real, from: nat, to: nat)
    requires from <= to
    ensures var s := Samples(rate, from, to);
            && s != [] && Increasing(s)
            && s[0] == from && s[|s| - 1] == to
            && forall b | b in s :: from <= b <= to
  {
    if IsStepped(rate, from, to) {
      SteppedEnds(rate, from, to);
    }
    var s := Samples(rate, from, to);
    assert s != [] && Increasing(s) && s[0] == from && s[|s| - 1] == to;
    hide *;
    WithinEnds(s);
  }

  lemma SteppedEnds(rate: real, from: nat, to: nat)
    requires IsStepped(rate, from, to)
    ensures var s := Samples(rate, from, to); s != [] && Increasing(s) && s[0] == from && s[|s| - 1] == to
  {
    var total := to - from + 1;
    var count := SampleCount(rate, total);
    SteppedMeaning(rate, from, to);
    Ends(from, to, count);
    PointsMeaning(from, to, count, 0);
    hide Points, Point, Step, SampleCount, Ceil, Samples;
  }

  lemma WithinEnds(s: seq<nat>)
    requires s != [] && Increasing(s)
    ensures forall b | b in s :: s[0] <= b <= s[|s| - 1]
  {
    forall b | b in s ensures s[0] <= b <= s[|s| - 1] {
      var i :| 0 <= i < |s| && s[i] == b;
      assert i > 0 ==> s[0] < s[i];
      assert i < |s| - 1 ==> s[i] < s[|s| - 1];
    }
  }

  /** In the stepped branch the number of samples is the sample count or one less, and no gap between
      neighbours exceeds the step, rounded up. */
  lemma {:induction false} SteppedSpacing(rate: real, from: nat, to: nat)
    requires IsStepped(rate, from, to)
    ensures var s := Samples(rate, from, to);
            var count := SampleCount(rate, to - from + 1);
            && (|s| == count || |s| == count - 1)
            && forall i | 0 <= i < |s| - 1 :: s[i + 1] - s[i] <= Ceil(Step(to - from + 1, count))
  {
    var total := to - from + 1;
    var count := SampleCount(rate, total);
    var step := Step(total, count);
    SteppedMeaning(rate, from, to);
    Ends(from, to, count);
    PointsMeaning(from, to, count, 0);
    var s := Samples(rate, from, to);
    forall i | 0 <= i < |s| - 1 ensures s[i + 1] - s[i] <= Ceil(step) {
      PointsGrow(from, step, i);
    }
  }

  /** At the default rate every block of the range is a sample. */
  lemma {:induction false} FullRateTakesAll(from: nat, to: nat)
    requires from <= to
    ensures Samples(1.0, from, to) == All(from, to)
  {
    if from < to {
      var total := to - from + 1;
      assert total as real * 1.0 == total as real;
    }
  }

  // ----- what the rate means

  /** Without a rate every block is wanted; a rate is kept between a thousandth and one. */
  lemma {:induction false} RateMeaning(rate: Option<real>)
    ensures BoundedRate(None) == 1.0
    ensures rate.Some? && 0.001 <= rate.value <= 1.0 ==> BoundedRate(rate) == rate.value
    ensures rate.Some? && rate.value < 0.001 ==> BoundedRate(rate) == 0.001
    ensures rate.Some? && rate.value > 1.0 ==> BoundedRate(rate) == 1.0
  {
  }

  /** The sample count is the smallest number, but not less than 2, that is the rate's share of the range. */
  lemma {:induction false} SampleCountMeaning(rate: real, total: nat)
    requires total >= 2 && 0.0 < rate <= 1.0
    ensures var n := SampleCount(rate, total);
            n as real >= total as real * rate && (n == 2 || (n - 1) as real < total as real * rate)
  {
    Scale(total as real, rate, 1.0);
    CeilMeaning(total as real * rate);
  }

  lemma CeilMeaning(x: real)
    ensures (Ceil(x) - 1) as real < x <= Ceil(x) as real
  {
  }

  /** Within one half, the upper end excluded. */
  ghost predicate Nearest(n: int, x: real) { n as real - 0.5 <= x < n as real + 0.5 }

  /** The places go in `count - 1` equal steps through `total` blocks. */
  ghost function Place(total: nat, count: nat, i: nat): real
    requires count >= 2
  {
    i as real * (total as real / (count - 1) as real)
  }

  /** Each stepped sample is the block nearest to its place. */
  lemma {:induction false} SteppedPlaces(rate: real, from: nat, to: nat, i: nat)
    requires IsStepped(rate, from, to)
    requires i < SampleCount(rate, to - from + 1) - 1
    ensures var count, s := SampleCount(rate, to - from + 1), Samples(rate, from, to);
            i < |s| && Nearest(s[i] - from, Place(to - from + 1, count, i))
  {
    hide *;
    SampleAt(rate, from, to, i);
    PointIsNear(from, to - from + 1, SampleCount(rate, to - from + 1), i);
  }

  lemma PointIsNear(from: nat, total: nat, count: nat, i: nat)
    requires count >= 2 && Step(total, count) >= 0.0
    ensures Nearest(Point(from, Step(total, count), i) - from, Place(total, count, i))
  {
    assert Place(total, count, i) == i as real * Step(total, count);
    AtLeastZero(i as real, Step(total, count));
    RoundMeaning(Place(total, count, i));
    hide Place, Step, Round;
  }

  lemma SampleAt(rate: real, from: nat, to: nat, i: nat)
    requires IsStepped(rate, from, to)
    requires i < SampleCount(rate, to - from + 1) - 1
    ensures var total := to - from + 1;
            var count, s := SampleCount(rate, total), Samples(rate, from, to);
            2 <= count < total && i < |s| && Step(total, count) > 1.0 &&
              s[i] == Point(from, Step(total, count), i) >= from
  {
    var total := to - from + 1;
    var count := SampleCount(rate, total);
    SteppedMeaning(rate, from, to);
    PointsMeaning(from, to, count, 0);
    Division(total, count);
    hide Samples, Points, SampleCount, Ceil, Step;
  }

  lemma AtLeastZero(a: real, b: real)
    requires a >= 0.0 && b >= 0.0
    ensures a * b >= 0.0
  {
  }

  lemma RoundMeaning(x: real)
    requires x >= 0.0
    ensures Nearest(Round(x), x)
  {
  }

  /** Up to 26 blocks are always taken whole; of 27 a low rate takes fewer. */
  lemma {:induction false} SmallRangesWhole(rate: real, from: nat, to: nat)
    ensures from <= to <= from + 25 ==> Samples(rate, from, to) == All(from, to)
    ensures to == from + 26 ==> |Samples(0.001, from, to)| <= 2
  {
    if to == from + 26 {
      assert SampleCount(0.001, 27) == 2;
      SteppedSpacing(0.001, from, to);
      hide Samples;
    } else if from == to {
      assert All(from, to) == [from] + All(from + 1, to);
    }
  }
}
