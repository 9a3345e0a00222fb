/** Run lengths of timestamp deltas and what they stand for. */
module DeltaRuns {

  /** `len` consecutive blocks, each `delta` seconds after the one before. */
  datatype DeltaRunLen = DeltaRunLen(len: nat, delta: nat)

  function Sum(s: seq<nat>): nat {
    if s == [] then 0 else Sum(s[..|s| - 1]) + s[|s| - 1]
  }

  /** The uncompressed meaning of a run list: one delta a block. */
  function Deltas(runs: seq<DeltaRunLen>): seq<nat> {
    if runs == [] then []
    else
      var last := runs[|runs| - 1];
      Deltas(runs[..|runs| - 1]) + seq(last.len, _ => last.delta)
  }

  /** The number of blocks that the runs cover. */
  function Span(runs: seq<DeltaRunLen>): nat {
    if runs == [] then 0 else Span(runs[..|runs| - 1]) + runs[|runs| - 1].len
  }

  /** The seconds from the start of the first run to the end of the last. */
  function Elapsed(runs: seq<DeltaRunLen>): nat {
    if runs == [] then 0
    else Elapsed(runs[..|runs| - 1]) + runs[|runs| - 1].delta * runs[|runs| - 1].len
  }

  /** No empty run, and no two neighbours that could have been one run. */
  ghost predicate Canonical(runs: seq<DeltaRunLen>) {
    && (forall i | 0 <= i < |runs| :: runs[i].len >= 1)
    && (forall i | 0 < i < |runs| :: runs[i - 1].delta != runs[i].delta)
  }

  /** `later` came from `earlier` by lengthening the last run or adding runs behind it. */
  ghost predicate Grows(earlier: seq<DeltaRunLen>, later: seq<DeltaRunLen>) {
    && |earlier| <= |later|
    && (forall i | 0 <= i < |earlier| - 1 :: later[i] == earlier[i])
    && (earlier != [] ==>
          var n := |earlier| - 1;
          later[n].delta == earlier[n].delta && later[n].len >= earlier[n].len)
  }

  /** One more delta: into the last run if it matches, in a run of its own otherwise. */
  function Push(runs: seq<DeltaRunLen>, delta: nat): seq<DeltaRunLen> {
    if runs != [] && runs[|runs| - 1].delta == delta
    then runs[|runs| - 1 := DeltaRunLen(runs[|runs| - 1].len + 1, delta)]
    else runs + [DeltaRunLen(1, delta)]
  }

  function PushAll(runs: seq<DeltaRunLen>, deltas: seq<nat>): seq<DeltaRunLen> {
    if deltas == [] then runs
    else Push(PushAll(runs, deltas[..|deltas| - 1]), deltas[|deltas| - 1])
  }

  // ----- sums

  lemma {:induction false} SumConcat(a: seq<nat>, b: seq<nat>)
    ensures Sum(a + b) == Sum(a) + Sum(b)
  {
    if b == [] {
      assert a + b == a;
    } else {
      assert (a + b)[..|a + b| - 1] == a + b[..|b| - 1];
      SumConcat(a, b[..|b| - 1]);
    }
  }

  lemma {:induction false} SumRepeat(n: nat, d: nat)
    ensures Sum(seq(n, _ => d)) == d * n
  {
    if n > 0 {
      assert seq(n, _ => d)[..n - 1] == seq(n - 1, _ => d);
      SumRepeat(n - 1, d);
    }
  }

  // ----- runs against the deltas they stand for

  lemma {:induction false} SpanIsLength(runs: seq<DeltaRunLen>)
    ensures |Deltas(runs)| == Span(runs)
  {
    if runs != [] {
      SpanIsLength(runs[..|runs| - 1]);
    }
  }

  lemma {:induction false} ElapsedIsSum(runs: seq<DeltaRunLen>)
    ensures Elapsed(runs) == Sum(Deltas(runs))
  {
    if runs != [] {
      var last := runs[|runs| - 1];
      ElapsedIsSum(runs[..|runs| - 1]);
      SumRepeat(last.len, last.delta);
      SumConcat(Deltas(runs[..|runs| - 1]), seq(last.len, _ => last.delta));
    }
  }

  lemma {:induction false} DeltasPrefix(runs: seq<DeltaRunLen>, i: nat)
    requires i <= |runs|
    ensures Span(runs[..i]) <= Span(runs) && Elapsed(runs[..i]) <= Elapsed(runs)
    ensures Deltas(runs[..i]) <= Deltas(runs)
  {
    if i == |runs| {
      assert runs[..i] == runs;
    } else {
      var init := runs[..|runs| - 1];
      assert init[..i] == runs[..i];
      DeltasPrefix(init, i);
    }
  }

  lemma StepInto(runs: seq<DeltaRunLen>, i: nat)
    requires i < |runs|
    ensures Span(runs[..i + 1]) == Span(runs[..i]) + runs[i].len
    ensures Elapsed(runs[..i + 1]) == Elapsed(runs[..i]) + runs[i].delta * runs[i].len
    ensures Deltas(runs[..i + 1]) == Deltas(runs[..i]) + seq(runs[i].len, _ => runs[i].delta)
  {
    assert runs[..i + 1][..i] == runs[..i];
  }

  /** Inside run `i` time advances by that run's delta a block. */
  lemma {:induction false} WithinRun(runs: seq<DeltaRunLen>, i: nat, b: nat)
    requires i < |runs| && Span(runs[..i]) <= b <= Span(runs[..i]) + runs[i].len
    ensures b <= |Deltas(runs)|
    ensures Sum(Deltas(runs)[..b]) == Elapsed(runs[..i]) + runs[i].delta * (b - Span(runs[..i]))
  {
    StepInto(runs, i);
    DeltasPrefix(runs, i + 1);
    SpanIsLength(runs[..i]);
    SpanIsLength(runs[..i + 1]);
    var d, n := runs[i].delta, b - Span(runs[..i]);
    assert Deltas(runs)[..b] == Deltas(runs[..i + 1])[..b];
    assert Deltas(runs[..i + 1])[..b] == Deltas(runs[..i]) + seq(n, _ => d);
    SumConcat(Deltas(runs[..i]), seq(n, _ => d));
    SumRepeat(n, d);
    ElapsedIsSum(runs[..i]);
  }

  // ----- pushing

  lemma PushMeaning(runs: seq<DeltaRunLen>, delta: nat)
    ensures Deltas(Push(runs, delta)) == Deltas(runs) + [delta]
    ensures Canonical(runs) ==> Canonical(Push(runs, delta))
    ensures Grows(runs, Push(runs, delta))
  {
    var out := Push(runs, delta);
    if runs != [] && runs[|runs| - 1].delta == delta {
      var n := |runs| - 1;
      assert out[..n] == runs[..n];
      assert seq(runs[n].len + 1, _ => delta) == seq(runs[n].len, _ => delta) + [delta];
    } else {
      assert out[..|runs|] == runs;
      assert seq(1, _ => delta) == [delta];
    }
  }

  lemma GrowsTransitive(a: seq<DeltaRunLen>, b: seq<DeltaRunLen>, c: seq<DeltaRunLen>)
    requires Grows(a, b) && Grows(b, c)
    ensures Grows(a, c)
  {
  }

  /** Pushing deltas appends exactly those deltas, keeps the canonical form and only grows the tail. */
  lemma {:induction false} PushAllMeaning(runs: seq<DeltaRunLen>, deltas: seq<nat>)
    ensures Deltas(PushAll(runs, deltas)) == Deltas(runs) + deltas
    ensures Canonical(runs) ==> Canonical(PushAll(runs, deltas))
    ensures Grows(runs, PushAll(runs, deltas))
  {
    hide *;
    if deltas == [] {
      NothingPushed(runs);
    } else {
      var n := |deltas| - 1;
      PushAllMeaning(runs, deltas[..n]);
      PushAllLast(runs, deltas);
      var before := PushAll(runs, deltas[..n]);
      PushMeaning(before, deltas[n]);
      GrowsTransitive(runs, before, Push(before, deltas[n]));
      assert Deltas(runs) + deltas[..n] + [deltas[n]] == Deltas(runs) + deltas;
    }
  }

  lemma NothingPushed(runs: seq<DeltaRunLen>)
    ensures PushAll(runs, []) == runs && Grows(runs, runs) && Deltas(runs) + [] == Deltas(runs)
  {
  }

  lemma PushAllLast(runs: seq<DeltaRunLen>, deltas: seq<nat>)
    requires deltas != []
    ensures PushAll(runs, deltas) == Push(PushAll(runs, deltas[..|deltas| - 1]), deltas[|deltas| - 1])
  {
    hide Push;
  }

  lemma {:induction false} PushAllSplits(runs: seq<DeltaRunLen>, a: seq<nat>, b: seq<nat>)
    ensures PushAll(PushAll(runs, a), b) == PushAll(runs, a + b)
  {
    if b == [] {
      assert a + b == a;
    } else {
      assert (a + b)[..|a + b| - 1] == a + b[..|b| - 1];
      PushAllSplits(runs, a, b[..|b| - 1]);
    }
  }

  /** A prefix that ends before the last run is not touched by growth. */
  lemma GrowsKeepsPrefix(earlier: seq<DeltaRunLen>, later: seq<DeltaRunLen>, i: nat)
    requires Grows(earlier, later) && i < |earlier|
    ensures later[..i] == earlier[..i]
  {
  }

  // ----- the canonical form is unique

  lemma LastDelta(runs: seq<DeltaRunLen>)
    requires runs != [] && Canonical(runs)
    ensures Deltas(runs) != [] && Deltas(runs)[|Deltas(runs)| - 1] == runs[|runs| - 1].delta
  {
  }

  ghost predicate ConstantFrom(ds: seq<nat>, k: nat, d: nat) {
    forall j | k <= j < |ds| :: ds[j] == d
  }

  /** The last run reaches back exactly as far as the deltas stay the same. */
  lemma LastRunStart(runs: seq<DeltaRunLen>, k: nat)
    requires runs != [] && Canonical(runs) && k <= |Deltas(runs)|
    ensures ConstantFrom(Deltas(runs), k, runs[|runs| - 1].delta) <==> k >= |Deltas(runs)| - runs[|runs| - 1].len
  {
    var init, last := runs[..|runs| - 1], runs[|runs| - 1];
    if init != [] {
      LastDelta(init);
      assert Deltas(runs)[|Deltas(init)| - 1] != last.delta;
    }
  }

  /** Two canonical run lists with the same meaning are the same list. */
  lemma {:induction false} CanonicalUnique(a: seq<DeltaRunLen>, b: seq<DeltaRunLen>)
    requires Canonical(a) && Canonical(b) && Deltas(a) == Deltas(b)
    ensures a == b
  {
    if a == [] {
      if b != [] { LastDelta(b); }
    } else {
      LastDelta(a);
      if b != [] {
        LastDelta(b);
        var x, y := a[|a| - 1], b[|b| - 1];
        var ds := Deltas(a);
        LastRunStart(a, |ds| - y.len);
        LastRunStart(b, |ds| - y.len);
        LastRunStart(a, |ds| - x.len);
        LastRunStart(b, |ds| - x.len);
        assert x == y;
        assert Deltas(a[..|a| - 1]) == ds[..|ds| - x.len] == Deltas(b[..|b| - 1]);
        CanonicalUnique(a[..|a| - 1], b[..|b| - 1]);
        assert a == a[..|a| - 1] + [x] && b == b[..|b| - 1] + [y];
      }
    }
  }
}
