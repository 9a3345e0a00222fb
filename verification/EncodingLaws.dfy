/** What the encoder promises: canonical runs, exact round trips, exact lookups, no overflow. */
module EncodingLaws {
  import opened Basics
  import opened Options
  import opened DeltaRuns
  import opened DeltaEncoding
  import Sorting

  ghost predicate NonDecreasing(table: seq<nat>) {
    forall i, j | 0 <= i < j < |table| :: table[i] <= table[j]
  }

  ghost predicate DistinctNumbers(blocks: seq<BlockStamp>) {
    forall i, j | 0 <= i < j < |blocks| :: blocks[i].0 != blocks[j].0
  }

  /** `e` holds the timestamps of `table`, genesis first, and nothing else. */
  ghost predicate Faithful(e: EncodedDeltas, table: seq<nat>) {
    && |table| == e.maxBlock + 1
    && e.genesis == Some(table[0])
    && Deltas(e.runs) == Steps(table)
    && Canonical(e.runs)
    && (e.maxBlock > 0 ==> e.maxTimestamp == Some(table[e.maxBlock]))
  }

  /** Genesis plus every step forward in time up to block `b`. */
  ghost function Envelope(table: seq<nat>, b: nat): nat
    requires b < |table|
  {
    table[0] + Sum(Steps(table)[..b])
  }

  /** A reply that holds the blocks from `from` on with these stamps. */
  function Numbered(from: nat, stamps: seq<nat>): (r: seq<BlockStamp>)
    ensures |r| == |stamps| && forall i | 0 <= i < |r| :: r[i] == (from + i, stamps[i])
  {
    var n := |stamps|;
    if n == 0 then [] else Numbered(from, stamps[..n - 1]) + [(from + n - 1, stamps[n - 1])]
  }

  // ----- sorting batches

  lemma ByBlockOrders()
    ensures Sorting.TotalPreorder(ByBlock)
  {
  }

  lemma SortedBatch(blocks: seq<BlockStamp>)
    ensures var s := Sorting.Sort(ByBlock, blocks);
            && |s| == |blocks| && multiset(s) == multiset(blocks)
            && (forall x :: x in s <==> x in blocks)
            && (forall i, j | 0 <= i < j < |s| :: s[i].0 <= s[j].0)
  {
    var s := Sorting.Sort(ByBlock, blocks);
    ByBlockOrders();
    Sorting.SortSorts(ByBlock, blocks);
    Sorting.SortPermutes(ByBlock, blocks);
    Sorting.SameSize(s, blocks);
    forall x ensures x in s <==> x in blocks {
      assert x in multiset(s) <==> x in multiset(blocks);
    }
    forall i, j | 0 <= i < j < |s| ensures s[i].0 <= s[j].0 {
      assert ByBlock(s[i], s[j]);
    }
  }

  lemma DistinctKeys(blocks: seq<BlockStamp>)
    requires DistinctNumbers(blocks)
    ensures Sorting.KeysDistinct(ByBlock, blocks)
  {
    forall i, j | 0 <= i < |blocks| && 0 <= j < |blocks| && ByBlock(blocks[i], blocks[j]) &&
      ByBlock(blocks[j], blocks[i])
      ensures blocks[i] == blocks[j]
    {
      assert blocks[i].0 == blocks[j].0;
      if i < j { } else if j < i { }
    }
  }

  /** The order in which a batch with distinct block numbers arrives does not matter. */
  lemma {:induction false} BatchOrderIrrelevant(e: EncodedDeltas, a: seq<BlockStamp>, b: seq<BlockStamp>)
    requires Sorting.Permutation(a, b) && DistinctNumbers(a)
    ensures Encode(e, a) == Encode(e, b)
  {
    ByBlockOrders();
    DistinctKeys(a);
    Sorting.SortIgnoresOrder(ByBlock, a, b);
  }

  lemma {:induction false} InsertBefore(x: BlockStamp, a: seq<BlockStamp>, b: seq<BlockStamp>)
    requires forall y | y in b :: x.0 <= y.0
    ensures Sorting.Insert(ByBlock, x, a + b) == Sorting.Insert(ByBlock, x, a) + b
  {
    if a == [] {
      assert a + b == b;
    } else if !ByBlock(x, a[0]) {
      InsertBefore(x, a[1..], b);
      assert (a + b)[1..] == a[1..] + b;
    }
  }

  lemma {:induction false} SortConcat(a: seq<BlockStamp>, b: seq<BlockStamp>)
    requires forall x, y | x in a && y in b :: x.0 <= y.0
    ensures Sorting.Sort(ByBlock, a + b) == Sorting.Sort(ByBlock, a) + Sorting.Sort(ByBlock, b)
  {
    if a == [] {
      assert a + b == b;
    } else {
      assert (a + b)[1..] == a[1..] + b;
      SortConcat(a[1..], b);
      SortedBatch(b);
      InsertBefore(a[0], Sorting.Sort(ByBlock, a[1..]), Sorting.Sort(ByBlock, b));
    }
  }

  // ----- one batch

  /** Only a batch that reaches block 0 of an encoder that is still at block 0 is turned away. */
  lemma {:induction false} RejectedExactly(e: EncodedDeltas, blocks: seq<BlockStamp>)
    ensures Encode(e, blocks).Err? <==> e.maxBlock == 0 && exists x | x in blocks :: x.0 == 0
  {
    SortedBatch(blocks);
    var s := Sorting.Sort(ByBlock, blocks);
    if s != [] {
      assert s[0] in blocks;
      if x :| x in blocks && x.0 == 0 {
        var i :| 0 <= i < |s| && s[i] == x;
        assert s[0].0 <= s[i].0;
      }
    }
  }

  lemma EncodeSortedMeaning(e: EncodedDeltas, s: seq<BlockStamp>)
    requires s != [] && EncodeSorted(e, s).Ok?
    ensures var e' := EncodeSorted(e, s).value;
            && Deltas(e'.runs) == Deltas(e.runs) + Steps(Continues(e) + Stamps(s))
            && (Canonical(e.runs) ==> Canonical(e'.runs))
            && Grows(e.runs, e'.runs)
            && e'.genesis == e.genesis && e'.network == e.network
            && e'.maxBlock == s[|s| - 1].0 && e'.maxTimestamp == Some(s[|s| - 1].1)
  {
    var steps := Steps(Continues(e) + Stamps(s));
    hide Steps, Stamps, PushAll, Deltas, Canonical, Grows;
    PushAllMeaning(e.runs, steps);
  }

  /** Encoding appends the batch's steps, keeps the canonical form and only grows the tail. */
  lemma {:induction false} EncodeMeaning(e: EncodedDeltas, blocks: seq<BlockStamp>)
    requires blocks != [] && Encode(e, blocks).Ok?
    ensures var s, e' := Sorting.Sort(ByBlock, blocks), Encode(e, blocks).value;
            && Deltas(e'.runs) == Deltas(e.runs) + Steps(Continues(e) + Stamps(s))
            && (Canonical(e.runs) ==> Canonical(e'.runs))
            && Grows(e.runs, e'.runs)
            && e'.genesis == e.genesis && e'.network == e.network
            && s != [] && e'.maxBlock == s[|s| - 1].0 && e'.maxTimestamp == Some(s[|s| - 1].1)
  {
    Sorting.SortPermutes(ByBlock, blocks);
    EncodeSortedMeaning(e, Sorting.Sort(ByBlock, blocks));
  }

  lemma SumOfTwo(x: nat, y: nat)
    ensures Sum([x, y]) == x + y
  {
    assert [x, y][..1] == [x];
    assert Sum([x]) == x;
  }

  /** A batch with a gap is accepted although the documentation says that batches must be sequential:
      block 5 is then lost and block 2 answers with the time of block 5. */
  lemma {:induction false} GapIsAccepted(e: EncodedDeltas, gap: seq<BlockStamp>)
    requires e == EncodedDeltas(1, Some(100), 1, Some(110), [DeltaRunLen(1, 10)]) && gap == [(5, 150)]
    ensures Faithful(e, [100, 110]) && Encode(e, gap).Ok?
    ensures Lookup(Encode(e, gap).value, 5) == None && Lookup(Encode(e, gap).value, 2) == Some(150)
  {
    OneRun(e.runs);
    assert Steps([100, 110]) == [10];
    GapSteps(e, gap);
    hide PushAll, Steps, Stamps, Deltas, Canonical, Grows, Sorting.Sort, EncodeSorted;
    EncodeSortedMeaning(e, gap);
    var e' := Encode(e, gap).value;
    SumOfTwo(10, 40);
    assert Deltas(e'.runs)[..2] == [10, 40];
    EmptyHasNoDeltas(e'.runs);
  }

  lemma OneRun(runs: seq<DeltaRunLen>)
    requires runs == [DeltaRunLen(1, 10)]
    ensures Deltas(runs) == [10] && Canonical(runs)
  {
    assert runs[..0] == [];
  }

  lemma EmptyHasNoDeltas(runs: seq<DeltaRunLen>)
    ensures Deltas(runs) != [] ==> runs != []
  {
  }

  lemma GapSteps(e: EncodedDeltas, gap: seq<BlockStamp>)
    requires e.maxBlock == 1 && e.maxTimestamp == Some(110) && gap == [(5, 150)]
    ensures Sorting.Sort(ByBlock, gap) == gap && EncodeSorted(e, gap).Ok?
    ensures Steps(Continues(e) + Stamps(gap)) == [40]
  {
    hide PushAll;
    assert Sorting.Sort(ByBlock, gap[1..]) == [];
    assert Continues(e) + Stamps(gap) == [110, 150];
  }

  /** From a canonical encoder there is only one canonical result, whatever way it is computed. */
  lemma {:induction false} EncodedRunsAreDetermined(e: EncodedDeltas, blocks: seq<BlockStamp>, runs: seq<DeltaRunLen>)
    requires blocks != [] && Encode(e, blocks).Ok? && Canonical(e.runs) && Canonical(runs)
    requires Deltas(runs) == Deltas(e.runs) + Steps(Continues(e) + Stamps(Sorting.Sort(ByBlock, blocks)))
    ensures runs == Encode(e, blocks).value.runs
  {
    EncodeMeaning(e, blocks);
    CanonicalUnique(runs, Encode(e, blocks).value.runs);
  }

  lemma StepsConcat(a: seq<nat>, b: seq<nat>)
    requires a != []
    ensures Steps(a + b) == Steps(a) + Steps([a[|a| - 1]] + b)
  {
    var c, n := [a[|a| - 1]] + b, |a| - 1;
    var l, r := Steps(a + b), Steps(a) + Steps(c);
    forall i | 0 <= i < |l| ensures l[i] == r[i] {
      assert l[i] == SaturatingSub((a + b)[i + 1], (a + b)[i]);
      if i < n {
        assert r[i] == Steps(a)[i] == SaturatingSub(a[i + 1], a[i]);
      } else {
        assert r[i] == Steps(c)[i - n] == SaturatingSub(c[i - n + 1], c[i - n]);
        assert c[i - n + 1] == (a + b)[i + 1] && c[i - n] == (a + b)[i];
      }
    }
  }

  lemma StampsConcat(a: seq<BlockStamp>, b: seq<BlockStamp>)
    ensures Stamps(a + b) == Stamps(a) + Stamps(b)
  {
  }

  /** The second batch continues from genesis just as from the last stamp of the first. */
  ghost predicate SameContinuation(e: EncodedDeltas, a: seq<BlockStamp>, b: seq<BlockStamp>) {
    var sa, sb := Sorting.Sort(ByBlock, a), Sorting.Sort(ByBlock, b);
    sa != [] && sb != [] ==>
      && sb[0].0 > 0 && e.genesis.Some?
      && SaturatingSub(sb[0].1, e.genesis.value) == SaturatingSub(sb[0].1, sa[|sa| - 1].1)
  }

  /** One batch or two: where the cut falls leaves no trace in the encoding, except when the first batch
      holds nothing but block 0: then it must be that the second continues from genesis just the same. */
  lemma {:induction false} BatchSplitExactly(e: EncodedDeltas, a: seq<BlockStamp>, b: seq<BlockStamp>)
    requires forall x, y | x in a && y in b :: x.0 <= y.0
    ensures Encode(e, a).Err? ==> Encode(e, a + b).Err?
    ensures Encode(e, a).Ok? ==>
              (Encode(Encode(e, a).value, b) == Encode(e, a + b) <==>
               (exists x :: x in a && x.0 > 0) || SameContinuation(e, a, b))
  {
    hide Sorting.Sort, EncodeSorted, SaturatingSub;
    SortConcat(a, b);
    var sa, sb := Sorting.Sort(ByBlock, a), Sorting.Sort(ByBlock, b);
    AboveZero(a);
    LastIsHead(e, sa);
    if sb == [] {
      assert sa + sb == sa;
      NothingMore(e, sa);
    } else if sa == [] || sa[|sa| - 1].0 > 0 {
      SortedSplit(e, sa, sb);
    } else {
      SplitAtZero(e, sa, sb);
    }
  }

  lemma AboveZero(a: seq<BlockStamp>)
    ensures var s := Sorting.Sort(ByBlock, a); (exists x :: x in a && x.0 > 0) <==> s != [] && s[|s| - 1].0 > 0
  {
    SortedBatch(a);
    var s := Sorting.Sort(ByBlock, a);
    hide Sorting.Sort;
    if x :| x in a && x.0 > 0 {
      var i :| 0 <= i < |s| && s[i] == x;
    }
  }

  lemma SortedOne(x: BlockStamp)
    ensures Sorting.Sort(ByBlock, [x]) == [x]
  {
    SortedBatch([x]);
    var s := Sorting.Sort(ByBlock, [x]);
    assert s[0] in s && s[0] in [x];
    hide Sorting.Sort;
  }

  /** Past block 0, block 0 with time 120 and then block 1 with time 130 leaves another encoding than both at once:
      the second batch continues from the genesis time 100. */
  lemma {:induction false} BatchSplitDiffers(e: EncodedDeltas)
    requires e == EncodedDeltas(1, Some(100), 1, Some(110), [DeltaRunLen(1, 10)])
    ensures var a, b := [(0, 120)], [(1, 130)];
            Encode(e, a).Ok? && Encode(Encode(e, a).value, b) != Encode(e, a + b)
  {
    var a: seq<BlockStamp>, b: seq<BlockStamp> := [(0, 120)], [(1, 130)];
    SortedOne((0, 120));
    SortedOne((1, 130));
    hide Encode, Sorting.Sort;
    RejectedExactly(e, a);
    BatchSplitExactly(e, a, b);
  }

  lemma LastIsHead(e: EncodedDeltas, sa: seq<BlockStamp>)
    ensures EncodeSorted(e, sa).Ok? && sa != [] ==> EncodeSorted(e, sa).value.maxBlock == sa[|sa| - 1].0
    ensures sa == [] ==> EncodeSorted(e, sa) == Ok(e)
  {
    hide PushAll, Steps, Stamps;
  }

  lemma NothingMore(e: EncodedDeltas, sa: seq<BlockStamp>)
    ensures EncodeSorted(e, sa).Ok? ==> EncodeSorted(EncodeSorted(e, sa).value, []) == EncodeSorted(e, sa)
  {
    hide PushAll, Steps, Stamps;
  }

  /** After a batch of block 0 alone the next one continues from genesis, where the two at once would
      continue from its stamp. */
  lemma SplitAtZero(e: EncodedDeltas, sa: seq<BlockStamp>, sb: seq<BlockStamp>)
    requires sa != [] && sb != [] && sa[|sa| - 1].0 == 0
    ensures EncodeSorted(e, sa).Err? ==> EncodeSorted(e, sa + sb).Err?
    ensures EncodeSorted(e, sa).Ok? ==>
              (EncodeSorted(EncodeSorted(e, sa).value, sb) == EncodeSorted(e, sa + sb) <==>
               && sb[0].0 > 0 && e.genesis.Some?
               && SaturatingSub(sb[0].1, e.genesis.value) == SaturatingSub(sb[0].1, sa[|sa| - 1].1))
  {
    hide PushAll, Steps, Stamps;
    assert (sa + sb)[|sa + sb| - 1] == sb[|sb| - 1] && (sa + sb)[0] == sa[0];
    if EncodeSorted(e, sa).Ok? {
      var e1 := EncodeSorted(e, sa).value;
      ContinuesAtZero(e, e1, sa, sb);
    }
  }

  lemma ContinuesAtZero(e: EncodedDeltas, e1: EncodedDeltas, sa: seq<BlockStamp>, sb: seq<BlockStamp>)
    requires sa != [] && sb != [] && e1.maxBlock == 0 && e1.genesis == e.genesis
    requires e1.runs == PushAll(e.runs, Steps(Continues(e) + Stamps(sa)))
    ensures PushAll(e1.runs, Steps(Continues(e1) + Stamps(sb))) ==
            PushAll(e.runs, Steps(Continues(e) + Stamps(sa + sb))) <==>
            && e.genesis.Some?
            && SaturatingSub(sb[0].1, e.genesis.value) == SaturatingSub(sb[0].1, sa[|sa| - 1].1)
  {
    var c, last := Continues(e) + Stamps(sa), sa[|sa| - 1].1;
    var g, stamps := Continues(e1), Stamps(sb);
    assert c != [] && c[|c| - 1] == last && stamps != [] && stamps[0] == sb[0].1;
    assert g == if e.genesis.Some? then [e.genesis.value] else [];
    var s1, s2, s3 := Steps(c), Steps(g + stamps), Steps([last] + stamps);
    hide *;
    SplitTable(e, sa, sb, c);
    StepsConcat(c, stamps);
    PushAllSplits(e.runs, s1, s3);
    PushAllInjective(e1.runs, s2, s3);
    FirstStep(stamps, last, e.genesis);
  }

  lemma SplitTable(e: EncodedDeltas, sa: seq<BlockStamp>, sb: seq<BlockStamp>, c: seq<nat>)
    requires c == Continues(e) + Stamps(sa)
    ensures Continues(e) + Stamps(sa + sb) == c + Stamps(sb)
  {
    hide *;
    StampsConcat(sa, sb);
  }

  /** Steps from two starts differ at most in the first; without a start there is one step less. */
  lemma FirstStep(stamps: seq<nat>, last: nat, genesis: Option<nat>)
    requires stamps != []
    ensures Steps((if genesis.Some? then [genesis.value] else []) + stamps) == Steps([last] + stamps) <==>
            genesis.Some? && SaturatingSub(stamps[0], genesis.value) == SaturatingSub(stamps[0], last)
  {
    hide *;
    if genesis.Some? {
      StepsFrom(stamps, last, genesis.value);
    } else {
      assert [] + stamps == stamps;
      assert |Steps(stamps)| != |Steps([last] + stamps)|;
    }
  }

  lemma StepsFrom(stamps: seq<nat>, x: nat, y: nat)
    requires stamps != []
    ensures Steps([y] + stamps) == Steps([x] + stamps) <==> SaturatingSub(stamps[0], y) == SaturatingSub(stamps[0], x)
  {
    hide *;
    var t, u := [x] + stamps, [y] + stamps;
    assert t[1..] == stamps && u[1..] == stamps;
    forall i | 0 < i < |stamps| ensures Steps(u)[i] == Steps(t)[i] {
      assert u[i] == t[i] == stamps[i - 1] && u[i + 1] == t[i + 1] == stamps[i];
    }
    assert Steps(u)[0] == SaturatingSub(stamps[0], y) && Steps(t)[0] == SaturatingSub(stamps[0], x);
    if SaturatingSub(stamps[0], y) == SaturatingSub(stamps[0], x) {
      assert Steps(u) == Steps(t);
    }
  }

  lemma PushAllInjective(runs: seq<DeltaRunLen>, a: seq<nat>, b: seq<nat>)
    ensures PushAll(runs, a) == PushAll(runs, b) <==> a == b
  {
    hide *;
    PushAllMeaning(runs, a);
    PushAllMeaning(runs, b);
    var d := Deltas(runs);
    if d + a == d + b {
      assert a == (d + a)[|d|..] == (d + b)[|d|..] == b;
    }
  }

  lemma SortedSplit(e: EncodedDeltas, sa: seq<BlockStamp>, sb: seq<BlockStamp>)
    requires EncodeSorted(e, sa).Ok? && sa != [] ==> EncodeSorted(e, sa).value.maxBlock != 0
    ensures EncodeSorted(e, sa).Err? ==> EncodeSorted(e, sa + sb).Err?
    ensures EncodeSorted(e, sa).Ok? ==> EncodeSorted(EncodeSorted(e, sa).value, sb) == EncodeSorted(e, sa + sb)
  {
    if sa == [] {
      assert sa + sb == sb;
    } else if sb == [] {
      assert sa + sb == sa;
    } else if EncodeSorted(e, sa).Ok? {
      hide PushAll, Steps, Stamps;
      assert (sa + sb)[|sa + sb| - 1] == sb[|sb| - 1];
      RunsSplit(e, EncodeSorted(e, sa).value, sa, sb);
    }
  }

  lemma RunsSplit(e: EncodedDeltas, e1: EncodedDeltas, sa: seq<BlockStamp>, sb: seq<BlockStamp>)
    requires sa != [] && e1.maxBlock != 0 && e1.maxTimestamp == Some(sa[|sa| - 1].1)
    requires e1.runs == PushAll(e.runs, Steps(Continues(e) + Stamps(sa)))
    ensures PushAll(e1.runs, Steps(Continues(e1) + Stamps(sb))) ==
            PushAll(e.runs, Steps(Continues(e) + Stamps(sa + sb)))
  {
    hide *;
    var s1, s2 := Steps(Continues(e) + Stamps(sa)), Steps(Continues(e1) + Stamps(sb));
    StepsSplit(e, e1, sa, sb);
    PushAllSplits(e.runs, s1, s2);
  }

  lemma StepsSplit(e: EncodedDeltas, e1: EncodedDeltas, sa: seq<BlockStamp>, sb: seq<BlockStamp>)
    requires sa != [] && e1.maxBlock != 0 && e1.maxTimestamp == Some(sa[|sa| - 1].1)
    ensures Steps(Continues(e) + Stamps(sa + sb)) ==
            Steps(Continues(e) + Stamps(sa)) + Steps(Continues(e1) + Stamps(sb))
  {
    var c := Continues(e) + Stamps(sa);
    assert c != [] && Continues(e1) == [c[|c| - 1]];
    hide *;
    StampsConcat(sa, sb);
    assert Continues(e) + Stamps(sa + sb) == c + Stamps(sb);
    StepsConcat(c, Stamps(sb));
  }

  // ----- round trips

  lemma {:induction false} EnvelopeLaw(table: seq<nat>, b: nat)
    requires b < |table|
    ensures Envelope(table, b) >= table[b]
    ensures Envelope(table, b) == table[b] <==> NonDecreasing(table[..b + 1])
    ensures b > 0 ==> Envelope(table, b - 1) <= Envelope(table, b)
  {
    hide *;
    if b == 0 {
      EnvelopeStarts(table);
    } else {
      EnvelopeLaw(table, b - 1);
      EnvelopeNext(table, b);
      NonDecreasingNext(table, b);
    }
  }

  lemma EnvelopeStarts(table: seq<nat>)
    requires table != []
    ensures Envelope(table, 0) == table[0] && NonDecreasing(table[..1])
  {
    assert Steps(table)[..0] == [];
  }

  lemma EnvelopeNext(table: seq<nat>, b: nat)
    requires 0 < b < |table|
    ensures Envelope(table, b) == Envelope(table, b - 1) +
            if table[b] >= table[b - 1] then table[b] - table[b - 1] else 0
  {
    var steps := Steps(table);
    assert steps[..b][..b - 1] == steps[..b - 1];
    hide Steps;
  }

  lemma NonDecreasingNext(table: seq<nat>, b: nat)
    requires 0 < b < |table|
    ensures NonDecreasing(table[..b + 1]) <==> NonDecreasing(table[..b]) && table[b - 1] <= table[b]
  {
    var t, u := table[..b], table[..b + 1];
    if NonDecreasing(t) && table[b - 1] <= table[b] {
      forall i, j | 0 <= i < j < |u| ensures u[i] <= u[j] {
        assert i < b - 1 ==> t[i] <= t[b - 1];
        assert j < b ==> t[i] <= t[j];
      }
    }
    if NonDecreasing(u) {
      assert u[b - 1] <= u[b];
      forall i, j | 0 <= i < j < |t| ensures t[i] <= t[j] {
        assert u[i] <= u[j];
      }
    }
  }

  /** What the lookup answers on a faithful encoder, for every block number and any timestamps. */
  lemma {:induction false} LookupFaithful(e: EncodedDeltas, table: seq<nat>, b: nat)
    requires Faithful(e, table)
    ensures Span(e.runs) == e.maxBlock
    ensures Lookup(e, b) == if 1 <= e.maxBlock && b <= e.maxBlock then Some(Envelope(table, b)) else None
  {
    SpanIsLength(e.runs);
    if e.runs != [] { LastDelta(e.runs); }
  }

  /** The lookup returns the recorded time of a block exactly when time never ran backwards up to it. */
  lemma {:induction false} RoundTrip(e: EncodedDeltas, table: seq<nat>, b: nat)
    requires Faithful(e, table) && 1 <= e.maxBlock && b <= e.maxBlock
    ensures Lookup(e, b) == Some(table[b]) <==> NonDecreasing(table[..b + 1])
    ensures Lookup(e, b).Some? && Lookup(e, b).value >= table[b]
  {
    LookupFaithful(e, table, b);
    EnvelopeLaw(table, b);
  }

  lemma NumberedSorted(from: nat, stamps: seq<nat>, blocks: seq<BlockStamp>)
    requires Sorting.Permutation(blocks, Numbered(from, stamps))
    ensures Sorting.Sort(ByBlock, blocks) == Numbered(from, stamps)
  {
    var n := Numbered(from, stamps);
    ByBlockOrders();
    assert DistinctNumbers(n);
    DistinctKeys(n);
    Sorting.SortIgnoresOrder(ByBlock, n, blocks);
    forall i, j | 0 <= i < j < |n| ensures ByBlock(n[i], n[j]) { }
    Sorting.SortKeepsSorted(ByBlock, n);
  }

  lemma ConsecutiveSorted(e: EncodedDeltas, table: seq<nat>, stamps: seq<nat>)
    requires Faithful(e, table)
    ensures var r := EncodeSorted(e, Numbered(e.maxBlock + 1, stamps));
            r.Ok? && Faithful(r.value, table + stamps) && r.value.maxBlock == e.maxBlock + |stamps|
  {
    hide *;
    if stamps == [] {
      NothingNew(e, table);
    } else {
      var s := Numbered(e.maxBlock + 1, stamps);
      NumberedAccepted(e, table, stamps);
      EncodeSortedMeaning(e, s);
      StepsConcat(table, stamps);
      FaithfulNext(e, table, stamps, EncodeSorted(e, s).value);
    }
  }

  lemma NothingNew(e: EncodedDeltas, table: seq<nat>)
    requires Faithful(e, table)
    ensures EncodeSorted(e, Numbered(e.maxBlock + 1, [])) == Ok(e) && Faithful(e, table + [])
  {
    assert table + [] == table;
  }

  lemma NumberedAccepted(e: EncodedDeltas, table: seq<nat>, stamps: seq<nat>)
    requires Faithful(e, table) && stamps != []
    ensures var s := Numbered(e.maxBlock + 1, stamps);
            && EncodeSorted(e, s).Ok?
            && Stamps(s) == stamps && s != [] && s[|s| - 1] == (e.maxBlock + |stamps|, stamps[|stamps| - 1])
    ensures table != [] && Continues(e) == [table[|table| - 1]]
  {
    var s := Numbered(e.maxBlock + 1, stamps);
    ContinuesTable(e, table);
    NumberedStamps(e.maxBlock + 1, stamps);
    AcceptedAt(e, s);
    hide *;
  }

  lemma ContinuesTable(e: EncodedDeltas, table: seq<nat>)
    requires Faithful(e, table)
    ensures table != [] && Continues(e) == [table[|table| - 1]]
  {
    hide Deltas, Steps, Canonical;
  }

  lemma NumberedStamps(from: nat, stamps: seq<nat>)
    requires stamps != []
    ensures var s := Numbered(from, stamps);
            && Stamps(s) == stamps && s != [] && s[0].0 == from
            && s[|s| - 1] == (from + |stamps| - 1, stamps[|stamps| - 1])
  {
    hide *;
    var s := Numbered(from, stamps);
    assert Stamps(s) == stamps;
  }

  lemma AcceptedAt(e: EncodedDeltas, s: seq<BlockStamp>)
    requires s != [] && s[0].0 == e.maxBlock + 1
    ensures EncodeSorted(e, s).Ok?
  {
    hide PushAll, Steps, Stamps;
  }

  lemma FaithfulNext(e: EncodedDeltas, table: seq<nat>, stamps: seq<nat>, e': EncodedDeltas)
    requires Faithful(e, table) && stamps != []
    requires Deltas(e'.runs) == Deltas(e.runs) + Steps([table[|table| - 1]] + stamps)
    requires Steps(table + stamps) == Steps(table) + Steps([table[|table| - 1]] + stamps)
    requires Canonical(e.runs) ==> Canonical(e'.runs)
    requires e'.genesis == e.genesis
    requires e'.maxBlock == e.maxBlock + |stamps| && e'.maxTimestamp == Some(stamps[|stamps| - 1])
    ensures Faithful(e', table + stamps)
  {
    hide Deltas, Steps, Canonical;
  }

  /** A batch that continues at `max_block + 1`, in any order, extends the recorded table by its stamps. */
  lemma {:induction false} ConsecutiveBatch(e: EncodedDeltas, table: seq<nat>, stamps: seq<nat>,
                                            blocks: seq<BlockStamp>)
    requires Faithful(e, table)
    requires Sorting.Permutation(blocks, Numbered(e.maxBlock + 1, stamps))
    ensures Encode(e, blocks).Ok? && Faithful(Encode(e, blocks).value, table + stamps)
    ensures Encode(e, blocks).value.maxBlock == e.maxBlock + |stamps|
  {
    hide Faithful, EncodeSorted, Numbered, Sorting.Sort, Sorting.Permutation;
    NumberedSorted(e.maxBlock + 1, stamps, blocks);
    ConsecutiveSorted(e, table, stamps);
  }

  /** The batch is exactly the blocks that follow `max_block`. */
  ghost predicate Sequential(e: EncodedDeltas, blocks: seq<BlockStamp>) {
    var s := Sorting.Sort(ByBlock, blocks);
    forall i | 0 <= i < |s| :: s[i].0 == e.maxBlock + 1 + i
  }

  ghost predicate Recorded(e: EncodedDeltas, blocks: seq<BlockStamp>) {
    forall x | x in blocks :: Lookup(e, x.0) == Some(x.1)
  }

  lemma SpreadOut(s: seq<BlockStamp>, m: nat, i: nat)
    requires forall i, j | 0 <= i < j < |s| :: s[i].0 < s[j].0
    requires forall x | x in s :: x.0 > m
    requires i < |s|
    ensures s[i].0 >= m + 1 + i
  {
    if i > 0 {
      SpreadOut(s, m, i - 1);
    }
  }

  lemma SortedDistinct(blocks: seq<BlockStamp>)
    requires DistinctNumbers(blocks)
    ensures var s := Sorting.Sort(ByBlock, blocks); forall i, j | 0 <= i < j < |s| :: s[i].0 < s[j].0
  {
    SortedBatch(blocks);
    NumbersAsMultiset(blocks, Sorting.Sort(ByBlock, blocks));
  }

  lemma NumbersAsMultiset(a: seq<BlockStamp>, b: seq<BlockStamp>)
    requires multiset(a) == multiset(b) && DistinctNumbers(a)
    ensures DistinctNumbers(b)
  {
    forall i, j | 0 <= i < j < |b| ensures b[i].0 != b[j].0 {
      if b[i].0 == b[j].0 {
        Twice(b, i, j);
        assert b[i] in a by { assert b[i] in multiset(a); }
        assert b[j] in a by { assert b[j] in multiset(a); }
        var k :| 0 <= k < |a| && a[k] == b[i];
        var l :| 0 <= l < |a| && a[l] == b[j];
        assert k == l;
        Once(a, k);
        assert false;
      }
    }
  }

  lemma Twice(s: seq<BlockStamp>, i: nat, j: nat)
    requires i < j < |s|
    ensures s[i] == s[j] ==> multiset(s)[s[i]] >= 2
  {
    assert s == s[..i] + [s[i]] + s[i + 1..j] + [s[j]] + s[j + 1..];
  }

  lemma Once(s: seq<BlockStamp>, k: nat)
    requires k < |s| && DistinctNumbers(s)
    ensures multiset(s)[s[k]] == 1
  {
    assert s == s[..k] + [s[k]] + s[k + 1..];
    assert s[k] !in s[..k] && s[k] !in s[k + 1..];
  }

  /** The recorded times, followed by those of the batch in block order. */
  ghost function TableAfter(table: seq<nat>, blocks: seq<BlockStamp>): (r: seq<nat>)
    ensures |r| == |table| + |blocks|
  {
    Sorting.SortPermutes(ByBlock, blocks);
    table + Stamps(Sorting.Sort(ByBlock, blocks))
  }

  /** Whatever an accepted batch holds, also old blocks, gaps and repeats: afterwards every block up to the
      batch's last one is looked up by its place in the table, as far as that goes. */
  lemma {:induction false} AcceptedLookup(e: EncodedDeltas, table: seq<nat>, blocks: seq<BlockStamp>, b: nat)
    requires Faithful(e, table) && blocks != [] && Encode(e, blocks).Ok?
    ensures var t, e' := TableAfter(table, blocks), Encode(e, blocks).value;
            && Lookup(e', b) == (if b <= e'.maxBlock && b < |t| then Some(Envelope(t, b)) else None)
            && (forall x | x in blocks :: x.0 <= e'.maxBlock)
  {
    var s, e', t := Sorting.Sort(ByBlock, blocks), Encode(e, blocks).value, TableAfter(table, blocks);
    SortedBatch(blocks);
    EncodeMeaning(e, blocks);
    ContinuesTable(e, table);
    assert |Stamps(s)| == |blocks| && t == table + Stamps(s);
    hide Sorting.Sort, Encode, Deltas, Steps, Stamps, Continues, TableAfter, PushAll, Canonical, Sum;
    StepsConcat(table, Stamps(s));
    assert Deltas(e'.runs) == Steps(t) && e'.genesis == Some(t[0]);
    DecodedLookup(e', t, b);
  }

  /** An encoder whose runs stand for the steps of a table answers from that table up to `max_block`. */
  lemma DecodedLookup(e: EncodedDeltas, t: seq<nat>, b: nat)
    requires |t| >= 2 && Deltas(e.runs) == Steps(t) && e.genesis == Some(t[0])
    ensures Lookup(e, b) == if b <= e.maxBlock && b < |t| then Some(Envelope(t, b)) else None
  {
    hide Steps, Sum;
  }

  /** An accepted batch can be looked up again, whatever it holds, if and only if each of its blocks has its
      time at that place of the table, with time never falling. */
  lemma {:induction false} RecordedAfter(e: EncodedDeltas, table: seq<nat>, blocks: seq<BlockStamp>)
    requires Faithful(e, table) && blocks != [] && Encode(e, blocks).Ok?
    ensures var t := TableAfter(table, blocks);
            Recorded(Encode(e, blocks).value, blocks) <==>
            forall x | x in blocks :: x.0 < |t| && Envelope(t, x.0) == x.1
  {
    var t := TableAfter(table, blocks);
    hide Encode, Faithful, Envelope, Lookup, TableAfter;
    forall x | x in blocks
      ensures Lookup(Encode(e, blocks).value, x.0) == if x.0 < |t| then Some(Envelope(t, x.0)) else None
    {
      AcceptedLookup(e, table, blocks, x.0);
    }
  }

  /** New blocks are all recorded exactly when the batch is sequential and time never runs backwards. */
  lemma {:induction false} RecordedExactly(e: EncodedDeltas, table: seq<nat>, blocks: seq<BlockStamp>)
    requires Faithful(e, table) && NonDecreasing(table)
    requires blocks != [] && DistinctNumbers(blocks) && forall x | x in blocks :: x.0 > e.maxBlock
    ensures Encode(e, blocks).Ok?
    ensures Recorded(Encode(e, blocks).value, blocks) <==>
            Sequential(e, blocks) && NonDecreasing(TableAfter(table, blocks))
  {
    RejectedExactly(e, blocks);
    assert |table| == e.maxBlock + 1;
    hide *;
    RecordedAfter(e, table, blocks);
    if Sequential(e, blocks) {
      SequentialRecorded(e, table, blocks);
    } else {
      GapBeyond(e, table, blocks);
    }
  }

  /** The encoder of the times 100 and 110 accepts block 1 with its time again, and answers it, although that
      batch is not sequential. */
  lemma {:induction false} RepeatIsRecorded(e: EncodedDeltas)
    requires e == EncodedDeltas(1, Some(100), 1, Some(110), [DeltaRunLen(1, 10)])
    ensures Faithful(e, [100, 110]) && Encode(e, [(1, 110)]).Ok?
    ensures !Sequential(e, [(1, 110)]) && Recorded(Encode(e, [(1, 110)]).value, [(1, 110)])
  {
    var blocks: seq<BlockStamp>, table := [(1, 110)], [100, 110];
    assert Deltas([]) == [];
    assert Deltas(e.runs) == [10] == Steps(table);
    SortedBatch(blocks);
    RejectedExactly(e, blocks);
    var s, t := Sorting.Sort(ByBlock, blocks), TableAfter(table, blocks);
    assert s[0] in s && s[0] == (1, 110);
    assert s == blocks && t == table + Stamps(s);
    assert Steps(t)[..1] == [10] && [10][..0] == [] && Sum([10]) == 10;
    RecordedAfter(e, table, blocks);
    hide Sorting.Sort, Encode, Deltas, Steps, Sum, Recorded, TableAfter;
    assert Envelope(t, 1) == 110;
  }

  /** After a gap the newest block lies beyond the table. */
  lemma GapBeyond(e: EncodedDeltas, table: seq<nat>, blocks: seq<BlockStamp>)
    requires |table| == e.maxBlock + 1
    requires blocks != [] && DistinctNumbers(blocks) && forall x | x in blocks :: x.0 > e.maxBlock
    requires !Sequential(e, blocks)
    ensures exists x :: x in blocks && x.0 >= |TableAfter(table, blocks)|
  {
    SortedDistinct(blocks);
    SortedBatch(blocks);
    var s := Sorting.Sort(ByBlock, blocks);
    assert s[|s| - 1] in blocks;
    hide Sorting.Sort, DistinctNumbers, TableAfter;
    BeyondGap(s, e.maxBlock);
  }

  lemma BeyondGap(s: seq<BlockStamp>, m: nat)
    requires forall i, j | 0 <= i < j < |s| :: s[i].0 < s[j].0
    requires forall x | x in s :: x.0 > m
    requires exists i :: 0 <= i < |s| && s[i].0 != m + 1 + i
    ensures s[|s| - 1].0 > m + |s|
  {
    var i :| 0 <= i < |s| && s[i].0 != m + 1 + i;
    SpreadOut(s, m, i);
    SpreadFrom(s, i, |s| - 1);
  }

  lemma SpreadFrom(s: seq<BlockStamp>, i: nat, j: nat)
    requires forall i, j | 0 <= i < j < |s| :: s[i].0 < s[j].0
    requires i <= j < |s|
    ensures s[j].0 - j >= s[i].0 - i
  {
    if i < j {
      SpreadFrom(s, i, j - 1);
    }
  }

  lemma SequentialAt(e: EncodedDeltas, table: seq<nat>, blocks: seq<BlockStamp>, i: nat)
    requires |table| == e.maxBlock + 1 && Sequential(e, blocks) && i < |blocks|
    ensures var s, t := Sorting.Sort(ByBlock, blocks), TableAfter(table, blocks);
            |s| == |blocks| && s[i] in blocks && s[i] == (|table| + i, t[|table| + i])
  {
    SortedBatch(blocks);
    hide Sorting.Sort;
  }

  lemma SequentialRecorded(e: EncodedDeltas, table: seq<nat>, blocks: seq<BlockStamp>)
    requires |table| == e.maxBlock + 1 && blocks != [] && Sequential(e, blocks)
    ensures var t := TableAfter(table, blocks);
            (forall x | x in blocks :: x.0 < |t| && Envelope(t, x.0) == x.1) <==> NonDecreasing(t)
  {
    var t, n := TableAfter(table, blocks), |blocks| - 1;
    SortedBatch(blocks);
    hide *;
    SequentialAt(e, table, blocks, n);
    EnvelopeLaw(t, |t| - 1);
    assert t[..|t|] == t;
    if NonDecreasing(t) {
      forall x | x in blocks ensures x.0 < |t| && Envelope(t, x.0) == x.1 {
        var s := Sorting.Sort(ByBlock, blocks);
        var i :| 0 <= i < |s| && s[i] == x;
        SequentialAt(e, table, blocks, i);
        PrefixNonDecreasing(t, x.0 + 1);
        EnvelopeLaw(t, x.0);
      }
    }
  }

  lemma PrefixNonDecreasing(t: seq<nat>, n: nat)
    requires NonDecreasing(t) && n <= |t|
    ensures NonDecreasing(t[..n])
  {
  }

  // ----- polling a chain

  /** A chain as the encoder sees it: the header time of every block. */
  datatype Chain = Chain(time: nat -> nat)

  /** The chain's timestamps up to block `n`, with the configured genesis time for block 0. */
  ghost function Table(genesis: nat, chain: Chain, n: nat): seq<nat> {
    if n == 0 then [genesis] else Table(genesis, chain, n - 1) + [chain.time(n)]
  }

  /** Nothing encoded yet, or exactly the chain's timestamps up to `max_block`. */
  ghost predicate Tracks(e: EncodedDeltas, chain: Chain) {
    if e.genesis.None? then e.maxBlock == 0 && e.runs == []
    else Faithful(e, Table(e.genesis.value, chain, e.maxBlock))
  }

  /** Every reply, unless the request failed, holds the requested headers in some order. */
  ghost predicate HonestReply(request: seq<nat>, reply: Option<seq<BlockStamp>>, chain: Chain) {
    reply.Some? ==> Sorting.Permutation(reply.value, Headers(request, chain))
  }

  ghost function Headers(request: seq<nat>, chain: Chain): seq<BlockStamp> {
    if request == [] then []
    else Headers(request[..|request| - 1], chain) + [(request[|request| - 1], chain.time(request[|request| - 1]))]
  }

  ghost predicate HonestProvider(provider: nat -> seq<nat> -> Option<seq<BlockStamp>>, chain: Chain) {
    forall round, request :: HonestReply(request, provider(round)(request), chain)
  }

  /** The provider answers this round, whatever it is asked. */
  ghost predicate AnswersRound(provider: nat -> seq<nat> -> Option<seq<BlockStamp>>, round: nat) {
    forall request :: provider(round)(request).Some?
  }

  /** How many of the first `n` rounds are answered. */
  ghost function AnsweredRounds(provider: nat -> seq<nat> -> Option<seq<BlockStamp>>, n: nat): nat {
    if n == 0 then 0 else AnsweredRounds(provider, n - 1) + if AnswersRound(provider, n - 1) then 1 else 0
  }

  lemma {:induction false} RoundTracks(e: EncodedDeltas, network: nat, batchSize: nat, reply: Option<seq<BlockStamp>>,
                                       chain: Chain)
    requires Tracks(e, chain) && HonestReply(NextBlocks(e.maxBlock, batchSize), reply, chain)
    ensures Tracks(Polled(e, network, reply), chain)
    ensures Polled(e, network, reply).maxBlock == e.maxBlock + if reply.Some? then batchSize else 0
  {
    hide Sorting.Permutation, Encode, Headers, Table, NextBlocks;
    var started := WithGenesis(e, network);
    StartedTracks(e, network, chain);
    if reply.Some? {
      HonestBatch(started, batchSize, reply.value, chain);
    }
  }

  lemma HonestBatch(e: EncodedDeltas, batchSize: nat, blocks: seq<BlockStamp>, chain: Chain)
    requires e.genesis.Some? && Faithful(e, Table(e.genesis.value, chain, e.maxBlock))
    requires Sorting.Permutation(blocks, Headers(NextBlocks(e.maxBlock, batchSize), chain))
    ensures Encode(e, blocks).Ok?
    ensures var e' := Encode(e, blocks).value;
            Faithful(e', Table(e.genesis.value, chain, e'.maxBlock)) && e'.maxBlock == e.maxBlock + batchSize
  {
    hide *;
    var stamps := NextStamps(e.maxBlock, batchSize, chain);
    HeadersAreNumbered(e.maxBlock, batchSize, chain);
    TableExtends(e.genesis.value, chain, e.maxBlock, batchSize);
    NextBatch(e, Table(e.genesis.value, chain, e.maxBlock), stamps, blocks,
              Table(e.genesis.value, chain, e.maxBlock + batchSize));
  }

  lemma NextBatch(e: EncodedDeltas, table: seq<nat>, stamps: seq<nat>, blocks: seq<BlockStamp>, table': seq<nat>)
    requires Faithful(e, table) && table' == table + stamps
    requires Sorting.Permutation(blocks, Numbered(e.maxBlock + 1, stamps))
    ensures Encode(e, blocks).Ok? && Faithful(Encode(e, blocks).value, table')
    ensures Encode(e, blocks).value.maxBlock == e.maxBlock + |stamps|
  {
    hide *;
    ConsecutiveBatch(e, table, stamps, blocks);
  }

  lemma {:induction false} HeadersAreNumbered(maxBlock: nat, n: nat, chain: Chain)
    ensures |NextStamps(maxBlock, n, chain)| == n
    ensures Headers(NextBlocks(maxBlock, n), chain) == Numbered(maxBlock + 1, NextStamps(maxBlock, n, chain))
  {
    if n > 0 {
      HeadersAreNumbered(maxBlock, n - 1, chain);
      var r, s := NextBlocks(maxBlock, n), NextStamps(maxBlock, n, chain);
      assert r[..n - 1] == NextBlocks(maxBlock, n - 1) && s[..n - 1] == NextStamps(maxBlock, n - 1, chain);
    }
  }

  lemma {:induction false} TableExtends(genesis: nat, chain: Chain, maxBlock: nat, n: nat)
    ensures Table(genesis, chain, maxBlock) + NextStamps(maxBlock, n, chain) == Table(genesis, chain, maxBlock + n)
  {
    if n > 0 {
      TableExtends(genesis, chain, maxBlock, n - 1);
    }
  }

  lemma {:induction false} TableAt(genesis: nat, chain: Chain, n: nat)
    ensures var t := Table(genesis, chain, n);
            |t| == n + 1 && t[0] == genesis && forall b | 1 <= b <= n :: t[b] == chain.time(b)
  {
    if n > 0 {
      TableAt(genesis, chain, n - 1);
    }
  }

  lemma StartedTracks(e: EncodedDeltas, network: nat, chain: Chain)
    requires Tracks(e, chain)
    ensures var started := WithGenesis(e, network);
            started.genesis.Some? && Faithful(started, Table(started.genesis.value, chain, started.maxBlock))
  {
    if e.genesis.None? {
      assert Steps(Table(GenesisTime(network), chain, 0)) == [];
    }
  }

  ghost function NextStamps(maxBlock: nat, n: nat, chain: Chain): seq<nat> {
    if n == 0 then [] else NextStamps(maxBlock, n - 1, chain) + [chain.time(maxBlock + n)]
  }

  /** Over any run of polling, block `b` is answered with the chain's own time, genesis with the
      configured time and nothing beyond `max_block`, as long as the chain's time never runs backwards. */
  lemma {:induction false} PolledLookup(e: EncodedDeltas, chain: Chain, b: nat)
    requires Tracks(e, chain)
    requires forall i, j | 1 <= i <= j :: chain.time(i) <= chain.time(j)
    requires e.genesis.Some? ==> e.genesis.value <= chain.time(1)
    ensures Lookup(e, b) ==
            if e.maxBlock == 0 || b > e.maxBlock then None
            else if b == 0 then e.genesis
            else Some(chain.time(b))
  {
    if e.genesis.Some? {
      var table := Table(e.genesis.value, chain, e.maxBlock);
      TableAt(e.genesis.value, chain, e.maxBlock);
      LookupFaithful(e, table, b);
      if 1 <= e.maxBlock && b <= e.maxBlock {
        var t := table[..b + 1];
        forall i, j | 0 <= i < j < |t| ensures t[i] <= t[j] {
          assert i == 0 ==> t[i] <= chain.time(1) <= chain.time(j);
          assert i > 0 ==> chain.time(i) <= chain.time(j);
        }
        RoundTrip(e, table, b);
      }
    }
  }

  // ----- the index over many batches

  function EncodeAll(e: EncodedDeltas, batches: seq<seq<BlockStamp>>): EncodedDeltas
    decreases |batches|
  {
    if batches == [] then e
    else
      var r := Encode(e, batches[0]);
      EncodeAll(if r.Ok? then r.value else e, batches[1..])
  }

  /** Any number of further batches, without a rebuild, leaves every index entry exact. */
  lemma {:induction false} IndexSurvivesGrowth(e: EncodedDeltas, index: map<nat, Checkpoint>,
                                               batches: seq<seq<BlockStamp>>)
    requires IndexOk(e, index)
    ensures IndexOk(EncodeAll(e, batches), index)
    decreases |batches|
  {
    if batches != [] {
      var r := Encode(e, batches[0]);
      if r.Ok? {
        EncodeKeepsIndex(e, batches[0], index);
        IndexSurvivesGrowth(r.value, index, batches[1..]);
      } else {
        IndexSurvivesGrowth(e, index, batches[1..]);
      }
    }
  }

  // ----- the batch lookup

  /** The batch lookup answers all that the single lookup answers exactly when neither the newest block
      nor a block before the checkpoint of the largest request is asked for. */
  lemma {:induction false} BatchCompleteExactly(e: EncodedDeltas, table: seq<nat>, index: map<nat, Checkpoint>,
                                                blocks: seq<nat>)
    requires Faithful(e, table) && 1 <= e.maxBlock
    ensures (forall b | b in blocks && Lookup(e, b).Some? :: BatchAnswers(e, index, blocks, b)) <==>
            e.maxBlock !in blocks &&
            forall b | b in blocks && b < e.maxBlock :: BatchStart(e, index, blocks) <= b
  {
    SpanIsLength(e.runs);
    forall b: nat ensures Lookup(e, b).Some? <==> b <= e.maxBlock {
      LookupFaithful(e, table, b);
    }
    if e.maxBlock in blocks {
      assert Lookup(e, e.maxBlock).Some? && !BatchAnswers(e, index, blocks, e.maxBlock);
    }
    if b :| b in blocks && b < e.maxBlock && BatchStart(e, index, blocks) > b {
      assert Lookup(e, b).Some? && !BatchAnswers(e, index, blocks, b);
    }
  }

  /** Two requests that the single lookup answers and the batch lookup does not: the newest block,
      and a block before the checkpoint of the largest request. The index is the one that loading builds. */
  lemma {:induction false} BatchMisses(e: EncodedDeltas, index: map<nat, Checkpoint>)
    requires e == EncodedDeltas(1, Some(100), 100_001, Some(1_000_120), [DeltaRunLen(100_000, 10), DeltaRunLen(1, 20)])
    requires index == map[0 := Checkpoint(0, 100), 100_000 := Checkpoint(1, 1_000_100)]
    ensures IndexOk(e, index)
    ensures forall k :: k in index <==>
              k % 100_000 == 0 && exists i | 0 <= i < |e.runs| :: k == Span(e.runs[..i])
    ensures Lookup(e, 100_001).Some? && !BatchAnswers(e, index, [100_001], 100_001)
    ensures Lookup(e, 0).Some? && !BatchAnswers(e, index, [0, 100_000], 0)
  {
    var runs := e.runs;
    TwoRuns(runs);
    SpanIsLength(runs);
    assert Largest([100_000], 100_001) == Some(100_000) && [0, 100_000][1..] == [100_000];
    assert BatchStart(e, index, [0, 100_000]) == 100_000;
    hide Deltas, Span, Elapsed, Sum;
    forall k | k in index ensures exists i | 0 <= i < |runs| :: k == Span(runs[..i]) {
      assert k == Span(runs[..if k == 0 then 0 else 1]);
    }
  }

  lemma TwoRuns(runs: seq<DeltaRunLen>)
    requires runs == [DeltaRunLen(100_000, 10), DeltaRunLen(1, 20)]
    ensures Span(runs) == 100_001
    ensures Span(runs[..0]) == 0 && Elapsed(runs[..0]) == 0
    ensures Span(runs[..1]) == 100_000 && Elapsed(runs[..1]) == 1_000_000
  {
    assert runs[..1][..0] == [] && runs[..|runs| - 1] == runs[..1] && runs[..0] == [];
    assert Span(runs) == Span(runs[..1]) + runs[1].len;
  }

  // ----- machine arithmetic

  /** The sum formed `n` blocks into run `i`. */
  function RunTime(e: EncodedDeltas, i: nat, n: nat): nat
    requires e.genesis.Some? && i < |e.runs|
  {
    e.genesis.value + Elapsed(e.runs[..i]) + e.runs[i].delta * n
  }

  lemma RunTimeBelowEnd(e: EncodedDeltas, i: nat, n: nat)
    requires e.genesis.Some? && i < |e.runs| && n <= e.runs[i].len
    ensures e.runs[i].delta * n <= RunTime(e, i, n) <= e.genesis.value + Elapsed(e.runs)
  {
    StepInto(e.runs, i);
    DeltasPrefix(e.runs, i + 1);
    MulMonotone(n, e.runs[i].len, e.runs[i].delta);
  }

  /** All products and time sums that index building and the lookups form fit into 64 bits exactly when the
      last sum does; all sums of blocks are at most `max_block`. */
  lemma {:induction false} SumsFitExactly(e: EncodedDeltas, table: seq<nat>)
    requires Faithful(e, table) && 1 <= e.maxBlock
    ensures (forall i, n | 0 <= i < |e.runs| && 0 <= n <= e.runs[i].len ::
               RunTime(e, i, n) < U64 && e.runs[i].delta * n < U64) <==>
            Envelope(table, e.maxBlock) < U64
    ensures forall i | 0 <= i < |e.runs| :: Span(e.runs[..i]) + e.runs[i].len <= e.maxBlock
    ensures NonDecreasing(table) ==> e.maxTimestamp == Some(Envelope(table, e.maxBlock))
  {
    LookupFaithful(e, table, 0);
    TotalTime(e, table);
    hide *;
    forall i, n | 0 <= i < |e.runs| && 0 <= n <= e.runs[i].len
      ensures e.runs[i].delta * n <= RunTime(e, i, n) <= Envelope(table, e.maxBlock)
    {
      RunTimeBelowEnd(e, i, n);
    }
    forall i | 0 <= i < |e.runs| ensures Span(e.runs[..i]) + e.runs[i].len <= e.maxBlock {
      StepInto(e.runs, i);
      DeltasPrefix(e.runs, i + 1);
      SpanIsLength(e.runs);
    }
    var last := |e.runs| - 1;
    assert e.runs[..last + 1] == e.runs;
    StepInto(e.runs, last);
    LastSum(e, last);
    FitsAtLast(e, last, Envelope(table, e.maxBlock));
  }

  lemma FitsAtLast(e: EncodedDeltas, last: nat, total: nat)
    requires e.genesis.Some? && last < |e.runs| && RunTime(e, last, e.runs[last].len) == total
    requires forall i, n | 0 <= i < |e.runs| && 0 <= n <= e.runs[i].len ::
               e.runs[i].delta * n <= RunTime(e, i, n) <= total
    ensures (forall i, n | 0 <= i < |e.runs| && 0 <= n <= e.runs[i].len ::
               RunTime(e, i, n) < U64 && e.runs[i].delta * n < U64) <==> total < U64
  {
    hide *;
  }

  lemma LastSum(e: EncodedDeltas, last: nat)
    requires e.genesis.Some? && last < |e.runs|
    requires Elapsed(e.runs) == Elapsed(e.runs[..last]) + e.runs[last].delta * e.runs[last].len
    ensures RunTime(e, last, e.runs[last].len) == e.genesis.value + Elapsed(e.runs)
  {
  }

  lemma TotalTime(e: EncodedDeltas, table: seq<nat>)
    requires Faithful(e, table) && 1 <= e.maxBlock
    ensures e.runs != [] && e.genesis.Some? && |table| == e.maxBlock + 1
    ensures e.genesis.value + Elapsed(e.runs) == Envelope(table, e.maxBlock)
    ensures NonDecreasing(table) ==> e.maxTimestamp == Some(Envelope(table, e.maxBlock))
  {
    SpanIsLength(e.runs);
    ElapsedIsSum(e.runs);
    assert Steps(table)[..e.maxBlock] == Steps(table);
    EnvelopeLaw(table, e.maxBlock);
    assert table[..e.maxBlock + 1] == table;
  }
}
