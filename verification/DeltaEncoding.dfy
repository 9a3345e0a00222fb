/** What encoding, the checkpoint index and the two lookups mean, as functions on values. */
module DeltaEncoding {
  import opened Basics
  import opened Options
  import opened BlockLists
  import opened DeltaRuns
  import Sorting

  const MAGIC_INDEX_INTERVAL: nat := 100_000

  datatype EncodedDeltas = EncodedDeltas(
    network: nat,
    genesis: Option<nat>,
    maxBlock: nat,
    maxTimestamp: Option<nat>,
    runs: seq<DeltaRunLen>)

  /** An index entry: the run that starts at the block and the time at which it starts. */
  datatype Checkpoint = Checkpoint(run: nat, timestamp: nat)

  datatype EncodeError = NotSequential(expected: nat, got: nat)

  type BlockStamp = (nat, nat)

  // ----- what encoding means

  predicate ByBlock(a: BlockStamp, b: BlockStamp) { a.0 <= b.0 }

  function Stamps(blocks: seq<BlockStamp>): (r: seq<nat>)
    ensures |r| == |blocks| && forall i | 0 <= i < |r| :: r[i] == blocks[i].1
  {
    if blocks == [] then [] else Stamps(blocks[..|blocks| - 1]) + [blocks[|blocks| - 1].1]
  }

  /** The encoded deltas between neighbouring stamps; a step back in time counts as no step. */
  function Steps(table: seq<nat>): (r: seq<nat>)
    ensures |r| == if table == [] then 0 else |table| - 1
    ensures forall i | 0 <= i < |r| :: r[i] == SaturatingSub(table[i + 1], table[i])
  {
    var n := |table|;
    if n < 2 then [] else Steps(table[..n - 1]) + [SaturatingSub(table[n - 1], table[n - 2])]
  }

  /** The stamp that the next batch continues from, if there is one. */
  function Continues(e: EncodedDeltas): seq<nat> {
    var previous := if e.maxBlock == 0 then e.genesis else e.maxTimestamp;
    if previous.Some? then [previous.value] else []
  }

  predicate Rejected(e: EncodedDeltas, first: nat) {
    first != e.maxBlock + 1 && e.maxBlock == 0 && first < 2
  }

  function EncodeSorted(e: EncodedDeltas, sorted: seq<BlockStamp>): (r: Result<EncodedDeltas, EncodeError>)
    ensures r.Ok? ==> r.value.genesis == e.genesis
  {
    if sorted == [] then Ok(e)
    else if Rejected(e, sorted[0].0) then Err(NotSequential(e.maxBlock + 1, sorted[0].0))
    else
      var last := sorted[|sorted| - 1];
      Ok(e.(runs := PushAll(e.runs, Steps(Continues(e) + Stamps(sorted))),
            maxBlock := last.0,
            maxTimestamp := Some(last.1)))
  }

  function Encode(e: EncodedDeltas, blocks: seq<BlockStamp>): (r: Result<EncodedDeltas, EncodeError>)
    ensures r.Ok? ==> r.value.genesis == e.genesis
  {
    EncodeSorted(e, Sorting.Sort(ByBlock, blocks))
  }

  /** Hard-wired genesis times; every other network starts at 0. */
  function GenesisTime(network: nat): nat {
    match network
    case 1 => 1438269973
    case 10 => 1610639500
    case 42161 => 1622240000
    case _ => 0
  }

  function WithGenesis(e: EncodedDeltas, network: nat): EncodedDeltas {
    if e.genesis.None? then e.(genesis := Some(GenesisTime(network))) else e
  }

  /** The encoder after one round of polling that was answered with `reply`, or not answered. */
  function Polled(e: EncodedDeltas, network: nat, reply: Option<seq<BlockStamp>>): (r: EncodedDeltas)
    ensures r.genesis == Some(if e.genesis.Some? then e.genesis.value else GenesisTime(network))
  {
    var started := WithGenesis(e, network);
    if reply.None? then started
    else
      var r := Encode(started, reply.value);
      if r.Ok? then r.value else started
  }

  function NextBlocks(maxBlock: nat, batchSize: nat): (r: seq<nat>)
    ensures |r| == batchSize && forall i | 0 <= i < |r| :: r[i] == maxBlock + 1 + i
  {
    if batchSize == 0 then [] else NextBlocks(maxBlock, batchSize - 1) + [maxBlock + batchSize]
  }

  // ----- what the lookups mean

  /** The time `b` blocks after genesis, summed delta by delta without runs or index. */
  function TimeAt(e: EncodedDeltas, b: nat): nat
    requires e.genesis.Some? && b <= |Deltas(e.runs)|
  {
    e.genesis.value + Sum(Deltas(e.runs)[..b])
  }

  function Lookup(e: EncodedDeltas, b: nat): Option<nat> {
    if e.genesis.Some? && b <= e.maxBlock && e.runs != [] && b <= |Deltas(e.runs)|
    then Some(TimeAt(e, b))
    else None
  }

  ghost predicate CheckpointOk(e: EncodedDeltas, k: nat, c: Checkpoint) {
    && e.genesis.Some?
    && c.run < |e.runs|
    && k == Span(e.runs[..c.run])
    && c.timestamp == e.genesis.value + Elapsed(e.runs[..c.run])
  }

  /** Every checkpoint still names a run, its first block and the exact time before it. */
  ghost predicate IndexOk(e: EncodedDeltas, index: map<nat, Checkpoint>) {
    forall k | k in index :: CheckpointOk(e, k, index[k])
  }

  function LatestCheckpoint(index: map<nat, Checkpoint>, b: nat): (r: Option<nat>)
    ensures r.None? ==> forall k | k in index :: k > b
    ensures r.Some? ==> r.value in index && r.value <= b && forall k | k in index && k <= b :: k <= r.value
  {
    if b in index then Some(b)
    else if b == 0 then None
    else LatestCheckpoint(index, b - 1)
  }

  /** The largest requested block that is not above `limit`. */
  function Largest(blocks: seq<nat>, limit: nat): (r: Option<nat>)
    ensures r.None? ==> forall b | b in blocks :: b > limit
    ensures r.Some? ==> r.value in blocks && r.value <= limit && forall b | b in blocks && b <= limit :: b <= r.value
  {
    if blocks == [] then None
    else
      assert forall b :: b in blocks <==> b == blocks[0] || b in blocks[1..];
      var rest := Largest(blocks[1..], limit);
      if blocks[0] > limit then rest
      else if rest.Some? && rest.value >= blocks[0] then rest
      else Some(blocks[0])
  }

  /** The block at which the batch lookup starts to walk. */
  function BatchStart(e: EncodedDeltas, index: map<nat, Checkpoint>, blocks: seq<nat>): nat {
    var largest := Largest(blocks, e.maxBlock);
    if largest.None? then 0
    else
      var checkpoint := LatestCheckpoint(index, largest.value);
      if checkpoint.Some? then checkpoint.value else 0
  }

  /** The blocks that the batch lookup answers. */
  predicate BatchAnswers(e: EncodedDeltas, index: map<nat, Checkpoint>, blocks: seq<nat>, b: nat) {
    && e.genesis.Some?
    && b in blocks
    && b <= e.maxBlock
    && BatchStart(e, index, blocks) <= b < |Deltas(e.runs)|
  }

  /** The batch lookup's answer as a map. */
  function BatchMap(e: EncodedDeltas, index: map<nat, Checkpoint>, blocks: seq<nat>): (r: map<nat, nat>)
    ensures forall b :: b in r <==> BatchAnswers(e, index, blocks, b)
    ensures forall b | b in r :: Lookup(e, b) == Some(r[b])
  {
    map b | b in blocks && BatchAnswers(e, index, blocks, b) :: TimeAt(e, b)
  }

  // ----- request lists

  function UpTo(blocks: seq<nat>, limit: nat): (r: seq<nat>)
    ensures forall b :: b in r <==> b in blocks && b <= limit
  {
    if blocks == [] then []
    else if blocks[0] <= limit then [blocks[0]] + UpTo(blocks[1..], limit)
    else UpTo(blocks[1..], limit)
  }

  function SortedRequest(blocks: seq<nat>, limit: nat): seq<nat> {
    SortDedup(UpTo(blocks, limit))
  }

  lemma SortedRequestMeaning(blocks: seq<nat>, limit: nat)
    ensures Increasing(SortedRequest(blocks, limit))
    ensures forall b :: b in SortedRequest(blocks, limit) <==> b in blocks && b <= limit
  {
    SortDedupMeaning(UpTo(blocks, limit));
  }

  lemma SortedRequestLast(blocks: seq<nat>, limit: nat, r: seq<nat>)
    requires Increasing(r) && r != [] && forall b :: b in r <==> b in blocks && b <= limit
    ensures Largest(blocks, limit) == Some(r[|r| - 1])
  {
    var top := r[|r| - 1];
    assert top in r;
    var largest := Largest(blocks, limit);
    assert largest.Some?;
    assert largest.value in r;
    var i :| 0 <= i < |r| && r[i] == largest.value;
  }

  lemma LookupInRun(e: EncodedDeltas, i: nat, b: nat, bnum: nat, aggTs: nat)
    requires e.genesis.Some? && b <= e.maxBlock && i < |e.runs|
    requires bnum == Span(e.runs[..i]) && aggTs == e.genesis.value + Elapsed(e.runs[..i])
    requires bnum <= b <= bnum + e.runs[i].len
    ensures Lookup(e, b) == Some(aggTs + e.runs[i].delta * (b - bnum))
  {
    WithinRun(e.runs, i, b);
  }

  /** The batch lookup has walked up to block `bnum`: the first `done` requests are dealt with, those from
      `start` on answered as the single lookup answers them. */
  ghost predicate Walked(e: EncodedDeltas, requested: seq<nat>, done: nat, bnum: nat, start: nat,
                         output: map<nat, nat>) {
    && done <= |requested|
    && (forall j | 0 <= j < done :: requested[j] < bnum)
    && (done < |requested| && requested[done] < bnum ==> bnum == start)
    && (forall b :: b in output <==> b in requested[..done] && start <= b)
    && (forall b | b in output :: Lookup(e, b) == Some(output[b]))
  }

  lemma NothingRequested(e: EncodedDeltas, index: map<nat, Checkpoint>, blocks: seq<nat>, requested: seq<nat>)
    requires requested == [] && forall b :: b in requested <==> b in blocks && b <= e.maxBlock
    ensures forall b :: !BatchAnswers(e, index, blocks, b)
  {
    forall b ensures !BatchAnswers(e, index, blocks, b) {
      assert b !in requested;
    }
  }

  lemma WalkStarts(e: EncodedDeltas, index: map<nat, Checkpoint>, blocks: seq<nat>, requested: seq<nat>, start: nat)
    requires requested != [] && Increasing(requested)
    requires forall b :: b in requested <==> b in blocks && b <= e.maxBlock
    requires var checkpoint := LatestCheckpoint(index, requested[|requested| - 1]);
             start == if checkpoint.Some? then checkpoint.value else 0
    ensures start == BatchStart(e, index, blocks)
    ensures Walked(e, requested, 0, start, start, map[])
    ensures forall b | b in requested :: b <= e.maxBlock
  {
    SortedRequestLast(blocks, e.maxBlock, requested);
  }

  lemma {:induction false} BatchDomain(e: EncodedDeltas, index: map<nat, Checkpoint>, blocks: seq<nat>,
                    requested: seq<nat>, done: nat, output: map<nat, nat>)
    requires e.genesis.Some? && Increasing(requested)
    requires forall b :: b in requested <==> b in blocks && b <= e.maxBlock
    requires Walked(e, requested, done, Span(e.runs), BatchStart(e, index, blocks), output)
    ensures forall b :: b in output <==> BatchAnswers(e, index, blocks, b)
    ensures forall b | b in output :: Lookup(e, b) == Some(output[b])
  {
    SpanIsLength(e.runs);
    hide Span, Deltas, Lookup, BatchStart;
    forall b | b in output ensures BatchAnswers(e, index, blocks, b) {
      var j :| 0 <= j < done && requested[..done][j] == b;
      assert requested[j] == b && b in requested;
    }
    forall b | BatchAnswers(e, index, blocks, b) ensures b in output {
      assert b in requested;
      var j :| 0 <= j < |requested| && requested[j] == b;
      if j < done {
        assert requested[..done][j] == b;
      }
    }
  }

  /** The stamp that block `i` of a sorted batch is compared with. */
  ghost function PreviousAt(e: EncodedDeltas, sorted: seq<BlockStamp>, i: nat): Option<nat>
    requires i <= |sorted|
  {
    if i > 0 then Some(sorted[i - 1].1)
    else if e.maxBlock == 0 then e.genesis else e.maxTimestamp
  }

  /** The runs after the first `i` blocks of a sorted batch. */
  ghost function RunsAfter(e: EncodedDeltas, sorted: seq<BlockStamp>, i: nat): seq<DeltaRunLen>
    requires i <= |sorted|
  {
    if i == 0 then e.runs
    else
      var previous := PreviousAt(e, sorted, i - 1);
      if previous.None? then RunsAfter(e, sorted, i - 1)
      else Push(RunsAfter(e, sorted, i - 1), SaturatingSub(sorted[i - 1].1, previous.value))
  }

  lemma {:induction false} RunsAfterMeaning(e: EncodedDeltas, sorted: seq<BlockStamp>, i: nat)
    requires i <= |sorted|
    ensures var table := Continues(e) + Stamps(sorted);
            RunsAfter(e, sorted, i) == PushAll(e.runs, Steps(table[..|Continues(e)| + i]))
  {
    hide *;
    if i == 0 {
      RunsAfterNothing(e, sorted);
    } else {
      RunsAfterMeaning(e, sorted, i - 1);
      RunsAfterNext(e, sorted, i - 1);
      PushNextStep(e.runs, Continues(e) + Stamps(sorted), |Continues(e)| + i - 1);
    }
  }

  lemma RunsAfterNothing(e: EncodedDeltas, sorted: seq<BlockStamp>)
    ensures var table := Continues(e) + Stamps(sorted);
            RunsAfter(e, sorted, 0) == PushAll(e.runs, Steps(table[..|Continues(e)| + 0]))
  {
    var table := Continues(e) + Stamps(sorted);
    assert table[..|Continues(e)|] == Continues(e);
    assert Steps(Continues(e)) == [];
  }

  lemma RunsAfterAll(e: EncodedDeltas, sorted: seq<BlockStamp>)
    ensures RunsAfter(e, sorted, |sorted|) == PushAll(e.runs, Steps(Continues(e) + Stamps(sorted)))
  {
    hide *;
    RunsAfterMeaning(e, sorted, |sorted|);
    var table := Continues(e) + Stamps(sorted);
    assert table[..|table|] == table;
  }

  lemma PushNextStep(runs: seq<DeltaRunLen>, table: seq<nat>, m: nat)
    requires m < |table|
    ensures PushAll(runs, Steps(table[..m + 1])) ==
            if m == 0 then PushAll(runs, Steps(table[..m]))
            else Push(PushAll(runs, Steps(table[..m])), SaturatingSub(table[m], table[m - 1]))
  {
    hide *;
    StepsNext(table, m);
    if m > 0 {
      PushAllNext(runs, Steps(table[..m]), SaturatingSub(table[m], table[m - 1]));
    } else {
      assert Steps(table[..0]) + [] == Steps(table[..0]);
    }
  }

  lemma RunsAfterNext(e: EncodedDeltas, sorted: seq<BlockStamp>, i: nat)
    requires i < |sorted|
    ensures var table, m := Continues(e) + Stamps(sorted), |Continues(e)| + i;
            RunsAfter(e, sorted, i + 1) ==
            if m == 0 then RunsAfter(e, sorted, i)
            else Push(RunsAfter(e, sorted, i), SaturatingSub(table[m], table[m - 1]))
  {
    hide Push, Steps, PushAll;
  }

  lemma StepsNext(table: seq<nat>, m: nat)
    requires m < |table|
    ensures Steps(table[..m + 1]) ==
            Steps(table[..m]) + if m == 0 then [] else [SaturatingSub(table[m], table[m - 1])]
  {
    assert table[..m + 1][..m] == table[..m];
  }

  lemma PushAllNext(runs: seq<DeltaRunLen>, deltas: seq<nat>, delta: nat)
    ensures PushAll(runs, deltas + [delta]) == Push(PushAll(runs, deltas), delta)
  {
    assert (deltas + [delta])[..|deltas|] == deltas;
  }

  /** Growth of the run list leaves every checkpoint exact: the index needs no rebuild. */
  lemma {:induction false} EncodeKeepsIndex(e: EncodedDeltas, blocks: seq<BlockStamp>, index: map<nat, Checkpoint>)
    requires IndexOk(e, index) && Encode(e, blocks).Ok?
    ensures IndexOk(Encode(e, blocks).value, index)
  {
    var sorted := Sorting.Sort(ByBlock, blocks);
    if sorted != [] {
      var e' := Encode(e, blocks).value;
      PushAllMeaning(e.runs, Steps(Continues(e) + Stamps(sorted)));
      forall k | k in index ensures CheckpointOk(e', k, index[k]) {
        assert CheckpointOk(e, k, index[k]);
        GrowsKeepsPrefix(e.runs, e'.runs, index[k].run);
      }
    }
  }

  /** The networks with a genesis time of their own. */
  const GENESIS_TIMES: seq<(nat, nat)> := [(1, 1438269973), (10, 1610639500), (42161, 1622240000)]

  lemma {:induction false} GenesisTable(i: nat, network: nat)
    ensures i < |GENESIS_TIMES| ==> GenesisTime(GENESIS_TIMES[i].0) == GENESIS_TIMES[i].1
    ensures network !in [1, 10, 42161] ==> GenesisTime(network) == 0
  {
    if network !in [1, 10, 42161] {
      assert 1 in [1, 10, 42161] && 10 in [1, 10, 42161] && 42161 in [1, 10, 42161];
    }
  }
}
