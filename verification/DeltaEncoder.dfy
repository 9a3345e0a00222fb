/** The delta run length encoder: its state, and the methods that change and read it. */
module DeltaEncoders {
  import opened Basics
  import opened Options
  import opened BlockLists
  import opened DeltaRuns
  import opened DeltaEncoding
  import opened EncodingLaws
  import opened LogStamping
  import Sorting

  class DeltaEncoder {
    const network: nat
    var encoded: EncodedDeltas
    var index: map<nat, Checkpoint>

    ghost predicate Valid() reads this { IndexOk(encoded, index) }

    constructor (network: nat)
      ensures Valid()
      ensures this.network == network
      ensures encoded == EncodedDeltas(network, None, 0, None, []) && index == map[]
    {
      this.network := network;
      encoded := EncodedDeltas(network, None, 0, None, []);
      index := map[];
    }

    /** Restores an encoder from decoded file contents, whatever they are. */
    constructor FromDecoded(network: nat, contents: EncodedDeltas)
      ensures Valid()
      ensures this.network == network && encoded == contents
      ensures forall k :: k in index <==>
        contents.genesis.Some? && k % 100_000 == 0 &&
        exists i | 0 <= i < |contents.runs| :: k == Span(contents.runs[..i])
    {
      this.network := network;
      encoded := contents;
      index := map[];
      new;
      BuildIndex(MAGIC_INDEX_INTERVAL);
    }

    method BuildIndex(interval: nat)
      requires Valid() && interval > 0
      modifies this`index
      ensures Valid()
      ensures forall k :: k in index <==>
        k in old(index) ||
        (encoded.genesis.Some? && k % interval == 0 &&
         exists i | 0 <= i < |encoded.runs| :: k == Span(encoded.runs[..i]))
    {
      if encoded.genesis.None? {
        return;
      }
      var bnum, aggTs := 0, encoded.genesis.value;
      var runs := encoded.runs;
      for i := 0 to |runs|
        invariant bnum == Span(runs[..i])
        invariant aggTs == encoded.genesis.value + Elapsed(runs[..i])
        invariant Valid()
        invariant forall k :: k in index <==>
          k in old(index) || (k % interval == 0 && exists j | 0 <= j < i :: k == Span(runs[..j]))
      {
        if bnum % interval == 0 {
          index := index[bnum := Checkpoint(i, aggTs)];
        }
        StepInto(runs, i);
        aggTs := aggTs + runs[i].delta * runs[i].len;
        bnum := bnum + runs[i].len;
      }
      assert runs[..|runs|] == runs;
    }

    method EncodeDeltas(blocks: seq<BlockStamp>) returns (r: Result<EncodedDeltas, EncodeError>)
      requires Valid()
      modifies this`encoded
      ensures Valid()
      ensures r == Encode(old(encoded), blocks)
      ensures encoded == if r.Ok? then r.value else old(encoded)
    {
      var sorted := Sorting.Sort(ByBlock, blocks);
      if sorted == [] {
        return Ok(encoded);
      }
      var first := sorted[0].0;
      var expected := encoded.maxBlock + 1;
      if first != expected && encoded.maxBlock == 0 && first < 2 {
        return Err(NotSequential(expected, first));
      }
      AppendRuns(sorted);
      var last := sorted[|sorted| - 1];
      encoded := encoded.(maxBlock := last.0, maxTimestamp := Some(last.1));
      EncodeKeepsIndex(old(encoded), blocks, index);
      return Ok(encoded);
    }

    /** The loop of `EncodeDeltas`: one delta a block, into the last run or into a new one. */
    method AppendRuns(sorted: seq<BlockStamp>)
      modifies this`encoded
      ensures encoded == old(encoded).(
        runs := PushAll(old(encoded).runs, Steps(Continues(old(encoded)) + Stamps(sorted))))
    {
      var previous := if encoded.maxBlock == 0 then encoded.genesis else encoded.maxTimestamp;
      ghost var e := encoded;
      for i := 0 to |sorted|
        invariant encoded == e.(runs := RunsAfter(e, sorted, i))
        invariant previous == PreviousAt(e, sorted, i)
      {
        var timestamp := sorted[i].1;
        if previous.Some? {
          PushDelta(SaturatingSub(timestamp, previous.value));
        }
        previous := Some(timestamp);
      }
      RunsAfterAll(e, sorted);
    }

    method PushDelta(delta: nat)
      modifies this`encoded
      ensures encoded == old(encoded).(runs := Push(old(encoded).runs, delta))
    {
      var runs := encoded.runs;
      if runs != [] {
        if runs[|runs| - 1].delta == delta {
          encoded := encoded.(runs := runs[|runs| - 1 := DeltaRunLen(runs[|runs| - 1].len + 1, delta)]);
        } else {
          encoded := encoded.(runs := runs + [DeltaRunLen(1, delta)]);
        }
      } else {
        encoded := encoded.(runs := runs + [DeltaRunLen(1, delta)]);
      }
    }

    /** One round of polling: set the genesis time, ask for the next blocks, encode the reply.
        A failed request leaves the runs alone; the round is tried again later. */
    method FetchEncodePersist(batchSize: nat, provider: seq<nat> -> Option<seq<BlockStamp>>)
      returns (r: Result<(), EncodeError>)
      requires Valid()
      modifies this`encoded
      ensures Valid()
      ensures var reply := provider(NextBlocks(old(encoded).maxBlock, batchSize));
              && encoded == Polled(old(encoded), network, reply)
              && (r.Err? <==> reply.Some? && Encode(WithGenesis(old(encoded), network), reply.value).Err?)
    {
      if encoded.genesis.None? {
        assert index == map[] by {
          assert forall k | k in index :: CheckpointOk(encoded, k, index[k]);
        }
        encoded := encoded.(genesis := Some(GenesisTime(network)));
      }
      var reply := provider(NextBlocks(encoded.maxBlock, batchSize));
      if reply.None? {
        return Ok(());
      }
      var e := EncodeDeltas(reply.value);
      return if e.Ok? then Ok(()) else Err(e.error);
    }

    /** Polls until the head of the chain is within one batch or an interrupt arrives. With an honest
        provider every round, failed or not, leaves exactly the chain's timestamps recorded, the head is never
        passed, and the loop ends within one batch of it or every answered round has brought a whole batch. */
    method PollEncodeLoop(batchSize: nat, head: nat, interruptAfter: nat,
                          provider: nat -> seq<nat> -> Option<seq<BlockStamp>>, ghost chain: Chain)
      requires Valid()
      modifies this`encoded
      ensures Valid()
      ensures old(Tracks(encoded, chain)) && HonestProvider(provider, chain) ==>
                && Tracks(encoded, chain)
                && (encoded.maxBlock + batchSize >= head ||
                    encoded.maxBlock >= old(encoded).maxBlock + batchSize * AnsweredRounds(provider, interruptAfter))
                && (encoded.maxBlock == old(encoded).maxBlock || old(encoded).maxBlock < encoded.maxBlock < head)
      ensures old(encoded).genesis.Some? ==> encoded.genesis == old(encoded).genesis
      ensures encoded.genesis.Some? && old(encoded).genesis.None? ==> encoded.genesis == Some(GenesisTime(network))
    {
      hide Tracks, HonestReply, NextBlocks, Encode, IndexOk, Polled, AnswersRound;
      var round := 0;
      while round < interruptAfter && encoded.maxBlock + batchSize < head
        invariant Valid() && round <= interruptAfter
        invariant old(Tracks(encoded, chain)) && HonestProvider(provider, chain) ==>
                    Tracks(encoded, chain) &&
                      Advanced(old(encoded).maxBlock, encoded.maxBlock, batchSize, head, provider, round)
        invariant old(encoded).genesis.Some? ==> encoded.genesis == old(encoded).genesis
        invariant encoded.genesis.Some? && old(encoded).genesis.None? ==> encoded.genesis == Some(GenesisTime(network))
      {
        ghost var before := encoded;
        var outcome := FetchEncodePersist(batchSize, provider(round));
        if Tracks(before, chain) && HonestProvider(provider, chain) {
          ghost var request := NextBlocks(before.maxBlock, batchSize);
          assert HonestReply(request, provider(round)(request), chain);
          RoundTracks(before, network, batchSize, provider(round)(request), chain);
          if Advanced(old(encoded).maxBlock, before.maxBlock, batchSize, head, provider, round) {
            AdvancesOn(old(encoded).maxBlock, before.maxBlock, batchSize, head, provider, round, request);
          }
        }
        round := round + 1;
      }
    }

    /** The latest checkpoint at or below `block`, or genesis if there is none. */
    method StartOfWalk(block: nat) returns (bnum: nat, aggTs: nat, run: nat)
      requires Valid() && encoded.genesis.Some?
      ensures run <= |encoded.runs| && bnum == Span(encoded.runs[..run]) && bnum <= block
      ensures aggTs == encoded.genesis.value + Elapsed(encoded.runs[..run])
      ensures run == |encoded.runs| ==> encoded.runs == []
      ensures var checkpoint := LatestCheckpoint(index, block);
              bnum == if checkpoint.Some? then checkpoint.value else 0
    {
      bnum, aggTs, run := 0, encoded.genesis.value, 0;
      var checkpoint := LatestCheckpoint(index, block);
      if checkpoint.Some? {
        assert CheckpointOk(encoded, checkpoint.value, index[checkpoint.value]);
        bnum, aggTs, run := checkpoint.value, index[checkpoint.value].timestamp, index[checkpoint.value].run;
      }
    }

    method GetBlockTimestamp(block: nat) returns (r: Option<nat>)
      requires Valid()
      ensures r == Lookup(encoded, block)
    {
      if encoded.genesis.None? {
        return None;
      }
      if block > encoded.maxBlock {
        return None;
      }
      var runs := encoded.runs;
      var bnum, aggTs, run := StartOfWalk(block);
      while run < |runs|
        invariant run <= |runs| && bnum == Span(runs[..run]) && bnum <= block
        invariant aggTs == encoded.genesis.value + Elapsed(runs[..run])
        invariant run == |runs| ==> runs == [] || bnum < block
      {
        if bnum + runs[run].len >= block {
          LookupInRun(encoded, run, block, bnum, aggTs);
          return Some(aggTs + runs[run].delta * (block - bnum));
        }
        StepInto(runs, run);
        aggTs := aggTs + runs[run].delta * runs[run].len;
        bnum := bnum + runs[run].len;
        run := run + 1;
      }
      assert runs[..|runs|] == runs;
      SpanIsLength(runs);
      return None;
    }

    method GetBlockTimestamps(blocks: seq<nat>) returns (output: map<nat, nat>)
      requires Valid()
      ensures forall b :: b in output <==> BatchAnswers(encoded, index, blocks, b)
      ensures forall b | b in output :: Lookup(encoded, b) == Some(output[b])
    {
      output := map[];
      if encoded.genesis.None? {
        return;
      }
      hide *;
      SortedRequestMeaning(blocks, encoded.maxBlock);
      var requested := SortedRequest(blocks, encoded.maxBlock);
      if requested == [] {
        NothingRequested(encoded, index, blocks, requested);
        return;
      }
      SortedRequestLast(blocks, encoded.maxBlock, requested);
      var bnum, aggTs, run := StartOfWalk(requested[|requested| - 1]);
      ghost var start := bnum;
      WalkStarts(encoded, index, blocks, requested, start);
      ghost var done;
      done, output := WalkRuns(requested, bnum, aggTs, run);
      BatchDomain(encoded, index, blocks, requested, done, output);
    }

    /** The outer loop of `GetBlockTimestamps`: from the start block run by run to the end. */
    method WalkRuns(requested: seq<nat>, start: nat, startTs: nat, startRun: nat)
      returns (ghost done: nat, output: map<nat, nat>)
      requires encoded.genesis.Some? && startRun <= |encoded.runs|
      requires start == Span(encoded.runs[..startRun]) &&
               startTs == encoded.genesis.value + Elapsed(encoded.runs[..startRun])
      requires Increasing(requested) && forall b | b in requested :: b <= encoded.maxBlock
      requires Walked(encoded, requested, 0, start, start, map[])
      ensures Walked(encoded, requested, done, Span(encoded.runs), start, output)
    {
      hide *;
      var runs := encoded.runs;
      var bnum, aggTs, run, reqIdx := start, startTs, startRun, 0;
      output := map[];
      while run < |runs|
        invariant run <= |runs| && bnum == Span(runs[..run]) && start <= bnum
        invariant aggTs == encoded.genesis.value + Elapsed(runs[..run])
        invariant Walked(encoded, requested, reqIdx, bnum, start, output)
      {
        StepInto(runs, run);
        reqIdx, output := AnswerWithinRun(requested, reqIdx, run, bnum, aggTs, start, output);
        bnum := bnum + runs[run].len;
        aggTs := aggTs + runs[run].delta * runs[run].len;
        run := run + 1;
      }
      assert runs[..|runs|] == runs;
      done := reqIdx;
    }

    /** The inner loop of `GetBlockTimestamps`: the requests that fall into one run. */
    method AnswerWithinRun(requested: seq<nat>, from: nat, run: nat, bnum: nat, aggTs: nat,
                           ghost start: nat, answered: map<nat, nat>)
      returns (reqIdx: nat, output: map<nat, nat>)
      requires encoded.genesis.Some? && run < |encoded.runs|
      requires bnum == Span(encoded.runs[..run]) && aggTs == encoded.genesis.value + Elapsed(encoded.runs[..run])
      requires Increasing(requested) && forall b | b in requested :: b <= encoded.maxBlock
      requires start <= bnum && Walked(encoded, requested, from, bnum, start, answered)
      ensures Walked(encoded, requested, reqIdx, bnum + encoded.runs[run].len, start, output)
    {
      reqIdx, output := from, answered;
      var delta, end := encoded.runs[run].delta, bnum + encoded.runs[run].len;
      while reqIdx < |requested|
        invariant from <= reqIdx <= |requested|
        invariant forall j | 0 <= j < reqIdx :: requested[j] < end
        invariant reqIdx < |requested| && requested[reqIdx] < bnum ==> bnum == start
        invariant forall b :: b in output <==> b in requested[..reqIdx] && start <= b
        invariant forall b | b in output :: Lookup(encoded, b) == Some(output[b])
      {
        var blk := requested[reqIdx];
        assert blk in requested && requested[..reqIdx + 1] == requested[..reqIdx] + [blk];
        if blk < bnum {
          reqIdx := reqIdx + 1;
        } else if blk < end {
          LookupInRun(encoded, run, blk, bnum, aggTs);
          output := output[blk := aggTs + delta * (blk - bnum)];
          reqIdx := reqIdx + 1;
        } else {
          break;
        }
      }
    }

    method TryAttachLogTimestamps(logs: seq<StampedLog>) returns (r: seq<StampedLog>)
      requires Valid()
      ensures r == Apply(logs, BatchMap(encoded, index, Unstamped(logs)))
    {
      var blocks := Unstamped(logs);
      ghost var expected := BatchMap(encoded, index, blocks);
      hide *;
      if blocks == [] {
        assert expected == map[] by { NoAnswers(encoded, index); }
        assert Apply(logs, map[]) == logs by { NothingApplied(logs); }
        return logs;
      }
      var timestamps := GetBlockTimestamps(blocks);
      assert timestamps == expected by {
        assert timestamps.Keys == expected.Keys;
        forall b | b in timestamps ensures timestamps[b] == expected[b] {
          assert Lookup(encoded, b) == Some(timestamps[b]) == Some(expected[b]);
        }
      }
      return Apply(logs, timestamps);
    }
  }

  /** How far the polling loop has come after some rounds. */
  ghost predicate Advanced(start: nat, maxBlock: nat, batchSize: nat, head: nat,
                           provider: nat -> seq<nat> -> Option<seq<BlockStamp>>, rounds: nat)
  {
    && maxBlock >= start + batchSize * AnsweredRounds(provider, rounds)
    && (maxBlock == start || start < maxBlock < head)
  }

  lemma AdvancesOn(start: nat, maxBlock: nat, batchSize: nat, head: nat,
                   provider: nat -> seq<nat> -> Option<seq<BlockStamp>>, round: nat, request: seq<nat>)
    requires Advanced(start, maxBlock, batchSize, head, provider, round) && maxBlock + batchSize < head
    ensures Advanced(start, maxBlock + if provider(round)(request).Some? then batchSize else 0, batchSize, head,
            provider, round + 1)
  {
    var n := AnsweredRounds(provider, round);
    assert batchSize * (n + 1) == batchSize * n + batchSize;
    if AnswersRound(provider, round) {
      assert provider(round)(request).Some?;
    }
  }

  lemma NoAnswers(e: EncodedDeltas, index: map<nat, Checkpoint>)
    ensures BatchMap(e, index, []) == map[]
  {
  }

  lemma NothingApplied(logs: seq<StampedLog>)
    ensures Apply(logs, map[]) == logs
  {
  }
}
