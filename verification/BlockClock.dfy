/** The stamping pipeline: times present in the logs, fixed-interval networks, the encoder, the fetcher. */
module BlockClock {
  import opened Options
  import opened DeltaEncoding
  import opened EncodingLaws
  import opened LogStamping
  import BlockFetcher
  import Sampling
  import Sorting

  // ----- fixed-interval networks

  /** The networks with a fixed interval; the interval in seconds comes from a table of chain hints. */
  datatype SpacedNetwork =
    | Base(spacing: Option<nat>)
    | Blast(spacing: Option<nat>)
    | Soneium(spacing: Option<nat>)
    | Worldchain(spacing: Option<nat>)
  {
    function GenesisTime(): nat {
      match this
      case Base(_) => 1686789347
      case Blast(_) => 1708809815
      case Soneium(_) => 1733134751
      case Worldchain(_) => 1719335639
    }

    /** The last block for which the interval is known to hold. */
    function MaxSafeBlock(): nat {
      match this
      case Base(_) => 32853624
      case Blast(_) => 21843498
      case Soneium(_) => 9746802
      case Worldchain(_) => 16647415
    }

    function GetBlockTime(block: nat): Option<nat> {
      if spacing.Some? && block <= MaxSafeBlock()
      then Some(GenesisTime() + spacing.value * block)
      else None
    }
  }

  /** With a known spacing the clock of a network starts at its genesis time, ticks by just the spacing from block
      to block up to the last safe one, and stops there; without one it tells nothing. */
  lemma {:induction false} SpacedTicks(network: SpacedNetwork, b: nat)
    ensures network.spacing.None? ==> network.GetBlockTime(b) == None
    ensures network.spacing.Some? ==>
              && network.GetBlockTime(0) == Some(network.GenesisTime())
              && (b < network.MaxSafeBlock() ==>
                    && network.GetBlockTime(b).Some? && network.GetBlockTime(b + 1).Some?
                    && network.GetBlockTime(b + 1).value == network.GetBlockTime(b).value + network.spacing.value)
              && (b > network.MaxSafeBlock() ==> network.GetBlockTime(b) == None)
  {
  }

  /** The networks with their genesis times and last safe blocks. */
  const SPACED_NETWORKS: seq<(SpacedNetwork, nat, nat)> := [
    (Base(None), 1686789347, 32853624), (Blast(None), 1708809815, 21843498),
    (Soneium(None), 1733134751, 9746802), (Worldchain(None), 1719335639, 16647415)]

  lemma {:induction false} SpacedTable(network: SpacedNetwork)
    ensures exists i | 0 <= i < |SPACED_NETWORKS| :: SPACED_NETWORKS[i] ==
              (network.(spacing := None), network.GenesisTime(), network.MaxSafeBlock())
  {
    match network
    case Base(_) => assert SPACED_NETWORKS[0].0 == network.(spacing := None);
    case Blast(_) => assert SPACED_NETWORKS[1].0 == network.(spacing := None);
    case Soneium(_) => assert SPACED_NETWORKS[2].0 == network.(spacing := None);
    case Worldchain(_) => assert SPACED_NETWORKS[3].0 == network.(spacing := None);
  }

  // ----- the stages

  const MILLISECONDS_ABOVE: nat := 1_000_000_000_000

  /** A time that is too large for seconds is taken as milliseconds. */
  function Normalised(x: StampedLog): StampedLog {
    if x.timestamp.Some? && x.timestamp.value > MILLISECONDS_ABOVE
    then x.(timestamp := Some(x.timestamp.value / 1000))
    else x
  }

  function NormalisedAll(logs: seq<StampedLog>): (r: seq<StampedLog>)
    ensures |r| == |logs| && forall i | 0 <= i < |r| :: r[i] == Normalised(logs[i])
  {
    if logs == [] then [] else [Normalised(logs[0])] + NormalisedAll(logs[1..])
  }

  predicate AllStamped(logs: seq<StampedLog>) {
    forall x | x in logs :: x.timestamp.Some?
  }

  predicate AllNumbered(logs: seq<StampedLog>) {
    forall x | x in logs :: x.Numbered()
  }

  /** The network's own time replaces whatever time the log has, also by nothing. */
  function Spaced(x: StampedLog, network: SpacedNetwork): StampedLog
    requires x.Numbered()
  {
    x.(timestamp := network.GetBlockTime(x.log.blockNumber.value))
  }

  function SpacedAll(logs: seq<StampedLog>, network: SpacedNetwork): (r: seq<StampedLog>)
    requires AllNumbered(logs)
    ensures |r| == |logs| && forall i | 0 <= i < |r| :: r[i] == Spaced(logs[i], network)
  {
    if logs == [] then [] else
      assert logs[0] in logs;
      [Spaced(logs[0], network)] + SpacedAll(logs[1..], network)
  }

  /** The state of an encoder: its runs and its index. */
  datatype Encoder = Encoder(encoded: EncodedDeltas, index: map<nat, Checkpoint>)

  datatype Clock = Clock(rate: real, spaced: Option<SpacedNetwork>, encoder: Option<Encoder>)

  /** The pipeline ends as the fetcher does, or panics on a log without a block number. */
  datatype ClockOutcome = Finished(outcome: BlockFetcher.Outcome) | MissingBlockNumber

  function FromEncoder(clock: Clock, logs: seq<StampedLog>): seq<StampedLog> {
    match clock.encoder
    case None => logs
    case Some(encoder) => Apply(logs, BatchMap(encoder.encoded, encoder.index, Unstamped(logs)))
  }

  function AttachLogTimestamps(clock: Clock, logs: seq<StampedLog>, replies: seq<BlockFetcher.Reply>): ClockOutcome {
    var logs' := NormalisedAll(logs);
    if logs == [] then Finished(BlockFetcher.Done(logs))
    else if AllStamped(logs') then Finished(BlockFetcher.Done(logs'))
    else if clock.spaced.None? then
      Finished(BlockFetcher.Attach(clock.rate, FromEncoder(clock, logs'), replies))
    else if !AllNumbered(logs') then MissingBlockNumber
    else
      Finished(BlockFetcher.Attach(clock.rate, FromEncoder(clock, SpacedAll(logs', clock.spaced.value)), replies))
  }

  /** The logs as they reach the encoder. */
  function BeforeEncoder(clock: Clock, logs: seq<StampedLog>): seq<StampedLog> {
    var logs' := NormalisedAll(logs);
    if clock.spaced.Some? && AllNumbered(logs') then SpacedAll(logs', clock.spaced.value) else logs'
  }

  // ----- no log is lost

  lemma NormalisedKeeps(logs: seq<StampedLog>)
    ensures Contents(NormalisedAll(logs)) == Contents(logs)
    ensures AllNumbered(NormalisedAll(logs)) <==> AllNumbered(logs)
    ensures AllStamped(NormalisedAll(logs)) <==> AllStamped(logs)
  {
    var r := NormalisedAll(logs);
    forall i | 0 <= i < |logs|
      ensures r[i].log == logs[i].log && r[i] in r && logs[i] in logs && r[i].timestamp.Some? == logs[i].timestamp.Some?
    {
    }
  }

  lemma StagesKeepLogs(clock: Clock, logs: seq<StampedLog>)
    ensures Contents(FromEncoder(clock, BeforeEncoder(clock, logs))) == Contents(logs)
  {
    NormalisedKeeps(logs);
    var logs' := BeforeEncoder(clock, logs);
    assert Contents(logs') == Contents(NormalisedAll(logs));
    hide NormalisedAll, SpacedAll, BeforeEncoder, BatchMap;
    if clock.encoder.Some? {
      ApplyKeepsLogs(logs', BatchMap(clock.encoder.value.encoded, clock.encoder.value.index, Unstamped(logs')));
    }
  }

  /** However the pipeline is configured and whatever the provider answers: the logs that come out are the
      logs that went in, and each one whose block is known has a time. */
  lemma {:induction false} ClockConserves(clock: Clock, logs: seq<StampedLog>, replies: seq<BlockFetcher.Reply>)
    requires var r := AttachLogTimestamps(clock, logs, replies); r.Finished? && r.outcome.Done?
    ensures var r := AttachLogTimestamps(clock, logs, replies).outcome.logs; SameLogs(r, logs) && Complete(r)
  {
    NormalisedKeeps(logs);
    StagesKeepLogs(clock, logs);
    var logs' := NormalisedAll(logs);
    hide NormalisedAll, SpacedAll, FromEncoder, BlockFetcher.Attach, Contents;
    if logs != [] && !AllStamped(logs') {
      BlockFetcher.AttachConserves(clock.rate, FromEncoder(clock, BeforeEncoder(clock, logs)), replies);
    }
  }

  /** The pipeline panics exactly on a fixed-interval network, for a log without a block number in a batch
      that is not stamped throughout. */
  lemma {:induction false} PanicsExactly(clock: Clock, logs: seq<StampedLog>, replies: seq<BlockFetcher.Reply>)
    ensures AttachLogTimestamps(clock, logs, replies).MissingBlockNumber? <==>
            clock.spaced.Some? && !AllStamped(logs) && !AllNumbered(logs)
  {
    NormalisedKeeps(logs);
  }

  // ----- what a stage writes

  /** Up to 1000000000000 a time is one of seconds and stays; above, it is one of milliseconds, and `u` is the
      second that it lies in. */
  ghost predicate SecondsOf(t: nat, u: nat) {
    if t <= 1_000_000_000_000 then u == t else 1000 * u <= t < 1000 * (u + 1)
  }

  lemma {:induction false} NormalisedMeaning(x: StampedLog)
    ensures Normalised(x).log == x.log
    ensures x.timestamp.None? ==> Normalised(x).timestamp == None
    ensures x.timestamp.Some? ==>
              Normalised(x).timestamp.Some? && SecondsOf(x.timestamp.value, Normalised(x).timestamp.value)
  {
  }

  /** A batch that is stamped throughout comes out in its order, with its times in seconds. */
  lemma {:induction false} StampedBatch(clock: Clock, logs: seq<StampedLog>, replies: seq<BlockFetcher.Reply>)
    requires AllStamped(logs)
    ensures var r := AttachLogTimestamps(clock, logs, replies);
            && r.Finished? && r.outcome.Done? && |r.outcome.logs| == |logs|
            && forall i | 0 <= i < |logs| ::
                 && logs[i].timestamp.Some? && r.outcome.logs[i].timestamp.Some?
                 && r.outcome.logs[i].log == logs[i].log
                 && SecondsOf(logs[i].timestamp.value, r.outcome.logs[i].timestamp.value)
  {
    NormalisedKeeps(logs);
    var given := NormalisedAll(logs);
    assert AttachLogTimestamps(clock, logs, replies) == Finished(BlockFetcher.Done(given));
    hide SecondsOf, NormalisedAll, AttachLogTimestamps;
    forall i | 0 <= i < |logs|
      ensures logs[i].timestamp.Some? && given[i].timestamp.Some? && given[i].log == logs[i].log
      ensures SecondsOf(logs[i].timestamp.value, given[i].timestamp.value)
    {
      assert logs[i] in logs;
      NormalisedMeaning(logs[i]);
    }
  }

  /** The genesis time, and the spacing for every block since. */
  ghost function TickTime(network: SpacedNetwork, b: nat): nat
    requires network.spacing.Some?
  {
    network.GenesisTime() + network.spacing.value * b
  }

  /** The same logs in their order, each with the time of its block. */
  ghost predicate Ticked(network: SpacedNetwork, logs: seq<StampedLog>, result: seq<StampedLog>)
    requires network.spacing.Some?
  {
    && |result| == |logs|
    && forall i | 0 <= i < |logs| ::
         && logs[i].Numbered() && result[i].log == logs[i].log
         && result[i].timestamp == Some(TickTime(network, logs[i].log.blockNumber.value))
  }

  /** On a fixed-interval network a batch of safe blocks that is not stamped throughout comes out ticked, whatever
      encoder and replies say. */
  lemma {:induction false} SpacedBatch(clock: Clock, logs: seq<StampedLog>, replies: seq<BlockFetcher.Reply>)
    requires clock.spaced.Some? && clock.spaced.value.spacing.Some? && !AllStamped(logs) && AllNumbered(logs)
    requires forall x | x in logs && x.Numbered() :: x.log.blockNumber.value <= clock.spaced.value.MaxSafeBlock()
    ensures var r := AttachLogTimestamps(clock, logs, replies);
            r.Finished? && r.outcome.Done? && Ticked(clock.spaced.value, logs, r.outcome.logs)
  {
    NormalisedKeeps(logs);
    hide *;
    AllTicked(logs, clock.spaced.value);
    TickedIsComplete(clock.spaced.value, logs, SpacedAll(NormalisedAll(logs), clock.spaced.value));
    SpacedEnds(clock, logs, replies);
  }

  lemma TicksAt(x: StampedLog, network: SpacedNetwork)
    requires network.spacing.Some? && x.Numbered() && x.log.blockNumber.value <= network.MaxSafeBlock()
    ensures Normalised(x).log == x.log && Normalised(x).Numbered()
    ensures Spaced(Normalised(x), network) == StampedLog(x.log, Some(TickTime(network, x.log.blockNumber.value)))
  {
  }

  lemma AllTicked(logs: seq<StampedLog>, network: SpacedNetwork)
    requires network.spacing.Some? && AllNumbered(logs) && AllNumbered(NormalisedAll(logs))
    requires forall x | x in logs && x.Numbered() :: x.log.blockNumber.value <= network.MaxSafeBlock()
    ensures Ticked(network, logs, SpacedAll(NormalisedAll(logs), network))
  {
    var all := SpacedAll(NormalisedAll(logs), network);
    hide NormalisedAll, SpacedAll, Normalised, Spaced, TickTime;
    forall i | 0 <= i < |logs|
      ensures logs[i].Numbered()
      ensures all[i] == StampedLog(logs[i].log, Some(TickTime(network, logs[i].log.blockNumber.value)))
    {
      assert logs[i] in logs;
      TicksAt(logs[i], network);
    }
  }

  lemma TickedIsComplete(network: SpacedNetwork, logs: seq<StampedLog>, result: seq<StampedLog>)
    requires network.spacing.Some? && Ticked(network, logs, result)
    ensures Complete(result)
  {
    hide TickTime;
  }

  lemma SpacedEnds(clock: Clock, logs: seq<StampedLog>, replies: seq<BlockFetcher.Reply>)
    requires clock.spaced.Some? && !AllStamped(logs) && !AllStamped(NormalisedAll(logs)) &&
             AllNumbered(NormalisedAll(logs))
    requires Complete(SpacedAll(NormalisedAll(logs), clock.spaced.value))
    ensures AttachLogTimestamps(clock, logs, replies) ==
            Finished(BlockFetcher.Done(SpacedAll(NormalisedAll(logs), clock.spaced.value)))
  {
    var all := SpacedAll(NormalisedAll(logs), clock.spaced.value);
    NothingUnstamped(all);
    assert logs != [];
    hide NormalisedAll, SpacedAll, AllStamped, AllNumbered, Complete, FromEncoder, BlockFetcher.Attach;
    NothingEncoded(clock, all);
    BlockFetcher.NothingToDo(clock.rate, all, replies);
  }

  /** The encoder changes no log when none is unstamped. */
  lemma NothingEncoded(clock: Clock, logs: seq<StampedLog>)
    requires Unstamped(logs) == []
    ensures FromEncoder(clock, logs) == logs
  {
    if clock.encoder.Some? {
      var encoder := clock.encoder.value;
      var dates := BatchMap(encoder.encoded, encoder.index, []);
      hide BatchMap, Apply;
      NothingAsked(encoder);
      assert dates == map[];
    }
  }

  lemma NothingAsked(encoder: Encoder)
    ensures BatchMap(encoder.encoded, encoder.index, []) == map[]
  {
    hide BatchStart, Largest;
  }

  // ----- times present in the logs

  /** On a fixed-interval network the times that came with the logs have no influence at all, as soon as one
      log of the batch has none: they are replaced, also where the network's own time is not known. */
  lemma {:induction false} SpacedIgnoresGivenTimes(clock: Clock, a: seq<StampedLog>, b: seq<StampedLog>,
                                                   replies: seq<BlockFetcher.Reply>)
    requires clock.spaced.Some? && Contents(a) == Contents(b) && !AllStamped(a) && !AllStamped(b)
    ensures AttachLogTimestamps(clock, a, replies) == AttachLogTimestamps(clock, b, replies)
  {
    NormalisedKeeps(a);
    NormalisedKeeps(b);
    assert |Contents(a)| == |a| && |Contents(b)| == |b|;
    if AllNumbered(b) {
      SameNumbered(b, a);
    }
    if AllNumbered(a) {
      SameNumbered(a, b);
      SameSpaced(NormalisedAll(a), NormalisedAll(b), clock.spaced.value);
    }
    hide FromEncoder, BlockFetcher.Attach, NormalisedAll, SpacedAll, AllNumbered, AllStamped, Contents;
  }

  lemma SameNumbered(a: seq<StampedLog>, b: seq<StampedLog>)
    requires Contents(a) == Contents(b) && AllNumbered(a)
    ensures AllNumbered(b)
  {
    var contents := Contents(a);
    assert |a| == |contents| == |b|;
    forall i | 0 <= i < |b| ensures b[i].Numbered() {
      assert a[i] in a && a[i].log == contents[i] == b[i].log;
    }
  }

  lemma SameSpaced(a: seq<StampedLog>, b: seq<StampedLog>, network: SpacedNetwork)
    requires AllNumbered(a) && AllNumbered(b) && Contents(a) == Contents(b)
    ensures SpacedAll(a, network) == SpacedAll(b, network)
  {
    assert |Contents(a)| == |a| && |Contents(b)| == |b|;
    forall i | 0 <= i < |a| ensures SpacedAll(a, network)[i] == SpacedAll(b, network)[i] {
      assert Contents(a)[i] == Contents(b)[i];
      assert a[i] in a && b[i] in b;
    }
  }

  /** Stamping again changes nothing exactly when no time looks like milliseconds. */
  lemma {:induction false} RerunIsIdentityExactly(clock: Clock, logs: seq<StampedLog>, replies: seq<BlockFetcher.Reply>)
    requires AllStamped(logs)
    ensures AttachLogTimestamps(clock, logs, replies) == Finished(BlockFetcher.Done(logs)) <==>
            forall x | x in logs :: x.timestamp.value <= MILLISECONDS_ABOVE
  {
    NormalisedKeeps(logs);
    var r := NormalisedAll(logs);
    if forall x | x in logs :: x.timestamp.value <= MILLISECONDS_ABOVE {
      forall i | 0 <= i < |logs| ensures r[i] == logs[i] {
        assert logs[i] in logs;
      }
      assert r == logs;
    } else {
      var x :| x in logs && x.timestamp.value > MILLISECONDS_ABOVE;
      var i :| 0 <= i < |logs| && logs[i] == x;
      assert r[i] != logs[i];
    }
  }

  // ----- what is fetched

  /** The pipeline asks the provider exactly for the blocks that are still unstamped before the encoder,
      that the encoder's batch lookup does not answer and that no reply has answered so far. */
  lemma {:induction false} FetchesExactly(clock: Clock, logs: seq<StampedLog>, replies: seq<BlockFetcher.Reply>, b: nat)
    requires var r := AttachLogTimestamps(clock, logs, replies); r.Finished? && r.outcome.Waiting?
    ensures var blocks := Unstamped(BeforeEncoder(clock, logs));
            b in AttachLogTimestamps(clock, logs, replies).outcome.request <==>
            && b in blocks
            && (clock.encoder.Some? ==>
                 !BatchAnswers(clock.encoder.value.encoded, clock.encoder.value.index, blocks, b))
            && forall reply | reply in replies :: !BlockFetcher.Answers(reply, b)
  {
    var logs' := BeforeEncoder(clock, logs);
    hide NormalisedAll, SpacedAll, BlockFetcher.Attach, BatchAnswers, BatchMap, BlockFetcher.Answers, Apply, Unstamped;
    BlockFetcher.RequestIsExact(clock.rate, FromEncoder(clock, logs'), replies, b);
    if clock.encoder.Some? {
      ApplyUnstamped(logs', BatchMap(clock.encoder.value.encoded, clock.encoder.value.index, Unstamped(logs')), b);
    }
  }

  // ----- true times

  /** The encoder has polled this chain, whose time never falls. */
  ghost predicate EncoderAgrees(encoder: Encoder, chain: Chain) {
    && Tracks(encoder.encoded, chain)
    && (encoder.encoded.genesis.Some? ==> encoder.encoded.genesis.value == chain.time(0))
    && (forall i, j | 0 <= i <= j :: chain.time(i) <= chain.time(j))
  }

  /** Every source that the clock consults agrees with the chain. */
  ghost predicate AgreesWith(clock: Clock, chain: Chain) {
    && (clock.spaced.Some? ==> forall b :: clock.spaced.value.GetBlockTime(b).Some? ==>
          clock.spaced.value.GetBlockTime(b).value == chain.time(b))
    && (clock.encoder.Some? ==> EncoderAgrees(clock.encoder.value, chain))
  }

  lemma SpacedTruthful(logs: seq<StampedLog>, network: SpacedNetwork, chain: Chain)
    requires AllNumbered(logs)
    requires forall b :: network.GetBlockTime(b).Some? ==> network.GetBlockTime(b).value == chain.time(b)
    ensures Truthful(SpacedAll(logs, network), chain)
    ensures TimedAll(SpacedAll(logs, network), chain) == TimedAll(logs, chain)
  {
    var r := SpacedAll(logs, network);
    forall i | 0 <= i < |r|
      ensures (r[i].timestamp.Some? ==> r[i] == Timed(r[i], chain)) && Timed(r[i], chain) == Timed(logs[i], chain)
    {
      assert logs[i] in logs;
    }
  }

  lemma EncoderTells(encoder: Encoder, logs: seq<StampedLog>, chain: Chain, blocks: seq<nat>)
    requires EncoderAgrees(encoder, chain)
    ensures Tells(logs, BatchMap(encoder.encoded, encoder.index, blocks), chain)
  {
    var dates := BatchMap(encoder.encoded, encoder.index, blocks);
    hide Tracks, BatchMap, Lookup;
    forall b | b in dates ensures dates[b] == chain.time(b) {
      PolledLookup(encoder.encoded, chain, b);
    }
  }

  lemma EncoderTruthful(clock: Clock, logs: seq<StampedLog>, chain: Chain)
    requires AgreesWith(clock, chain) && Truthful(logs, chain)
    ensures Truthful(FromEncoder(clock, logs), chain)
    ensures TimedAll(FromEncoder(clock, logs), chain) == TimedAll(logs, chain)
  {
    hide BatchMap, Apply, Tracks;
    if clock.encoder.Some? {
      var encoder, blocks := clock.encoder.value, Unstamped(logs);
      EncoderTells(encoder, logs, chain, blocks);
      ApplyTruthful(logs, BatchMap(encoder.encoded, encoder.index, blocks), chain);
    }
  }

  lemma BeforeEncoderTruthful(clock: Clock, logs: seq<StampedLog>, chain: Chain)
    requires AgreesWith(clock, chain) && Truthful(NormalisedAll(logs), chain)
    ensures Truthful(BeforeEncoder(clock, logs), chain)
    ensures TimedAll(BeforeEncoder(clock, logs), chain) == TimedAll(NormalisedAll(logs), chain)
  {
    var logs' := NormalisedAll(logs);
    hide Truthful, TimedAll, NormalisedAll, SpacedAll;
    if clock.spaced.Some? && AllNumbered(logs') {
      SpacedTruthful(logs', clock.spaced.value, chain);
    }
  }

  /** When network, encoder, provider and the given times agree with the chain, every log that comes out of
      the pipeline at the default sampling rate has its block's true time, whichever stage it came from. */
  lemma {:induction false} ClockIsExact(clock: Clock, logs: seq<StampedLog>, replies: seq<BlockFetcher.Reply>,
                                        chain: Chain)
    requires clock.rate == Sampling.BoundedRate(None) && AgreesWith(clock, chain)
    requires Truthful(NormalisedAll(logs), chain)
    requires forall reply | reply in replies :: BlockFetcher.TrueReply(reply, chain)
    requires var r := AttachLogTimestamps(clock, logs, replies); r.Finished? && r.outcome.Done?
    ensures Sorting.Permutation(AttachLogTimestamps(clock, logs, replies).outcome.logs,
                                TimedAll(NormalisedAll(logs), chain))
  {
    var logs' := NormalisedAll(logs);
    if logs == [] || AllStamped(logs') {
      TruthfulIsTimed(logs', chain);
    } else {
      BeforeEncoderTruthful(clock, logs, chain);
      var before := BeforeEncoder(clock, logs);
      EncoderTruthful(clock, before, chain);
      hide NormalisedAll, SpacedAll, BlockFetcher.Attach, FromEncoder, Truthful, TimedAll, Sampling.BoundedRate,
        BlockFetcher.TrueReply, AgreesWith, AllNumbered, AllStamped;
      BlockFetcher.DefaultRateIsExact(FromEncoder(clock, before), replies, chain);
    }
  }
}
