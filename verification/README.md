# rindexer in Dafny: block clock, controller, log queries, ABI names and Foundry sync

This project models five parts of rindexer, an indexer for EVM chains, and proves what they promise over all
inputs and all runs. Code that changes state step by step is modelled as methods and classes that are proved
against functions; what the source promises is then proved about those functions.

- **Block clock.** `DeltaRuns`, `DeltaEncoding`, `EncodingLaws` and `DeltaEncoders` hold the run-length encoder
  of block times: a run list that grows in place, a sparse index that is never rebuilt, a single and a batch
  lookup, and the polling loop. The reference is the plain table of block times. `Sampling`, `Interpolation`
  and `BlockFetcher` hold the fetcher with its sampler and its interpolation over reals; `LogStamping` and
  `BlockClock` hold the pipeline of four stages that stamps logs, and `GivenTimes` says what becomes of the times
  that logs come with. A provider is a list of replies, each of which may fail, be incomplete or repeat itself.
- **Adaptive concurrency.** `AdaptiveController` is the controller called by one worker at a time;
  `ControllerSteps` is the same controller as an interleaved step system over any number of workers, in which
  loads may be stale, exchanges may fail, and every load, exchange, store and increment is a step of its own.
- **Log queries and traces.** `LogQuery` splits one query by topic alternative and by address chunk and merges
  the answers; `TraceFlattening` turns call trees into frames with an explicit stack.
- **ABI names.** `EventSignature` prints event signatures and parses them back, following the sections
  "Function Selector", "Events" and "Handling tuple types" of the Solidity Contract ABI Specification;
  `ColumnNames` compares the two derivations of a column name.
- **Foundry sync.** `FreshNames`, `FoundryModel`, `FoundrySync` and `FoundryDiscovery` take reported deployments to
  a manifest that users edit, to ABI files and to an origin file. `FoundryReports` says what a sync reports and
  which names it assigns, dry or not, and `FoundryRuns` follows a project through any number of syncs.

`Sorting`, `BlockLists`, `Basics` and `Options` are shared helpers: a stable sort with its laws, sorted block lists
without repeats, arithmetic and collections, and option and result values.

## Where code and documentation differ

The model follows the code. Each difference is stated and proved:

- The encoder's comment says that batches must be sequential (`runlencoder.rs:309`). The code turns away only a
  batch that reaches block 0 of an encoder at block 0 (`RejectedExactly`) and accepts gaps, old blocks and repeats
  (`GapIsAccepted`, `RepeatIsRecorded`). Whatever an accepted batch holds, its blocks are then looked up by their
  place in the table of times that were encoded (`AcceptedLookup`), so they can all be looked up again if and only
  if each has its time at that place and time never falls on the way (`RecordedAfter`). For blocks that are all new
  and distinct that means: if and only if the batch is sequential and time does not fall (`RecordedExactly`).
- The batch lookup says that it returns all block numbers that can be resolved (`runlencoder.rs:521`). It never
  resolves the newest block, nor a block before the checkpoint of the largest request (`BatchCompleteExactly`,
  `BatchMisses`).
- Sampling is documented as a way to fetch fewer blocks (`fetcher.rs:167-172`). The request holds every unstamped
  block at every rate; the sample's size only decides whether the reply is read as it is or interpolated
  (`RequestIsExact`).
- The fetcher calls itself until all times are known, and need not end. At any rate it goes on if and only if some
  unstamped block is in no reply so far and every reply came and was read as it is (`WaitsExactly`). At the default
  rate it never ends if and only if every reply comes and some unstamped block is in none of them
  (`DefaultWaitsExactly`, `NeverEndsExactly`); replies without any header are one such provider
  (`EmptyRepliesStall`).
- The pipeline says that times present in the logs come first (`mod.rs:110`). Every stage overwrites them. On a
  fixed-interval network they survive only where they are the formula's (`GivenTimesSurviveSpaced`), and have no
  influence at all as soon as one log of the batch has none (`SpacedIgnoresGivenTimes`). The encoder overwrites
  them in the blocks of unstamped logs that its batch lookup answers (`GivenTimesSurviveEncoder`). The first reply
  overwrites them in every block that it tells a time for: read as it is, in every block that it has a header of,
  asked for or not; read as a sample, in all blocks from its first header to its last (`GivenTimesSurviveReply`,
  `FirstTimesMeaning`). Later replies overwrite nothing, except on fixed-interval networks, where a dropped time is
  like none (`GivenTimesSurviveClock`). A concrete input is shown for each case (`SpacedReplaces`,
  `EncoderReplaces`, `ReplyReplaces`, `ExtraHeaderReplaces`, `SampleReplaces`, `LaterReplyKeeps`).
- One batch or two makes no difference to the encoder, except after a first batch that holds nothing but block 0
  (`BatchSplitExactly`, `BatchSplitDiffers`).
- The two printers of parameter types agree exactly where no tuple array occurs (`PrintersAgreeExactly`,
  `PrintersDiffer`).
- Columns have distinct paths, but their names can be equal: exactly when the words between underscores are the
  same (`NamesCollideExactly`), which an event with distinct names at every level can have (`NamesCollide`).
- A parameter path finds its column only if the last name does not occur earlier on the path and the first part
  of the column name is not empty (`DerivationsAgreeExactly`); an unnamed tuple and a member with its tuple's name
  fail (`UnnamedTupleDiffers`, `RepeatedNameStops`).
- A dry run of the sync is meant to report what the real run does. It reports the same contracts as added and
  updated if and only if no contract that the origin knows, but that is missing from the manifest, comes after
  another one that is assigned its name (`DryRunReportsTheSame`). With an origin of distinct names the same
  condition decides whether assigned names are distinct (`NamesAreInjectiveExactly`). It fails when a managed
  contract has been removed by hand and a new one comes first that takes its name (`RemovedNameIsTakenTwice`),
  which a discovery can produce (`DiscoveryTakesNameTwice`).
- The two runs differ on whether a contract's ABI has changed if and only if the contract splits them: another one
  before it has written to its ABI path, or added its entry (`DryRunAbisExactly`). The origin that is written after
  a name was taken twice is such a case (`TakenTwiceSplits`, `SharedNameSplits`); projects that were imported and
  synced with their entries left in place never are (`PlainReports`).
- A managed contract keeps its name only while its key is part of every discovery. After one discovery without it,
  its old entry holds the name and the contract is given another (`NameIsKeptExactly`, `ReturnsRenamed`).

## Model

| member | source | states |
|---|---|---|
| DeltaRuns.CanonicalUnique | core/src/blockclock/runlencoder.rs:350-358 | Run lists whose neighbours differ and whose lengths are positive are equal when they stand for the same deltas: the encoding has one canonical form. |
| DeltaRuns.PushAllMeaning | core/src/blockclock/runlencoder.rs:346-362 | Adding deltas appends exactly them, keeps the form canonical, and changes the old runs only by lengthening the last one. |
| DeltaRuns.WithinRun | core/src/blockclock/runlencoder.rs:508-516 | Time before a run plus delta times offset is the sum of all single deltas up to the block. |
| DeltaEncoding.EncodeKeepsIndex | core/src/blockclock/runlencoder.rs:311-370 | After a batch every old index entry still names its run, the run's first block and the exact time before it. |
| DeltaEncoding.BatchDomain | core/src/blockclock/runlencoder.rs:547-580 | A walk that has reached the end has answered exactly the requested blocks between checkpoint and total run length, each as the single lookup does. |
| EncodingLaws.BatchOrderIrrelevant | core/src/blockclock/runlencoder.rs:312 | A batch with distinct block numbers encodes the same in whatever order it arrives. |
| EncodingLaws.RejectedExactly | core/src/blockclock/runlencoder.rs:326-338 | A batch is turned away if and only if the encoder is at block 0 and the batch holds block 0. |
| EncodingLaws.GapIsAccepted | core/src/blockclock/runlencoder.rs:307-338 | A concrete gap is accepted; its block is lost and an earlier number answers with its time. |
| EncodingLaws.EncodeMeaning | core/src/blockclock/runlencoder.rs:340-367 | A batch appends exactly the saturated steps of its sorted stamps, keeps canonical form, and moves `max_block` to its last block. |
| EncodingLaws.EncodedRunsAreDetermined | core/src/blockclock/runlencoder.rs:346-362 | Any canonical run list with the old deltas followed by the batch's steps is the encoder's result. |
| EncodingLaws.BatchSplitExactly | core/src/blockclock/runlencoder.rs:311-369 | Encoding A then B leaves the same state as encoding A followed by B at once if and only if A holds a block above 0, or B continues from the genesis time just as it would from A's last time. |
| EncodingLaws.BatchSplitDiffers | core/src/blockclock/runlencoder.rs:340-345 | A concrete encoder past block 0, a batch of block 0 alone and a next one, which leave another encoding than both at once. |
| EncodingLaws.EnvelopeLaw | core/src/blockclock/runlencoder.rs:348 | The decoded clock never falls, is never below the recorded time, and equals it exactly when time never ran backwards before. |
| EncodingLaws.LookupFaithful | core/src/blockclock/runlencoder.rs:495-519 | For any timestamps at all the lookup answers genesis plus the positive steps for every block up to `max_block`, and nothing beyond; run lengths add up to `max_block`. |
| EncodingLaws.RoundTrip | core/src/blockclock/runlencoder.rs:495-519 | The recorded time of a block comes back if and only if time never ran backwards up to it. |
| EncodingLaws.ConsecutiveBatch | core/src/blockclock/runlencoder.rs:311-369 | A batch that continues at `max_block + 1`, in any order, extends the recorded table by exactly its stamps. |
| EncodingLaws.AcceptedLookup | core/src/blockclock/runlencoder.rs:311-370 | After any accepted batch, with gaps, old blocks or repeats, every block up to the batch's last one is looked up by its place in the table of encoded times, as far as that goes, and no other block. |
| EncodingLaws.RecordedAfter | core/src/blockclock/runlencoder.rs:307-370 | An accepted batch can be looked up again if and only if each of its blocks lies within the table and the decoded clock at its place is its time. |
| EncodingLaws.RecordedExactly | core/src/blockclock/runlencoder.rs:307-338 | Blocks that are all new and distinct can be looked up again if and only if the batch is sequential and time does not fall. |
| EncodingLaws.RepeatIsRecorded | core/src/blockclock/runlencoder.rs:307-338 | A concrete batch that is not sequential, as it repeats the newest block, and is recorded all the same. |
| EncodingLaws.RoundTracks | core/src/blockclock/runlencoder.rs:384-440 | A round of polling with an honest or failing provider keeps the encoder equal to the chain's table; an answered round moves it on by just the asked blocks, a failed one not at all. |
| EncodingLaws.PolledLookup | core/src/blockclock/runlencoder.rs:495-519 | An encoder that has polled a chain answers every block with the chain's time, block 0 with genesis, and nothing above `max_block`. |
| DeltaEncoding.GenesisTable | core/src/blockclock/runlencoder.rs:372-384 | Three networks have a genesis time of their own, with these values, and every other one has 0. |
| EncodingLaws.IndexSurvivesGrowth | core/src/blockclock/runlencoder.rs:189-203 | Any number of further batches without a rebuild, rejected ones included, leave every index entry exact. |
| EncodingLaws.BatchCompleteExactly | core/src/blockclock/runlencoder.rs:521-580 | The batch lookup resolves all that the single lookup resolves if and only if neither the newest block nor a block before the chosen checkpoint is asked for. |
| EncodingLaws.BatchMisses | core/src/blockclock/runlencoder.rs:541-563 | Two concrete requests that only the single lookup answers, over the index that loading builds for them. |
| EncodingLaws.SumsFitExactly | core/src/blockclock/runlencoder.rs:195-201 | Every product and time sum formed while indexing and looking up fits into 64 bits if and only if the last sum does; all sums of blocks are at most `max_block`; for times that never fall the last sum is the recorded maximum time. |
| DeltaEncoders.DeltaEncoder.FromDecoded | core/src/blockclock/runlencoder.rs:159-186 | Restoring from any decoded contents indexes exactly the runs that start at a multiple of the interval, and each entry is exact. |
| DeltaEncoders.DeltaEncoder.BuildIndex | core/src/blockclock/runlencoder.rs:189-203 | Adds exactly the runs that start at a multiple of the interval, keeps other entries, all exact. |
| DeltaEncoders.DeltaEncoder.EncodeDeltas | core/src/blockclock/runlencoder.rs:311-370 | The in-place loop computes the specified encoding, leaves the state alone on rejection and keeps the index exact. |
| DeltaEncoders.DeltaEncoder.FetchEncodePersist | core/src/blockclock/runlencoder.rs:384-440 | Asks for the blocks after `max_block` and encodes the reply; a failed request changes nothing but the genesis time. |
| DeltaEncoders.DeltaEncoder.PollEncodeLoop | core/src/blockclock/runlencoder.rs:443-489 | However often requests fail and whenever it is interrupted, the encoder holds exactly the chain's times up to `max_block`. It stops within one batch of the head, or has moved on by at least one batch for every answered round, and never passes the head. |
| DeltaEncoders.DeltaEncoder.GetBlockTimestamp | core/src/blockclock/runlencoder.rs:495-519 | The indexed walk equals the sum of all deltas from genesis, for every block and every exact index. |
| DeltaEncoders.DeltaEncoder.GetBlockTimestamps | core/src/blockclock/runlencoder.rs:523-580 | Answers are those of the single lookup; the keys are exactly the requested blocks up to `max_block`, from the checkpoint on and below the run total. |
| DeltaEncoders.DeltaEncoder.TryAttachLogTimestamps | core/src/blockclock/runlencoder.rs:586-609 | Stamps exactly the logs whose block the batch lookup answers. |
| Sampling.BlockRangeSamples | core/src/blockclock/fetcher.rs:32-71 | The loop with its early exit computes the specified samples. |
| Sampling.SamplesCoverRange | core/src/blockclock/fetcher.rs:32-71 | For every range and rate the samples rise strictly, stay in the range and hold both of its ends. |
| Sampling.SteppedSpacing | core/src/blockclock/fetcher.rs:55-71 | In the stepped branch there are `sample_count` samples or one less, and no gap exceeds the step rounded up. |
| Sampling.SteppedPlaces | core/src/blockclock/fetcher.rs:55-65 | Each stepped sample is the block nearest to its place, where the places divide the range into equal steps. |
| Sampling.SampleCountMeaning | core/src/blockclock/fetcher.rs:41-45 | The sample count is the smallest number, but not less than 2, that is the rate's share of the range. |
| Sampling.RateMeaning | core/src/blockclock/fetcher.rs:25-28 | Without a rate every block is wanted; a rate is kept between a thousandth and one. |
| Sampling.SmallRangesWhole | core/src/blockclock/fetcher.rs:46-53 | Up to 26 blocks are always taken whole; of 27 a low rate takes fewer. |
| Sampling.Ends | core/src/blockclock/fetcher.rs:55-65 | The loop always leaves at its last index: the point there is just beyond the range, and the one before is inside. |
| Sampling.FullRateTakesAll | core/src/blockclock/fetcher.rs:25-53 | At rate 1 every block of the range is a sample. |
| Interpolation.Interpolate | core/src/blockclock/fetcher.rs:79-123 | The loop over blocks computes the specified times, or fails where the assertion does. |
| Interpolation.StampBetween | core/src/blockclock/fetcher.rs:97-117 | Every time lies between those of its two neighbouring anchors. |
| Interpolation.StampAtAnchor | core/src/blockclock/fetcher.rs:97-117 | At an anchor the time is the anchor's own; the assertion fails there exactly when that is zero. |
| Interpolation.StampMonotone | core/src/blockclock/fetcher.rs:97-117 | Times do not fall when the anchors' times do not fall. |
| Interpolation.LineIsStraight | core/src/blockclock/fetcher.rs:97-117 | The rise of the line from its first anchor is to the whole rise as the blocks passed are to all between the anchors. |
| Interpolation.FewAnchors | core/src/blockclock/fetcher.rs:79-90 | Without anchors no block is timed, and with one only its own. |
| Interpolation.InterpolatedMeaning | core/src/blockclock/fetcher.rs:79-123 | For two or more anchors with distinct blocks in any order: the assertion never fails if and only if all times are positive; then exactly the blocks from first to last are timed and all anchors keep their times. |
| BlockFetcher.GetBlocks | core/src/blockclock/fetcher.rs:132-164 | Requests the sorted distinct blocks and reads the reply as specified, with each of its three errors. |
| BlockFetcher.RoundFailsExactly | core/src/blockclock/fetcher.rs:140-164 | A round fails without a reply; a reply that is read as it is never fails; one that is read as a sample fails exactly with the interpolation, or on the first requested block that is left out. |
| BlockFetcher.LastHeaderCounts | core/src/blockclock/fetcher.rs:143-150 | Of several headers of one block the last one counts. |
| BlockFetcher.AttachConserves | core/src/blockclock/fetcher.rs:173-206 | Whatever the provider answers: on success the logs are a permutation of the input but for times, and every log with a block number has one. |
| BlockFetcher.RequestIsExact | core/src/blockclock/fetcher.rs:132-206 | At every rate the next request is exactly the unstamped blocks that no reply has answered yet. |
| BlockFetcher.RoundsAreBounded | core/src/blockclock/fetcher.rs:173-206 | If each reply answers one requested block, the recursion ends after at most as many rounds as there are unstamped blocks. |
| BlockFetcher.WaitsExactly | core/src/blockclock/fetcher.rs:173-206 | At any rate and for any replies the recursion has not ended if and only if some unstamped block is in no reply so far and every reply came and, in its turn, was read as it is. |
| BlockFetcher.DefaultWaitsExactly | core/src/blockclock/fetcher.rs:132-206 | At the default rate the recursion has not ended if and only if all replies came and some unstamped block is in none of them. |
| BlockFetcher.NeverEndsExactly | core/src/blockclock/fetcher.rs:132-206 | At the default rate the recursion never ends if and only if every reply of the provider comes and some unstamped block is in none of them, ever. |
| BlockFetcher.EmptyRepliesStall | core/src/blockclock/fetcher.rs:143-164 | Under replies without any header the fetcher repeats its request for ever or fails on the first block, decided by the size of the sample. |
| BlockFetcher.DefaultRateIsExact | core/src/blockclock/fetcher.rs:132-206 | At the default rate, over any number of partial but true replies, the output is the input with every block's true time. |
| BlockFetcher.FullReplyIsExact | core/src/blockclock/fetcher.rs:132-206 | At any rate one full and true reply stamps every log with its block's true time. |
| GivenTimes.AttachFills | core/src/blockclock/fetcher.rs:173-206 | For any rate and any replies, when the work ends: a log that came with a time has the first reply's time for its block if there is one, each other log has the first time told for its block, and nothing else has changed. |
| GivenTimes.FirstRoundComesLast | core/src/blockclock/fetcher.rs:184-205 | The logs that have a time after the first reply come last, in the order in which they came. |
| GivenTimes.GivenTimesSurviveReply | core/src/blockclock/fetcher.rs:173-206 | For any rate and any replies, when the work ends, given times survive if and only if the first reply tells no other time for their blocks; later replies replace nothing. |
| GivenTimes.FirstTimesMeaning | core/src/blockclock/fetcher.rs:132-164 | What the first reply tells: read as it is, exactly the blocks of its headers with a header's time; read as a sample, the interpolation of its headers, which holds all requested blocks. |
| GivenTimes.ExactReplyTells | core/src/blockclock/fetcher.rs:132-206 | When the reply holds just the true headers of the request, the outcome is the batch with the true times of the requested blocks, or with estimates of all blocks from the first requested one to the last. |
| GivenTimes.EstimateIsOnLine | core/src/blockclock/fetcher.rs:97-117 | The estimate of a block is the rounded point of the straight line between the two requested blocks next to it. |
| GivenTimes.GivenTimesSurviveEncoder | core/src/blockclock/runlencoder.rs:586-609 | The encoder attaches the true times of exactly the blocks of unstamped logs that its batch lookup answers, and given times survive it if and only if they agree with those. |
| GivenTimes.GivenTimesSurviveSpaced | core/src/blockclock/mod.rs:142-150 | On a fixed-interval network given times survive if and only if each is the one of the formula; beyond the last safe block none survives. |
| GivenTimes.ClockFills | core/src/blockclock/mod.rs:116-165 | For any configuration, encoder and replies, when the pipeline ends, it has attached to the logs exactly what its stages tell, a later stage before an earlier one: to logs that came with a time only from the first reply, to others and on fixed-interval networks from all. |
| GivenTimes.UntoldTimesAreSeconds | core/src/blockclock/mod.rs:121-165 | For any configuration, a log that came with a time, and that no stage tells one for, comes out with its time in seconds: a time above 1000000000000 counts as milliseconds. |
| GivenTimes.SafeBlocksTick | core/src/blockclock/mod.rs:137-165 | On a fixed-interval network every log of a safe block, that neither the encoder nor the first reply tells a time for, comes out with the genesis time and the spacing for every block since. |
| GivenTimes.GivenTimesSurviveClock | core/src/blockclock/mod.rs:116-165 | For any configuration, encoder and replies, when the pipeline ends, given times survive if and only if none of these sources tells another time for their blocks. |
| GivenTimes.ExactClockTells | core/src/blockclock/mod.rs:116-165 | When the encoder agrees with the chain and the reply holds just the true headers, the pipeline ends and tells true or estimated times of exactly the blocks in `ClockTimes`. |
| GivenTimes.DefaultTimesExactly | core/src/blockclock/mod.rs:116-165 | At the default rate, when all sources agree with the chain, the stages tell the true times of the blocks of unstamped logs, on a fixed-interval network those of all logs, and no other times. |
| GivenTimes.ReplyReplaces | core/src/blockclock/fetcher.rs:173-206 | A concrete batch at the default rate whose given time is lost to the header of its block. |
| GivenTimes.ExtraHeaderReplaces | core/src/blockclock/fetcher.rs:150-197 | A concrete batch at the default rate whose given time is lost to a header that was not asked for. |
| GivenTimes.LaterReplyKeeps | core/src/blockclock/fetcher.rs:173-206 | A batch whose given time survives a first reply without its block, whatever later replies say. |
| GivenTimes.SampleReplaces | core/src/blockclock/fetcher.rs:150-197 | A concrete batch whose given time, in a block that was not asked for, is lost to an estimate. |
| GivenTimes.EncoderReplaces | core/src/blockclock/runlencoder.rs:586-609 | A concrete batch whose given time is lost to the encoder. |
| GivenTimes.SpacedReplaces | core/src/blockclock/fixed.rs:54-63 | A concrete batch on Base whose given times are lost: one to the formula, one beyond its last safe block to nothing. |
| BlockClock.ClockConserves | core/src/blockclock/mod.rs:116-165 | For every configuration the pipeline loses, adds and repeats no log, and every log with a block number ends with a time. |
| BlockClock.PanicsExactly | core/src/blockclock/mod.rs:142-150 | The pipeline panics if and only if the network has a fixed interval, some log has no time and some log has no block number. |
| BlockClock.SpacedIgnoresGivenTimes | core/src/blockclock/mod.rs:137-150 | On a fixed-interval network two batches that differ only in the times they came with have the same outcome, once each has an unstamped log. |
| BlockClock.SpacedTicks | core/src/blockclock/fixed.rs:54-63 | With a known spacing the clock of each network starts at its genesis time, ticks by the spacing from block to block up to the last safe one, and stops there; without one it tells nothing. |
| BlockClock.SpacedTable | core/src/blockclock/fixed.rs:16-46 | The genesis times and last safe blocks of the four networks. |
| BlockClock.SpacedBatch | core/src/blockclock/mod.rs:137-150 | On a fixed-interval network a batch of safe blocks that is not stamped throughout comes out in its order, each log with the genesis time and the spacing for every block since, whatever encoder and replies say. |
| BlockClock.NormalisedMeaning | core/src/blockclock/mod.rs:121-135 | A time up to 1000000000000 stays, and one above becomes the second that this many milliseconds lie in; nothing else of a log changes. |
| BlockClock.StampedBatch | core/src/blockclock/mod.rs:121-140 | A batch that is stamped throughout comes out in its order, with its times in seconds. |
| BlockClock.RerunIsIdentityExactly | core/src/blockclock/mod.rs:121-140 | Stamping a stamped batch again changes nothing if and only if no time is above the millisecond threshold. |
| BlockClock.FetchesExactly | core/src/blockclock/mod.rs:142-164 | The provider is asked exactly for the blocks that neither the network's formula, nor the encoder's batch lookup, nor an earlier reply has answered. |
| BlockClock.ClockIsExact | core/src/blockclock/mod.rs:116-165 | At the default rate, when all sources agree with the chain, every log leaves the pipeline with its block's true time, whichever stage gave it. |
| AdaptiveController.AdaptiveConcurrency.RecordSuccess | core/src/adaptive_concurrency.rs:83-147 | A success computes the next state, which `SuccessMeaning` describes, and keeps all bounds. |
| AdaptiveController.SuccessMeaning | core/src/adaptive_concurrency.rs:83-147 | A success takes a quarter off the backoff; the tenth in a row raises a concurrency below the maximum by a fifth, at least by 1, and a batch below 100 by a fifth, at least by 5, up to those limits; the others change neither. |
| AdaptiveController.AdaptiveConcurrency.RecordRateLimit | core/src/adaptive_concurrency.rs:150-201 | A rate limit computes the next state, which `RateLimitMeaning` describes, and keeps all bounds. |
| AdaptiveController.RateLimitMeaning | core/src/adaptive_concurrency.rs:150-201 | A rate limit doubles the backoff from 500 to 30000, halves the batch down to 5 and a concurrency above the minimum down to that, clears the successes and is counted modulo 2^64. |
| AdaptiveController.AdaptiveConcurrency.RecordError | core/src/adaptive_concurrency.rs:204-222 | An error computes the next state, which `ErrorMeaning` describes, and keeps all bounds. |
| AdaptiveController.ErrorMeaning | core/src/adaptive_concurrency.rs:204-222 | An error takes a tenth off a concurrency above the minimum, at least 1, down to the minimum, clears the successes and leaves backoff, batch and counter alone. |
| AdaptiveController.RunKeepsBounds | core/src/adaptive_concurrency.rs:36-222 | Over every sequence of calls, for any limits and start: concurrency, backoff and batch size stay in bounds. |
| AdaptiveController.SuccessesClearBackoff | core/src/adaptive_concurrency.rs:83-101 | 34 successes in a row clear every reachable backoff, and 33 do not clear the highest. |
| AdaptiveController.SuccessesReachMax | core/src/adaptive_concurrency.rs:103-123 | Ten successes for each missing step bring concurrency to its maximum. |
| AdaptiveController.SuccessesFillBatch | core/src/adaptive_concurrency.rs:125-145 | 120 successes in a row bring every reachable batch size to 100, and 119 do not from the smallest one. |
| AdaptiveController.ErrorsReachMin | core/src/adaptive_concurrency.rs:204-222 | As many errors as there are steps to the minimum reach it. |
| AdaptiveController.RateLimitsPin | core/src/adaptive_concurrency.rs:154-174 | Fifteen rate limits in a row pin backoff at 30000 and batch size at 5. |
| AdaptiveController.RateLimitsReachMin | core/src/adaptive_concurrency.rs:176-189 | k rate limits bring concurrency below 2^k to its minimum. |
| ControllerSteps.EveryRunRefines | core/src/adaptive_concurrency.rs:83-222 | In every interleaving of any number of workers each field moves only by one of the controller's functions, applied to the value it holds at that instant. |
| ControllerSteps.EveryMoveIsAShare | core/src/adaptive_concurrency.rs:83-222 | In every interleaving concurrency moves only up by a fifth, down to half or down by a tenth, backoff down by a quarter or up to double, and batch up by a fifth or down to half, each with its least amount and limit. |
| ControllerSteps.EveryRunStaysInBounds | core/src/adaptive_concurrency.rs:83-222 | No interleaving, with stale loads and failing exchanges, takes a field out of its bounds. |
| ControllerSteps.EveryLimitIsCounted | core/src/adaptive_concurrency.rs:150-152 | The counter plus the calls still on their way to it equals the rate limit calls begun, modulo 2^64. |
| ControllerSteps.StepsAreBounded | core/src/adaptive_concurrency.rs:83-222 | Every step brings its worker closer to the end of its call and moves no other worker. |
| ControllerSteps.NeverBlocked | core/src/adaptive_concurrency.rs:83-222 | In every interleaving a worker inside a call has a step that it can take: calls never wait for each other. |
| ControllerSteps.UndisturbedCallIsSequential | core/src/adaptive_concurrency.rs:83-222 | A call that no other worker disturbs has exactly the effect of the sequential call. |
| LogQuery.MergeFilterLogs | core/src/provider.rs:122-142 | The retain loop with its seen set and the sort compute the specified merge. |
| LogQuery.MergeMeaning | core/src/provider.rs:122-142 | For any answers the merge is chain-ordered, holds each complete identity once by its first log, and each log with an incomplete identity as often as it came. |
| LogQuery.MergeByFields | core/src/provider.rs:122-142 | For any answers: each log has one in the result that agrees with it in block hash, transaction hash and log index; no two complete ones of the result agree in all three; a log that lacks one is kept as often as it came; nothing else is there, and the result is in order of block number, transaction index and log index, missing ones last. |
| LogQuery.FirstAnswerFirst | core/src/provider.rs:122-125 | The answers are taken one after the other, the first one first. |
| LogQuery.MergeKeepsTies | core/src/provider.rs:122-142 | Logs at the same position come out in the order in which they arrived. |
| LogQuery.MergedIsSelected | core/src/provider.rs:122-142 | On a chain in strict order whose logs have all fields and differ pairwise in block hash, transaction hash or log index, answers that hold exactly the wanted logs, split and repeated in any way, merge to the wanted part of the chain. |
| LogQuery.SelectMeaning | core/src/provider.rs:636-697 | The unsplit query: exactly the matching logs of the chain, each once, in chain order. |
| LogQuery.ChunkSet | core/src/helpers/array.rs:3-23 | The chunks are disjoint, not empty, full but for the last, and together the whole set, in whatever order it is visited. |
| LogQuery.GetLogsForAddressInBatches | core/src/provider.rs:701-718 | For every chunk size the batches hold exactly the logs that match with an allowed address. |
| LogQuery.GetLogsForAddressInMemory | core/src/provider.rs:722-733 | Filtering in memory holds exactly the logs that match with an allowed address. |
| LogQuery.GetLogs | core/src/provider.rs:636-697 | Split in any way the query returns wanted logs only, in chain order, for each wanted log one that agrees with it in block hash, transaction hash and log index, no two complete ones that agree, and every incomplete one; on a chain in strict order without such pairs it equals the whole query, and only a failed request fails it. |
| TraceFlattening.FlattenCalls | core/src/provider.rs:374-383 | The stack loop ends and emits calls in the specified order. |
| TraceFlattening.DebugTraceBlock | core/src/provider.rs:366-400 | The whole loop computes the frames of all roots and drops those without a callee. |
| TraceFlattening.LastToFirstIsMirroredPreorder | core/src/provider.rs:374-383 | The stack order is the preorder of the forest with every child list turned around. |
| TraceFlattening.OneFrameForEveryNode | core/src/provider.rs:374-383 | Every node of any forest is emitted exactly once. |
| TraceFlattening.FramesConserveNodes | core/src/provider.rs:366-384 | The frames of a block are the nodes of all its trees, each once. |
| TraceFlattening.HashesComeFromRoots | core/src/provider.rs:368-382 | The transaction hashes in the frames are those of the roots, in order, and no others. |
| TraceFlattening.RootsComeFirst | core/src/provider.rs:366-384 | The frames of a block are those of its first tree, then of its second and so on; in each the root comes first, with its transaction's hash and its own fields, and the calls below it follow in stack order, without a hash. |
| TraceFlattening.TracesAreCallees | core/src/provider.rs:386-400 | The traces of a block are exactly its tree nodes with a callee, each once with its own fields; those of the roots carry their transaction's hash, the others none. |
| EventSignature.MembersRoundTrip | core/src/abi.rs:239-259 | Parsing inverts printing for any list of well-formed types, tuples of any depth included. |
| EventSignature.SignatureRoundTrip | core/src/abi.rs:227-259 | A signature parses back to the event's name and type trees with array suffixes; it is missing exactly when some tuple has no components. |
| EventSignature.SignatureInjective | core/src/abi.rs:227-259 | Events have the same signature if and only if they have the same name and the same types. |
| EventSignature.ParsedSignature | core/src/abi.rs:227-259 | Every text that parses is the print of exactly what it parses to. |
| EventSignature.PrintersAgreeExactly | core/src/abi.rs:78-92 | The two printers of a parameter type agree if and only if no tuple array is reached. |
| EventSignature.PrintersDiffer | core/src/abi.rs:78-92 | A concrete array of tuples that one printer expands and the other does not. |
| ColumnNames.PropertyHasLeaf | core/src/abi.rs:94-197 | Every generated column belongs to a leaf of the parameter tree and has the name of its path. |
| ColumnNames.LeafHasProperty | core/src/abi.rs:94-197 | Every leaf has a generated column. |
| ColumnNames.TuplesAreFlattened | core/src/abi.rs:94-197 | A leaf with members is an array of tuples, and no array of tuples lies on a path. |
| ColumnNames.MembersAreReached | core/src/abi.rs:94-197 | A plain tuple with members is no leaf, and each leaf of its members is reached through it. |
| ColumnNames.ColumnsAreDistinct | core/src/abi.rs:94-197 | With distinct sibling names no two columns have the same full path. |
| ColumnNames.ColumnsComeInOrder | core/src/abi.rs:94-197 | Columns come in the order of their leaves, tuples read depth first. |
| ColumnNames.NamesCollideExactly | core/src/abi.rs:94-197 | Two columns have the same name if and only if their parts, cut at every underscore, are the same words. |
| ColumnNames.NamesCollide | core/src/abi.rs:94-197 | An event with distinct names at every level whose two generated columns have the same name: member `b_c` of tuple `a` and member `c` of tuple `a_b`. |
| ColumnNames.GetAbiItemWithDbMap | core/src/abi.rs:441-506 | The loop over the path computes the walk in the first event of that name, is an error for a missing event exactly if no item has the name and is an event, and answers the path of each leaf with the leaf and its generated column exactly as `DerivationsAgreeExactly` says. |
| ColumnNames.FindEvent | core/src/abi.rs:441-450 | The first item that has the name and is an event, and nothing exactly if there is none. |
| ColumnNames.DerivationsAgreeExactly | core/src/abi.rs:441-506 | The path of a generated column leads back to its leaf and its name if and only if the last name is not repeated earlier and the first part is not empty or stands alone. |
| ColumnNames.UnnamedTupleDiffers | core/src/abi.rs:441-506 | The member of an unnamed tuple has a generated column with an underscore in front, and its path leads to the name without. |
| ColumnNames.RepeatedNameStops | core/src/abi.rs:441-506 | The path of a member with its own tuple's name leads to the tuple. |
| FreshNames.FindUniqueName | cli/src/commands/foundry.rs:1736-1749 | The search ends, by pigeonhole on different suffixes, at the least free one. |
| FreshNames.UniqueName | cli/src/commands/foundry.rs:1736-1749 | The name is not in use, starts with the wanted one, and is the wanted one if and only if that was free. |
| FreshNames.TakenNameIsNumbered | cli/src/commands/foundry.rs:1736-1749 | A name that is taken is followed by the least number from 2 on that makes it free, in decimal. |
| FreshNames.DecimalMeaning | cli/src/commands/foundry.rs:1743 | Numbers are written in decimal, the highest digit first. |
| FreshNames.SanitizeContractName | cli/src/commands/foundry.rs:1762-1777 | The replacement loop ends, as each round loses an f, and computes the specified name. |
| FreshNames.LoopIsOnePass | cli/src/commands/foundry.rs:1766-1772 | Replacing the first occurrence until none is left is the same as one pass from left to right. |
| FreshNames.SanitizedNameOk | cli/src/commands/foundry.rs:1762-1777 | Any name becomes one that is not empty, holds only letters, digits and underscores, and is free of the reserved word in any casing. |
| FreshNames.UsableStays | cli/src/commands/foundry.rs:1762-1777 | A name of letters, digits and underscores that is not empty and free of the reserved word stays as it is. |
| FreshNames.DropsForbidden | cli/src/commands/foundry.rs:1762-1765 | Other characters are dropped, in their places and nothing else. |
| FreshNames.ReservedMeaning | cli/src/commands/foundry.rs:1766-1772 | The reserved word is `filter`, each letter of it in either case. |
| FreshNames.ReservedReplaced | cli/src/commands/foundry.rs:1766-1777 | The reserved word becomes `Contract`, and a name of which nothing is left `FoundryContract`. |
| FreshNames.ImportedNames | cli/src/commands/foundry.rs:1727-1777 | The names given to any list of contracts are usable and pairwise distinct. |
| FoundryModel.BuildDefaultNetworks | cli/src/commands/foundry.rs:1503-1528 | The loop adds the specified networks. |
| FoundryModel.AddNetworksMeaning | cli/src/commands/foundry.rs:1503-1528 | Existing networks stay as they are, every chain gets one, and distinct names stay distinct. |
| FoundryModel.NetworksSettle | cli/src/commands/foundry.rs:1503-1532 | A second sync adds no network. |
| FoundryModel.WithNetworksMeaning | cli/src/commands/foundry.rs:1503-1533 | What a sync adds to the networks: in the order of chain ids, one for each deployed chain that has none, without settings, with the chain's default name if that is free and otherwise one that starts with it. |
| FoundryModel.DefaultNames | cli/src/commands/foundry.rs:1549-1583 | The default names of the known chains; any other chain is called after its number. |
| FoundryModel.DetailsConserveDeployments | cli/src/commands/foundry.rs:557-590 | A manifest entry lists exactly the deployed addresses, each as often as deployed. |
| FoundryModel.EntryDescribes | cli/src/commands/foundry.rs:557-600 | A manifest entry has the assigned name and ABI path, the events of the discovery in their order and without settings, and one details entry for each deployed chain: it names the last network of that chain, lists the addresses deployed there and no others, and starts at the earliest of their start blocks. |
| FoundrySync.Project.SyncManifestAndAbis | cli/src/commands/foundry.rs:446-532 | The loop over the discovery leaves the specified manifest and files and returns the specified report; the rows below say what these are. |
| FoundryRuns.SyncedEntryDescribes | cli/src/commands/foundry.rs:446-532 | For any manifest, origin and discovery: under the name that a contract is assigned, unless a later one is assigned it too, the first entry of the synced manifest describes just that contract, with networks of the same manifest. |
| FoundryRuns.OriginRemembers | cli/src/commands/foundry.rs:1421-1467 | The origin written after a sync remembers of every contract its name in the project, its artifact, and each deployment with chain, address, start block and the name of its network in the synced manifest. |
| FoundryRuns.ImportDescribes | cli/src/commands/foundry.rs:303-378 | A new import describes and remembers every discovered contract under its own name and ABI path, in order. |
| FoundryReports.StaleExactly | cli/src/commands/foundry.rs:461-529 | A contract is reported as stale if and only if it is managed and stands in the manifest, but its key is not discovered any more. |
| FoundryReports.AbiReportedExactly | cli/src/commands/foundry.rs:499-512 | With distinct names and ABI paths, dry or not, a contract's ABI is reported as changed if and only if its entry stands in the manifest and its file is missing or holds another ABI. |
| FoundryReports.NamesAreInjectiveExactly | cli/src/commands/foundry.rs:475-523 | Exactly the discovered contracts are given identities, and no two of them the same name if and only if no known contract comes after another one that is assigned its name; with distinct names in the origin that is the condition of the dry run. |
| FoundrySync.SyncDoesNotInterfere | cli/src/commands/foundry.rs:486-515 | For any manifest, origin and discovery: contracts not reported as updated are untouched, and all keep place, name and extensions. |
| FoundryReports.DryRunReportsTheSame | cli/src/commands/foundry.rs:446-532 | For any manifest, origin and discovery a dry run writes nothing, assigns the same identities and finds the same contracts stale; it reports the same added and updated contracts if and only if no known contract that is missing from the manifest comes after another one that is assigned its name. |
| FoundryReports.DryRunAbisExactly | cli/src/commands/foundry.rs:499-512 | For any manifest, origin and discovery, a dry run and a real run differ on whether a contract's ABI has changed if and only if an earlier contract of the run has written another ABI to its path, or added its entry, in such a way that the two find different answers; without such a contract the lists are equal, and with distinct names only then. |
| FoundryReports.SharedNameSplits | cli/src/commands/foundry.rs:499-512 | An origin with two keys of one name and ABI path, for which the dry run reports one changed ABI and the real run two, although no name is taken. |
| FoundryReports.DryRunIsExact | cli/src/commands/foundry.rs:446-532 | With distinct ABI paths, and no name taken, the whole report of a dry run is that of the real run. |
| FoundryReports.RemovedNameIsTakenTwice | cli/src/commands/foundry.rs:475-515 | Whenever a managed contract was removed by hand and a new one that comes first is given its name, both have that name, the real run reports one addition and one update, the dry run two additions, and one entry is left of both. |
| FoundryRuns.SyncSettles | cli/src/commands/foundry.rs:433-441 | The origin written after a sync has distinct names that all stand in the manifest. |
| FoundryRuns.SecondSyncChangesNothing | cli/src/commands/foundry.rs:380-444 | For any manifest, origin and discovery, also where contracts share a name or a path, a second sync from the rebuilt origin leaves networks, contracts, files and identities as they are, adds nothing and finds nothing stale; it reports no changed ABI if and only if the contracts that share an ABI path have the same ABI. |
| FoundryRuns.TakenTwiceSplits | cli/src/commands/foundry.rs:446-532 | The origin written after a removed name was taken twice makes the next dry run report one changed ABI and the real run two. |
| FoundryRuns.EveryRunSettles | cli/src/commands/foundry.rs:380-444 | Over any run of syncs no two managed contracts share a name, all of them stand in the manifest, and every contract that was there keeps its place, name and extensions. |
| FoundryRuns.EveryRunKeepsAbis | cli/src/commands/foundry.rs:380-444 | Over any run of syncs ABI paths stay those made from the names, and each managed contract's file holds its own newest ABI. |
| FoundryRuns.PlainReports | cli/src/commands/foundry.rs:446-532 | With ABI paths made from the names a dry run reports just what the real run does, and running again changes no ABI. |
| FoundryRuns.NameIsKeptExactly | cli/src/commands/foundry.rs:380-444 | A contract of the newest discovery still has its name if and only if it was part of every discovery of the run, and then also its ABI path. |
| FoundryDiscovery.EnsureUniqueDesiredNames | cli/src/commands/foundry.rs:1727-1734 | The pass over the slice gives each contract a name that those before it do not have, in place. |
| FoundryDiscovery.BuildDesiredContracts | cli/src/commands/foundry.rs:696-755 | The grouping loop computes the specified contracts and skipped deployments. |
| FoundryDiscovery.DesiredIsDiscovered | cli/src/commands/foundry.rs:696-755 | Whatever is deployed, a discovery has one contract a key, with usable distinct names. |
| FoundryDiscovery.DesiredCollects | cli/src/commands/foundry.rs:696-755 | A discovered contract has name, artifact, ABI and events of the first deployment of its key, all deployments of the key in their order, and its sanitised name, or one that starts with it if an earlier contract has that; contracts come in the order of keys, and every deployment with an artifact and events is in one. |
| FoundryDiscovery.SkippedExactly | cli/src/commands/foundry.rs:696-755 | A deployment is reported as skipped for a reason exactly when it was deployed and that is the reason: no artifact, one in tests only, or no events. |
| FoundryDiscovery.BeforeMeaning | cli/src/commands/foundry.rs:696-755 | The order of keys: a text comes before another if it is its beginning, or has the lesser character where they part. |
| FoundryDiscovery.DesiredConservesDeployments | cli/src/commands/foundry.rs:696-755 | Every accepted deployment stands in the contract of its key, exactly as often as it occurs. |
| FoundryDiscovery.DeploymentsConserved | cli/src/commands/foundry.rs:696-755 | Accepted and skipped deployments together are as many as the deployments reported. |
| FoundryDiscovery.ProjectsStaySettled | cli/src/commands/foundry.rs:303-444 | From a new import, with the ABI files that it writes, through any list of later deployments and syncs: managed names never clash, all stand in the manifest, and each contract's file, under a path made from its name, holds its newest ABI. |
| FoundryDiscovery.DiscoveryTakesNameTwice | cli/src/commands/foundry.rs:446-532 | Two deployments of contracts of one name, the second from an artifact that comes before, make a discovery that gives both the same name after the first was removed by hand; the entry of the new one is overwritten by that of the old one. |
| FoundryDiscovery.ReturnsRenamed | cli/src/commands/foundry.rs:380-444 | An imported contract that one discovery lacks comes back under another name. |

## Left out

- RPC transport, retries, metrics, logging, sleeping and wall-clock time: replies are parameters, only their contents matter.
- Persistence with zstd and bincode, the global cache, path lookup and interrupts as such: `FromDecoded` starts from any decoded contents, and the polling loop may be interrupted after any round.
- 64-bit wrap-around in the block clock: times are unbounded; `SumsFitExactly` says when all sums fit. The product formed before the range check of a fixed-interval network is not modelled either, as its value is dropped.
- 64-bit and 32-bit floats are taken as reals in `Sampling` and `Interpolation`; a division by zero counts as a failed assertion, as no comparison accepts its result.
- Asking the provider for the genesis block: that branch is unreachable, as every network has a configured genesis time.
- `wait_for_backoff` and jitter: only the values that are waited for are modelled.
- Memory ordering beyond relaxed loads: a load may return any earlier value of its field, which allows more runs than hardware does.
- The counters `successes` and `rateLimits` are always current in `ControllerSteps`, as they are only changed by atomic increments and stores.
- A chunk size of 0 and an index interval of 0, on which the source divides by zero or never cuts a chunk: excluded by preconditions.
- The encoder's chunked request inside the provider and the adaptive batch size it uses: a request is answered as a whole.
- Average block spacing of the fixed-interval networks: it comes from a crate that is not part of this model, and is a parameter.
- `camel_to_snake`, `keccak256`, address parsing, SQL and ClickHouse types: a naming function is a parameter, the rest is not needed for names.
- Ranking of artifacts (`find_artifact`): a parameter of the grouping; reading broadcasts, running `forge` and `git`, and writing files of a project other than its ABI files.
- An empty discovery, on which both commands stop: the laws cover it like any other.
- User edits that a sync overwrites by design: details, included events and ABI path of a managed contract are rewritten from the discovery.
- Postgres and ClickHouse statements, GraphQL, health server, chat senders, prompts, docker and Anvil harnesses, lifecycle and governance scripts.
