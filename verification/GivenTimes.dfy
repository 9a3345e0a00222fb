/** What becomes of the times that logs come with: which stage replaces them, where, and by what. */
module GivenTimes {
  import opened Basics
  import opened Options
  import opened BlockClock
  import opened BlockFetcher
  import opened BlockLists
  import opened DeltaEncoding
  import opened DeltaRuns
  import opened EncodingLaws
  import opened Interpolation
  import opened LogStamping
  import opened Sampling
  import LogQuery
  import Sorting

  // ----- attaching times

  /** Every log that came with a time comes out with it. */
  ghost predicate Survive(logs: seq<StampedLog>, result: seq<StampedLog>) {
    forall x | x in logs && x.timestamp.Some? :: x in result
  }

  /** Where new times are told, they are the ones that the logs came with. */
  ghost predicate Confirmed(logs: seq<StampedLog>, dates: map<nat, nat>) {
    forall x | x in logs && x.timestamp.Some? && x.IsIn(dates) :: x.timestamp.value == dates[x.log.blockNumber.value]
  }

  lemma ApplySurvives(logs: seq<StampedLog>, dates: map<nat, nat>, result: seq<StampedLog>)
    requires Sorting.Permutation(result, Apply(logs, dates))
    ensures Survive(logs, result) <==> Confirmed(logs, dates)
  {
    var all := Apply(logs, dates);
    Sorting.SameSize(result, all);
    forall x | x in logs && x.timestamp.Some? ensures x in all <==> Attached(x, dates) == x {
      var i :| 0 <= i < |logs| && logs[i] == x;
      assert all[i] == Attached(x, dates);
      if x in all {
        var k :| 0 <= k < |all| && all[k] == x;
        assert all[k] == Attached(logs[k], dates);
      }
    }
    hide Apply;
  }

  // ----- any replies

  /** The times that the first reply tells. */
  ghost function FirstTimes(rate: real, blocks: seq<nat>, replies: seq<Reply>): map<nat, nat> {
    if blocks == [] || replies == [] then map[]
    else
      var dates := Dates(rate, Request(blocks), replies[0]);
      if dates.Ok? then dates.value else map[]
  }

  /** The times that the replies tell, each asked for what those before it left open; the first answer stays. */
  ghost function AllTimes(rate: real, blocks: seq<nat>, replies: seq<Reply>): map<nat, nat>
    decreases |replies|
  {
    if blocks == [] || replies == [] then map[]
    else
      var first := FirstTimes(rate, blocks, replies);
      AllTimes(rate, Without(blocks, first), replies[1..]) + first
  }

  /** A log that came with a time, and one that came without. */
  ghost function Filled(x: StampedLog, given: map<nat, nat>, missing: map<nat, nat>): StampedLog {
    if x.timestamp.Some? then Attached(x, given) else Attached(x, missing)
  }

  ghost function FilledAll(logs: seq<StampedLog>, given: map<nat, nat>, missing: map<nat, nat>): (r: seq<StampedLog>)
    ensures |r| == |logs| && forall i | 0 <= i < |r| :: r[i] == Filled(logs[i], given, missing)
  {
    if logs == [] then [] else [Filled(logs[0], given, missing)] + FilledAll(logs[1..], given, missing)
  }

  /** What a reply tells: read as it is, the times of its headers; read as a sample, their interpolation. */
  lemma {:induction false} FirstTimesMeaning(rate: real, blocks: seq<nat>, replies: seq<Reply>)
    requires blocks != [] && replies != [] && Dates(rate, Request(blocks), replies[0]).Ok?
    ensures var times, reply := FirstTimes(rate, blocks, replies), replies[0];
            && reply.Headers?
            && (if IsDirect(rate, Request(blocks)) then
                  && (forall b :: b in times <==> Answers(reply, b))
                  && (forall b | b in times :: (b, times[b]) in reply.headers)
                else Interpolated(reply.headers) == Some(times) && forall b | b in blocks :: b in times)
  {
    hide IsDirect, Interpolated, Request;
    DatesCover(rate, Request(blocks), replies[0]);
  }

  lemma OneMore(x: StampedLog, a: seq<StampedLog>, b: seq<StampedLog>)
    ensures multiset(([x] + a) + b) == multiset{x} + multiset(a + b) == multiset(a + ([x] + b))
  {
  }

  lemma RejoinCons(x: StampedLog, rest: seq<StampedLog>, all: map<nat, nat>)
    ensures var logs := [x] + rest;
            multiset(Apply(Having(logs, false), all) + Having(logs, true)) ==
            multiset{if x.timestamp.Some? then x else Attached(x, all)}
            + multiset(Apply(Having(rest, false), all) + Having(rest, true))
  {
    var left, stamped := Having(rest, false), Having(rest, true);
    assert Apply([x] + left, all) == [Attached(x, all)] + Apply(left, all);
    hide *;
    HavingCons(x, rest, true);
    HavingCons(x, rest, false);
    OneMore(if x.timestamp.Some? then x else Attached(x, all), Apply(left, all), stamped);
  }

  lemma FilledCons(x: StampedLog, rest: seq<StampedLog>, all: map<nat, nat>)
    ensures multiset(FilledAll([x] + rest, map[], all)) ==
            multiset{if x.timestamp.Some? then x else Attached(x, all)} + multiset(FilledAll(rest, map[], all))
  {
    assert Attached(x, map[]) == x;
    assert FilledAll([x] + rest, map[], all) == [Filled(x, map[], all)] + FilledAll(rest, map[], all);
  }

  lemma RejoinNothing(all: map<nat, nat>)
    ensures Apply(Having([], false), all) + Having([], true) == [] == FilledAll([], map[], all)
  {
  }

  lemma {:induction false} RejoinFilled(logs: seq<StampedLog>, all: map<nat, nat>)
    ensures multiset(Apply(Having(logs, false), all) + Having(logs, true)) == multiset(FilledAll(logs, map[], all))
  {
    hide *;
    if logs == [] {
      RejoinNothing(all);
    } else {
      var x, rest := logs[0], logs[1..];
      assert logs == [x] + rest;
      RejoinFilled(rest, all);
      RejoinCons(x, rest, all);
      FilledCons(x, rest, all);
    }
  }

  lemma FilledTwice(logs: seq<StampedLog>, first: map<nat, nat>, all: map<nat, nat>)
    ensures FilledAll(Apply(logs, first), map[], all) == FilledAll(logs, first, all + first)
  {
    hide FilledAll, Apply;
    forall i | 0 <= i < |logs|
      ensures Filled(Attached(logs[i], first), map[], all) == Filled(logs[i], first, all + first)
    {
    }
  }

  lemma OnlyMissing(logs: seq<StampedLog>, given: map<nat, nat>, missing: map<nat, nat>)
    requires forall x | x in logs :: x.timestamp.None?
    ensures FilledAll(logs, given, missing) == Apply(logs, missing)
  {
    hide FilledAll, Apply;
    forall i | 0 <= i < |logs| ensures FilledAll(logs, given, missing)[i] == Apply(logs, missing)[i] {
      assert logs[i] in logs;
    }
  }

  lemma NothingToFill(logs: seq<StampedLog>)
    ensures FilledAll(logs, map[], map[]) == logs
  {
  }

  /** The parts of a round that ends. */
  lemma RoundEnds(rate: real, logs: seq<StampedLog>, replies: seq<Reply>)
    requires Unstamped(logs) != [] && Attach(rate, logs, replies).Done?
    ensures replies != []
    ensures var first := FirstTimes(rate, Unstamped(logs), replies);
            var logs' := Apply(logs, first);
            var stamped, left := Having(logs', true), Having(logs', false);
            var completed := Attach(rate, left, replies[1..]);
            && completed.Done? && Attach(rate, logs, replies).logs == completed.logs + stamped
            && Unstamped(left) == Without(Unstamped(logs), first)
  {
    NeverIdle(rate, logs, replies);
    hide Attach, Dates, Request, Unstamped, Apply, Having;
    RoundCases(rate, logs, replies);
    LeftIsWithout(logs, FirstTimes(rate, Unstamped(logs), replies));
  }

  lemma AllTimesCons(rate: real, blocks: seq<nat>, replies: seq<Reply>)
    ensures blocks == [] ==> FirstTimes(rate, blocks, replies) == map[] == AllTimes(rate, blocks, replies)
    ensures blocks != [] && replies != [] ==>
              var first := FirstTimes(rate, blocks, replies);
              AllTimes(rate, blocks, replies) == AllTimes(rate, Without(blocks, first), replies[1..]) + first
  {
    hide Dates, Request;
  }

  /** Whatever the replies are: when the work ends, a log that came with a time has that of the first reply if
      the reply tells one for its block, and each other log has the first time told for its block. */
  lemma {:induction false} AttachFills(rate: real, logs: seq<StampedLog>, replies: seq<Reply>)
    requires Attach(rate, logs, replies).Done?
    ensures var blocks := Unstamped(logs);
            Sorting.Permutation(Attach(rate, logs, replies).logs,
                                FilledAll(logs, FirstTimes(rate, blocks, replies), AllTimes(rate, blocks, replies)))
    decreases |replies|
  {
    hide *;
    var blocks := Unstamped(logs);
    AllTimesCons(rate, blocks, replies);
    if blocks == [] {
      NothingToDo(rate, logs, replies);
      NothingToFill(logs);
      SamePermutation(logs);
    } else {
      RoundEnds(rate, logs, replies);
      var first := FirstTimes(rate, blocks, replies);
      var logs' := Apply(logs, first);
      var left, rest := Having(logs', false), Without(blocks, first);
      var all := AllTimes(rate, rest, replies[1..]);
      AttachFills(rate, left, replies[1..]);
      OnlyMissing(left, FirstTimes(rate, rest, replies[1..]), all);
      RejoinFilled(logs', all);
      FilledTwice(logs, first, all);
      AddStamped(Attach(rate, left, replies[1..]).logs, Apply(left, all), Having(logs', true),
                 FilledAll(logs', map[], all));
    }
  }

  lemma AddStamped(a: seq<StampedLog>, b: seq<StampedLog>, stamped: seq<StampedLog>, r: seq<StampedLog>)
    requires Sorting.Permutation(a, b) && multiset(b + stamped) == multiset(r)
    ensures Sorting.Permutation(a + stamped, r)
  {
    assert multiset(a + stamped) == multiset(a) + multiset(stamped);
  }

  /** All blocks that were open have been told when the work ends. */
  lemma AllTold(rate: real, logs: seq<StampedLog>, replies: seq<Reply>)
    requires Attach(rate, logs, replies).Done?
    ensures forall b | b in Unstamped(logs) :: b in AllTimes(rate, Unstamped(logs), replies)
  {
    var first, all := FirstTimes(rate, Unstamped(logs), replies), AllTimes(rate, Unstamped(logs), replies);
    var r, filled := Attach(rate, logs, replies).logs, FilledAll(logs, first, all);
    hide Attach, FirstTimes, AllTimes, FilledAll, Contents;
    AttachFills(rate, logs, replies);
    AttachConserves(rate, logs, replies);
    Sorting.SameSize(r, filled);
    forall b | b in Unstamped(logs) ensures b in all {
      var x :| x in logs && x.NeedsTime() && x.log.blockNumber.value == b;
      var i :| 0 <= i < |logs| && logs[i] == x;
      assert filled[i] == Filled(x, first, all) && filled[i] in filled;
      assert !filled[i].NeedsTime();
    }
  }

  lemma FilledSurvives(logs: seq<StampedLog>, given: map<nat, nat>, missing: map<nat, nat>, result: seq<StampedLog>)
    requires Sorting.Permutation(result, FilledAll(logs, given, missing))
    requires forall b | b in given :: b in missing && missing[b] == given[b]
    ensures Survive(logs, result) <==> Confirmed(logs, given)
  {
    var all := FilledAll(logs, given, missing);
    Sorting.SameSize(result, all);
    hide FilledAll, Sorting.Permutation;
    forall x | x in logs && x.timestamp.Some? ensures x in all <==> Attached(x, given) == x {
      SurvivesAt(logs, given, missing, x);
    }
  }

  lemma SurvivesAt(logs: seq<StampedLog>, given: map<nat, nat>, missing: map<nat, nat>, x: StampedLog)
    requires forall b | b in given :: b in missing && missing[b] == given[b]
    requires x in logs && x.timestamp.Some?
    ensures x in FilledAll(logs, given, missing) <==> Attached(x, given) == x
  {
    var all := FilledAll(logs, given, missing);
    hide FilledAll;
    var i :| 0 <= i < |logs| && logs[i] == x;
    assert all[i] == Attached(x, given);
    if x in all {
      var k :| 0 <= k < |all| && all[k] == x;
      assert all[k] == Filled(logs[k], given, missing);
    }
  }

  lemma FirstStays(rate: real, blocks: seq<nat>, replies: seq<Reply>)
    ensures var first, all := FirstTimes(rate, blocks, replies), AllTimes(rate, blocks, replies);
            forall b | b in first :: b in all && all[b] == first[b]
  {
    AllTimesCons(rate, blocks, replies);
    assert replies == [] ==> FirstTimes(rate, blocks, replies) == map[];
    hide FirstTimes, AllTimes;
  }

  /** For any rate and any replies, when the work ends, the times that logs came with survive if and only if
      the first reply tells no other time for their blocks: later replies replace nothing. */
  lemma {:induction false} GivenTimesSurviveReply(rate: real, logs: seq<StampedLog>, replies: seq<Reply>)
    requires Attach(rate, logs, replies).Done?
    ensures Survive(logs, Attach(rate, logs, replies).logs) <==>
            Confirmed(logs, FirstTimes(rate, Unstamped(logs), replies))
  {
    hide *;
    var blocks := Unstamped(logs);
    AttachFills(rate, logs, replies);
    FirstStays(rate, blocks, replies);
    FilledSurvives(logs, FirstTimes(rate, blocks, replies), AllTimes(rate, blocks, replies),
                   Attach(rate, logs, replies).logs);
  }

  /** These logs, in this order, with others in between. */
  ghost predicate Within(a: seq<StampedLog>, b: seq<StampedLog>) {
    a == [] || (b != [] && (if a[0] == b[0] then Within(a[1..], b[1..]) else Within(a, b[1..])))
  }

  lemma {:induction false} HavingWithin(logs: seq<StampedLog>, stamped: bool)
    ensures Within(Having(logs, stamped), logs)
    decreases |logs|
  {
    if logs != [] {
      var x, rest := logs[0], logs[1..];
      HavingWithin(rest, stamped);
      assert logs == [x] + rest;
      HavingCons(x, rest, stamped);
      var part := Having(rest, stamped);
      assert ([x] + part)[1..] == part;
      assert part != [] ==> part[0] in part;
    }
  }

  /** The logs that have a time after the first reply come last, and in the order in which they came. */
  lemma {:induction false} FirstRoundComesLast(rate: real, logs: seq<StampedLog>, replies: seq<Reply>)
    requires Attach(rate, logs, replies).Done? && Unstamped(logs) != []
    ensures var r, told := Attach(rate, logs, replies).logs, Apply(logs, FirstTimes(rate, Unstamped(logs), replies));
            exists k | 0 <= k <= |r| ::
              && Within(r[k..], told) && (forall x :: x in r[k..] <==> x in told && x.timestamp.Some?)
  {
    var told := Apply(logs, FirstTimes(rate, Unstamped(logs), replies));
    var stamped := Having(told, true);
    hide Attach, FirstTimes, Apply, Having, Within, Unstamped;
    RoundEnds(rate, logs, replies);
    HavingWithin(told, true);
    var r := Attach(rate, logs, replies).logs;
    var completed := Attach(rate, Having(told, false), replies[1..]).logs;
    assert r[|completed|..] == stamped;
  }

  // ----- an exact reply

  /** A reply that holds the true header of each asked block, once, and no other. */
  ghost predicate ExactReply(reply: Reply, blocks: seq<nat>, chain: Chain) {
    && reply.Headers? && DistinctNumbers(reply.headers) && TrueReply(reply, chain)
    && (forall b: nat :: Answers(reply, b) <==> b in blocks)
  }

  ghost function AnchorsOf(request: seq<nat>, chain: Chain): (r: seq<Anchor>)
    ensures |r| == |request| && forall i | 0 <= i < |r| :: r[i] == (request[i], chain.time(request[i]))
  {
    if request == [] then [] else [(request[0], chain.time(request[0]))] + AnchorsOf(request[1..], chain)
  }

  /** The time that a block between requested ones is given. */
  ghost function Estimate(request: seq<nat>, chain: Chain, b: nat): nat
    requires |request| >= 2
  {
    var stamp := Stamp(AnchorsOf(request, chain), b);
    if stamp.Some? then stamp.value else 0
  }

  ghost predicate PositiveTimes(request: seq<nat>, chain: Chain) {
    forall b | b in request :: chain.time(b) > 0
  }

  /** Between two neighbouring requested blocks the estimate lies on the straight line through their times. */
  lemma {:induction false} EstimateIsOnLine(request: seq<nat>, chain: Chain, b: nat, i: nat)
    requires Increasing(request) && PositiveTimes(request, chain) && i + 1 < |request| &&
             request[i] <= b <= request[i + 1]
    ensures var l, r := request[i], request[i + 1];
            Estimate(request, chain, b) == Line((l, chain.time(l)), (r, chain.time(r)), b).Floor
  {
    var anchors := AnchorsOf(request, chain);
    WindowAt(anchors, b, i);
    StampBetween(anchors, b);
    var w := Window(anchors, b, 0);
    if w != i {
      LineEnds(anchors[w], anchors[w + 1]);
      LineEnds(anchors[i], anchors[i + 1]);
    }
  }

  lemma WindowAt(anchors: seq<Anchor>, b: nat, i: nat)
    requires |anchors| >= 2 && Ascending(anchors) && i + 1 < |anchors| && anchors[i].0 <= b <= anchors[i + 1].0
    ensures anchors[0].0 <= b <= anchors[|anchors| - 1].0
    ensures var w := Window(anchors, b, 0); w == i || (w + 1 == i && b == anchors[i].0)
  {
    assert i > 0 ==> anchors[0].0 < anchors[i].0;
    assert i + 1 < |anchors| - 1 ==> anchors[i + 1].0 < anchors[|anchors| - 1].0;
    WindowHolds(anchors, b, 0);
    hide Window;
  }

  /** The times that an exact reply tells: read as it is, the true times of the requested blocks; read as a
      sample, an estimate for every block from the first requested one to the last. */
  ghost function ReplyTimes(rate: real, request: seq<nat>, chain: Chain): map<nat, nat>
    requires request != []
  {
    if IsDirect(rate, request) then map b: nat | b in request :: chain.time(b)
    else
      OneIsDirect(rate, request);
      map b: nat | request[0] <= b <= request[|request| - 1] :: Estimate(request, chain, b)
  }

  function Blocks(anchors: seq<Anchor>): (r: seq<nat>)
    ensures |r| == |anchors| && forall i | 0 <= i < |r| :: r[i] == anchors[i].0
  {
    if anchors == [] then [] else [anchors[0].0] + Blocks(anchors[1..])
  }

  lemma SortedHeaders(reply: Reply, request: seq<nat>, chain: Chain)
    requires ExactReply(reply, request, chain) && Increasing(request)
    ensures Sorting.Sort(ByBlock, reply.headers) == AnchorsOf(request, chain)
  {
    var sorted := Sorting.Sort(ByBlock, reply.headers);
    SortedBatch(reply.headers);
    SortedDistinct(reply.headers);
    hide Sorting.Sort, DistinctNumbers, Answers, TrueReply, AnchorsOf, Increasing;
    var blocks := Blocks(sorted);
    assert Increasing(blocks) by {
      IncreasingBlocks(sorted);
    }
    forall b: nat ensures b in blocks <==> b in request {
      BlocksAnswer(reply, sorted, b);
    }
    hide Blocks;
    IncreasingUnique(blocks, request);
    forall i | 0 <= i < |sorted| ensures sorted[i] == AnchorsOf(request, chain)[i] {
      assert sorted[i] in reply.headers && blocks[i] == request[i];
      TrueHeader(reply, chain, sorted[i]);
    }
  }

  lemma IncreasingBlocks(sorted: seq<Anchor>)
    requires forall i, j | 0 <= i < j < |sorted| :: sorted[i].0 < sorted[j].0
    ensures Increasing(Blocks(sorted))
  {
    hide Blocks;
  }

  lemma BlocksAnswer(reply: Reply, sorted: seq<Anchor>, b: nat)
    requires reply.Headers? && forall h :: h in sorted <==> h in reply.headers
    ensures b in Blocks(sorted) <==> Answers(reply, b)
  {
    var blocks := Blocks(sorted);
    hide Blocks;
    if b in blocks {
      var i :| 0 <= i < |blocks| && blocks[i] == b;
      assert sorted[i] in reply.headers;
    }
    if Answers(reply, b) {
      var h :| h in reply.headers && h.0 == b;
      var i :| 0 <= i < |sorted| && sorted[i] == h;
      assert blocks[i] == b;
    }
  }

  lemma TrueHeader(reply: Reply, chain: Chain, h: Anchor)
    requires reply.Headers? && TrueReply(reply, chain) && h in reply.headers
    ensures h == (h.0, chain.time(h.0))
  {
  }

  lemma DirectTimes(rate: real, request: seq<nat>, reply: Reply, chain: Chain)
    requires request != [] && IsDirect(rate, request) && ExactReply(reply, request, chain)
    ensures Dates(rate, request, reply) == Ok(ReplyTimes(rate, request, chain))
  {
    hide IsDirect, DistinctNumbers;
    var dates, times := FromHeaders(reply.headers), ReplyTimes(rate, request, chain);
    forall b: nat ensures b in dates <==> b in times {
      assert Answers(reply, b) <==> b in request;
    }
    forall b | b in dates ensures dates[b] == times[b] {
      assert (b, dates[b]) in reply.headers;
    }
    assert dates == times;
  }

  lemma SampledTimes(rate: real, request: seq<nat>, reply: Reply, chain: Chain)
    requires request != [] && !IsDirect(rate, request) && Increasing(request)
    requires ExactReply(reply, request, chain) && PositiveTimes(request, chain)
    ensures Dates(rate, request, reply) == Ok(ReplyTimes(rate, request, chain))
  {
    OneIsDirect(rate, request);
    hide *;
    var anchors, first, last := AnchorsOf(request, chain), request[0], request[|request| - 1];
    SampledReply(rate, request, reply, chain);
    StampsMeaning(anchors, first, last);
    forall b | first <= b <= last ensures Stamp(anchors, b) == Some(Estimate(request, chain, b)) {
      EstimateIsStamp(request, chain, b);
    }
    var dates := StampsFrom(anchors, first, last).value;
    TimesAreEstimates(rate, request, chain, dates);
    forall b | b in request ensures b in dates {
      InRequestRange(request, b);
    }
    InterpolatedDates(rate, request, reply);
  }

  lemma TimesAreEstimates(rate: real, request: seq<nat>, chain: Chain, dates: map<nat, nat>)
    requires |request| >= 2 && !IsDirect(rate, request)
    requires forall b :: b in dates <==> request[0] <= b <= request[|request| - 1]
    requires forall b | b in dates :: dates[b] == Estimate(request, chain, b)
    ensures dates == ReplyTimes(rate, request, chain)
  {
    hide IsDirect, Estimate;
    var times := ReplyTimes(rate, request, chain);
    assert dates.Keys == times.Keys;
  }

  lemma SampledReply(rate: real, request: seq<nat>, reply: Reply, chain: Chain)
    requires request != [] && !IsDirect(rate, request) && Increasing(request) && ExactReply(reply, request, chain)
    ensures reply.Headers? && |request| >= 2
    ensures Interpolated(reply.headers) == StampsFrom(AnchorsOf(request, chain), request[0], request[|request| - 1])
  {
    hide *;
    OneIsDirect(rate, request);
    ExactAnswersAll(reply, request, chain);
    SortedHeaders(reply, request, chain);
    TwoHeaders(rate, request, reply);
    SortedAnchors(reply.headers, AnchorsOf(request, chain));
  }

  lemma SortedAnchors(headers: seq<Anchor>, anchors: seq<Anchor>)
    requires |headers| >= 2 && Sorting.Sort(ByBlock, headers) == anchors && |anchors| >= 2
    ensures Interpolated(headers) == StampsFrom(anchors, anchors[0].0, anchors[|anchors| - 1].0)
  {
    hide StampsFrom, Sorting.Sort;
  }

  lemma ExactAnswersAll(reply: Reply, request: seq<nat>, chain: Chain)
    requires ExactReply(reply, request, chain)
    ensures reply.Headers? && AnswersAll(reply, request)
  {
  }

  lemma InRequestRange(request: seq<nat>, b: nat)
    requires Increasing(request) && b in request
    ensures request[0] <= b <= request[|request| - 1]
  {
    var i :| 0 <= i < |request| && request[i] == b;
    assert i > 0 ==> request[0] < request[i];
    assert i < |request| - 1 ==> request[i] < request[|request| - 1];
  }

  lemma EstimateIsStamp(request: seq<nat>, chain: Chain, b: nat)
    requires |request| >= 2 && Increasing(request) && PositiveTimes(request, chain)
    requires request[0] <= b <= request[|request| - 1]
    ensures Stamp(AnchorsOf(request, chain), b) == Some(Estimate(request, chain, b))
  {
    StampBetween(AnchorsOf(request, chain), b);
    hide Stamp;
  }

  lemma ExactDates(rate: real, request: seq<nat>, reply: Reply, chain: Chain)
    requires request != [] && Increasing(request) && ExactReply(reply, request, chain)
    requires !IsDirect(rate, request) ==> PositiveTimes(request, chain)
    ensures Dates(rate, request, reply) == Ok(ReplyTimes(rate, request, chain))
    ensures forall b | b in request :: b in ReplyTimes(rate, request, chain)
  {
    hide *;
    if IsDirect(rate, request) {
      DirectTimes(rate, request, reply, chain);
    } else {
      SampledTimes(rate, request, reply, chain);
    }
    TimesCover(rate, request, chain);
  }

  lemma TimesCover(rate: real, request: seq<nat>, chain: Chain)
    requires request != [] && Increasing(request)
    ensures forall b | b in request :: b in ReplyTimes(rate, request, chain)
  {
    hide IsDirect, Estimate;
    forall b | b in request ensures b in ReplyTimes(rate, request, chain) {
      InRequestRange(request, b);
    }
  }

  // ----- one round

  lemma {:induction false} HavingSplit(logs: seq<StampedLog>)
    ensures multiset(Having(logs, false) + Having(logs, true)) == multiset(logs)
  {
    if logs != [] {
      var head, rest := logs[0], logs[1..];
      HavingSplit(rest);
      assert logs == [head] + rest;
      assert multiset(Having(logs, false)) + multiset(Having(logs, true)) ==
             multiset{head} + multiset(Having(rest, false)) + multiset(Having(rest, true));
    }
  }

  /** A reply that tells the time of every unstamped block ends the work, and all that it does is attach. */
  lemma RoundApplies(rate: real, logs: seq<StampedLog>, reply: Reply, dates: map<nat, nat>)
    requires Unstamped(logs) != [] && Dates(rate, Request(Unstamped(logs)), reply) == Ok(dates)
    requires forall b | b in Unstamped(logs) :: b in dates
    ensures Attach(rate, logs, [reply]).Done?
    ensures Sorting.Permutation(Attach(rate, logs, [reply]).logs, Apply(logs, dates))
  {
    hide Dates, Request, Unstamped, Attached, Attach, Having, Apply;
    RoundCases(rate, logs, [reply]);
    var logs' := Apply(logs, dates);
    var left := Having(logs', false);
    forall b: nat ensures b !in Unstamped(left) {
      LeftUnstamped(logs, dates, b);
    }
    AllAnswered(rate, left, [reply][1..]);
    NothingLeft(rate, left, [reply][1..]);
    HavingSplit(logs');
  }

  lemma NothingLeft(rate: real, left: seq<StampedLog>, replies: seq<Reply>)
    requires forall b :: b !in Unstamped(left)
    ensures Attach(rate, left, replies) == Done(left)
  {
    NothingUnstamped(left);
    HasFirst(Unstamped(left));
    NothingToDo(rate, left, replies);
  }

  /** One exact reply attaches exactly the times that it tells, to every log of those blocks. The times that
      logs came with survive if and only if they are confirmed: a reply that is read as it is touches only the
      blocks of unstamped logs, one that is read as a sample every block from the first of those to the last. */
  lemma {:induction false} ExactReplyTells(rate: real, logs: seq<StampedLog>, reply: Reply, chain: Chain)
    requires Unstamped(logs) != [] && ExactReply(reply, Request(Unstamped(logs)), chain)
    requires !IsDirect(rate, Request(Unstamped(logs))) ==> PositiveTimes(Request(Unstamped(logs)), chain)
    ensures var times := ReplyTimes(rate, Request(Unstamped(logs)), chain);
            && Attach(rate, logs, [reply]).Done?
            && Sorting.Permutation(Attach(rate, logs, [reply]).logs, Apply(logs, times))
            && (Survive(logs, Attach(rate, logs, [reply]).logs) <==> Confirmed(logs, times))
  {
    hide *;
    var request := Request(Unstamped(logs));
    ExactDates(rate, request, reply, chain);
    var times := ReplyTimes(rate, request, chain);
    RoundApplies(rate, logs, reply, times);
    ApplySurvives(logs, times, Attach(rate, logs, [reply]).logs);
  }

  // ----- the encoder

  /** The times that the encoder tells: the true ones of the blocks that its batch lookup answers. */
  ghost function EncoderTimes(encoder: Encoder, blocks: seq<nat>, chain: Chain): map<nat, nat> {
    map b | b in blocks && BatchAnswers(encoder.encoded, encoder.index, blocks, b) :: chain.time(b)
  }

  lemma EncoderTimesAre(encoder: Encoder, blocks: seq<nat>, chain: Chain)
    requires EncoderAgrees(encoder, chain)
    ensures BatchMap(encoder.encoded, encoder.index, blocks) == EncoderTimes(encoder, blocks, chain)
  {
    var dates, times := BatchMap(encoder.encoded, encoder.index, blocks), EncoderTimes(encoder, blocks, chain);
    hide Tracks, BatchMap, Lookup, BatchAnswers;
    forall b: nat ensures b in dates <==> b in times {
      AnswersAsked(encoder, blocks, b);
    }
    forall b | b in dates ensures dates[b] == times[b] {
      PolledLookup(encoder.encoded, chain, b);
    }
    assert dates == times;
  }

  lemma AnswersAsked(encoder: Encoder, blocks: seq<nat>, b: nat)
    ensures BatchAnswers(encoder.encoded, encoder.index, blocks, b) ==> b in blocks
  {
  }

  lemma Unchanged(logs: seq<StampedLog>)
    ensures Apply(logs, map[]) == logs && Sorting.Permutation(logs, logs)
  {
  }

  /** The encoder attaches the true times of the blocks that its batch lookup answers, which are all blocks of
      unstamped logs, and the times that logs came with survive if and only if they are confirmed there. */
  lemma {:induction false} GivenTimesSurviveEncoder(clock: Clock, encoder: Encoder, logs: seq<StampedLog>, chain: Chain)
    requires clock.encoder == Some(encoder) && EncoderAgrees(encoder, chain)
    ensures var times := EncoderTimes(encoder, Unstamped(logs), chain);
            && FromEncoder(clock, logs) == Apply(logs, times)
            && (Survive(logs, FromEncoder(clock, logs)) <==> Confirmed(logs, times))
  {
    EncoderTimesAre(encoder, Unstamped(logs), chain);
    assert FromEncoder(clock, logs) == Apply(logs, BatchMap(encoder.encoded, encoder.index, Unstamped(logs)));
    hide *;
    Unchanged(FromEncoder(clock, logs));
    ApplySurvives(logs, EncoderTimes(encoder, Unstamped(logs), chain), FromEncoder(clock, logs));
  }

  // ----- fixed-interval networks

  /** On a fixed-interval network the times that logs came with survive if and only if they are the formula's:
      beyond its last safe block none does. */
  lemma {:induction false} GivenTimesSurviveSpaced(logs: seq<StampedLog>, network: SpacedNetwork)
    requires AllNumbered(logs)
    ensures Survive(logs, SpacedAll(logs, network)) <==>
            forall x | x in logs && x.timestamp.Some? :: x.timestamp == network.GetBlockTime(x.log.blockNumber.value)
  {
    var all := SpacedAll(logs, network);
    forall x | x in logs && x.timestamp.Some?
      ensures x in all <==> x.timestamp == network.GetBlockTime(x.log.blockNumber.value)
    {
      var i :| 0 <= i < |logs| && logs[i] == x;
      assert all[i] == Spaced(x, network);
      if x in all {
        var k :| 0 <= k < |all| && all[k] == x;
        assert logs[k] in logs && all[k] == Spaced(logs[k], network);
      }
    }
  }

  // ----- the pipeline

  /** The times that the fixed interval tells for the blocks of these logs. */
  ghost function SpacedTimes(clock: Clock, logs: seq<StampedLog>): map<nat, nat> {
    if clock.spaced.None? then map[]
    else
      map x | x in logs && x.Numbered() && clock.spaced.value.GetBlockTime(x.log.blockNumber.value).Some? ::
        x.log.blockNumber.value := clock.spaced.value.GetBlockTime(x.log.blockNumber.value).value
  }

  ghost function FromEncoderTimes(clock: Clock, blocks: seq<nat>, chain: Chain): map<nat, nat> {
    if clock.encoder.None? then map[] else EncoderTimes(clock.encoder.value, blocks, chain)
  }

  ghost function FetchedTimes(rate: real, blocks: seq<nat>, chain: Chain): map<nat, nat> {
    if blocks == [] then map[] else ReplyTimes(rate, Request(blocks), chain)
  }

  /** The blocks that are fetched. */
  ghost function Fetched(clock: Clock, logs: seq<StampedLog>): seq<nat> {
    Unstamped(FromEncoder(clock, BeforeEncoder(clock, logs)))
  }

  /** All times that the stages tell; a later stage overrides an earlier one. */
  ghost function ClockTimes(clock: Clock, logs: seq<StampedLog>, chain: Chain): map<nat, nat> {
    SpacedTimes(clock, NormalisedAll(logs))
    + FromEncoderTimes(clock, Unstamped(BeforeEncoder(clock, logs)), chain)
    + FetchedTimes(clock.rate, Fetched(clock, logs), chain)
  }

  ghost predicate ExactReplies(clock: Clock, logs: seq<StampedLog>, reply: Reply, chain: Chain) {
    var blocks := Fetched(clock, logs);
    blocks != [] ==>
      && ExactReply(reply, Request(blocks), chain)
      && (!IsDirect(clock.rate, Request(blocks)) ==> PositiveTimes(Request(blocks), chain))
  }

  lemma EncoderApplies(clock: Clock, logs: seq<StampedLog>, chain: Chain)
    requires clock.encoder.Some? ==> EncoderAgrees(clock.encoder.value, chain)
    ensures FromEncoder(clock, logs) == Apply(logs, FromEncoderTimes(clock, Unstamped(logs), chain))
  {
    hide Apply, EncoderTimes, BatchMap, EncoderAgrees, Unstamped;
    if clock.encoder.Some? {
      EncoderTimesAre(clock.encoder.value, Unstamped(logs), chain);
    } else {
      Unchanged(logs);
    }
  }

  lemma ClockParts(clock: Clock, logs: seq<StampedLog>, replies: seq<Reply>)
    requires !AllStamped(logs) && (clock.spaced.Some? ==> AllNumbered(logs))
    ensures AttachLogTimestamps(clock, logs, replies) ==
            Finished(Attach(clock.rate, FromEncoder(clock, BeforeEncoder(clock, logs)), replies))
  {
    NormalisedKeeps(logs);
    hide NormalisedAll, SpacedAll, FromEncoder, Attach;
  }

  /** The times that the encoder's batch lookup tells, whatever it holds. */
  ghost function BatchTimes(clock: Clock, blocks: seq<nat>): map<nat, nat> {
    if clock.encoder.None? then map[] else BatchMap(clock.encoder.value.encoded, clock.encoder.value.index, blocks)
  }

  /** The times told for logs that came without one; a later stage overrides an earlier one, and within the
      replies the first answer stays. A batch that is stamped throughout is told nothing. */
  ghost function ToldMissing(clock: Clock, logs: seq<StampedLog>, replies: seq<Reply>): map<nat, nat> {
    if AllStamped(logs) then map[]
    else AllTimes(clock.rate, Fetched(clock, logs), replies) + ToldFirst(clock, logs, replies)
  }

  ghost function ToldFirst(clock: Clock, logs: seq<StampedLog>, replies: seq<Reply>): map<nat, nat> {
    SpacedTimes(clock, NormalisedAll(logs))
    + BatchTimes(clock, Unstamped(BeforeEncoder(clock, logs)))
    + FirstTimes(clock.rate, Fetched(clock, logs), replies)
  }

  /** The times told for logs that came with one: the network's, the encoder's and those of the first reply;
      on a fixed-interval network, which drops the times it does not know, those of all replies. */
  ghost function ToldGiven(clock: Clock, logs: seq<StampedLog>, replies: seq<Reply>): map<nat, nat> {
    if AllStamped(logs) then map[]
    else if clock.spaced.Some? then ToldMissing(clock, logs, replies)
    else ToldFirst(clock, logs, replies)
  }

  /** What the stages do to one log, taken together. */
  lemma StagesFill(clock: Clock, logs: seq<StampedLog>, i: nat, a: map<nat, nat>, first: map<nat, nat>,
                   all: map<nat, nat>)
    requires i < |logs| && (clock.spaced.Some? ==> AllNumbered(logs))
    requires forall b | b in first :: b in all && all[b] == first[b]
    requires var x := if clock.spaced.Some? then SpacedAll(logs, clock.spaced.value)[i] else logs[i];
             Attached(x, a).NeedsTime() ==> x.log.blockNumber.value in all
    ensures var x := if clock.spaced.Some? then SpacedAll(logs, clock.spaced.value)[i] else logs[i];
            var told := SpacedTimes(clock, logs) + a + first;
            Filled(Attached(x, a), first, all) ==
              Filled(logs[i], if clock.spaced.Some? then all + told else told, all + told)
  {
    assert logs[i] in logs;
    if clock.spaced.None? {
      assert map[] + a == a;
      UnspacedFill(logs[i], a, first, all);
    } else {
      var x, network := SpacedAll(logs, clock.spaced.value)[i], clock.spaced.value;
      var s, block := SpacedTimes(clock, logs), logs[i].log.blockNumber.value;
      assert x == Spaced(logs[i], network);
      assert network.GetBlockTime(block).Some? <==> block in s;
      assert block in s ==> s[block] == network.GetBlockTime(block).value;
      hide SpacedTimes, SpacedAll;
      SpacedFill(logs[i], x, s, a, first, all);
    }
  }

  lemma UnspacedFill(x: StampedLog, a: map<nat, nat>, first: map<nat, nat>, all: map<nat, nat>)
    requires forall b | b in first :: b in all && all[b] == first[b]
    ensures Filled(Attached(x, a), first, all) == Filled(x, a + first, all + (a + first))
  {
  }

  lemma SpacedFill(x: StampedLog, y: StampedLog, s: map<nat, nat>, a: map<nat, nat>, first: map<nat, nat>,
                   all: map<nat, nat>)
    requires forall b | b in first :: b in all && all[b] == first[b]
    requires x.Numbered() && y.log == x.log && Attached(y, a).NeedsTime() ==> x.log.blockNumber.value in all
    requires x.Numbered() && y.log == x.log
    requires y.timestamp == if x.log.blockNumber.value in s then Some(s[x.log.blockNumber.value]) else None
    ensures var told := s + a + first; Filled(Attached(y, a), first, all) == Filled(x, all + told, all + told)
  {
  }

  lemma NothingTold(clock: Clock, logs: seq<StampedLog>, replies: seq<Reply>)
    requires AllStamped(logs)
    ensures AttachLogTimestamps(clock, logs, replies) == Finished(Done(NormalisedAll(logs)))
    ensures ToldGiven(clock, logs, replies) == map[] == ToldMissing(clock, logs, replies)
  {
    NormalisedKeeps(logs);
  }

  /** Whatever the encoder holds and the replies are: when the pipeline ends, each log that came with a time has
      the one in `ToldGiven` if there is one, and each other log the one in `ToldMissing`. */
  lemma {:induction false} ClockFills(clock: Clock, logs: seq<StampedLog>, replies: seq<Reply>)
    requires var r := AttachLogTimestamps(clock, logs, replies); r.Finished? && r.outcome.Done?
    ensures Sorting.Permutation(AttachLogTimestamps(clock, logs, replies).outcome.logs,
                                FilledAll(NormalisedAll(logs), ToldGiven(clock, logs, replies),
                                          ToldMissing(clock, logs, replies)))
  {
    PanicsExactly(clock, logs, replies);
    hide *;
    var given := NormalisedAll(logs);
    if AllStamped(logs) {
      NothingTold(clock, logs, replies);
      NothingToFill(given);
      SamePermutation(given);
    } else {
      var encoded := FromEncoder(clock, BeforeEncoder(clock, logs));
      ClockParts(clock, logs, replies);
      AttachFills(clock.rate, encoded, replies);
      AllTold(clock.rate, encoded, replies);
      StagesCompose(clock, logs, replies);
    }
  }

  lemma StagesCompose(clock: Clock, logs: seq<StampedLog>, replies: seq<Reply>)
    requires !AllStamped(logs) && (clock.spaced.Some? ==> AllNumbered(logs))
    requires var blocks := Unstamped(FromEncoder(clock, BeforeEncoder(clock, logs)));
             forall b | b in blocks :: b in AllTimes(clock.rate, blocks, replies)
    ensures var encoded := FromEncoder(clock, BeforeEncoder(clock, logs));
            var blocks := Unstamped(encoded);
            FilledAll(encoded, FirstTimes(clock.rate, blocks, replies), AllTimes(clock.rate, blocks, replies)) ==
            FilledAll(NormalisedAll(logs), ToldGiven(clock, logs, replies), ToldMissing(clock, logs, replies))
  {
    var given, before := NormalisedAll(logs), BeforeEncoder(clock, logs);
    var encoded := FromEncoder(clock, before);
    var blocks := Unstamped(encoded);
    var a := BatchTimes(clock, Unstamped(before));
    hide *;
    StagesApply(clock, logs);
    ToldParts(clock, logs, replies);
    FirstStays(clock.rate, blocks, replies);
    FillsCompose(clock, given, before, encoded, a, FirstTimes(clock.rate, blocks, replies),
                 AllTimes(clock.rate, blocks, replies));
  }

  lemma StagesApply(clock: Clock, logs: seq<StampedLog>)
    requires clock.spaced.Some? ==> AllNumbered(logs)
    ensures clock.spaced.Some? ==> AllNumbered(NormalisedAll(logs))
    ensures BeforeEncoder(clock, logs) ==
            if clock.spaced.Some? then SpacedAll(NormalisedAll(logs), clock.spaced.value) else NormalisedAll(logs)
    ensures var before := BeforeEncoder(clock, logs);
            FromEncoder(clock, before) == Apply(before, BatchTimes(clock, Unstamped(before)))
  {
    NormalisedKeeps(logs);
    Unchanged(BeforeEncoder(clock, logs));
    hide NormalisedAll, SpacedAll, AllNumbered, Apply, Unstamped, BatchMap;
  }

  lemma ToldParts(clock: Clock, logs: seq<StampedLog>, replies: seq<Reply>)
    requires !AllStamped(logs)
    ensures var before := BeforeEncoder(clock, logs);
            var blocks := Unstamped(FromEncoder(clock, before));
            var all := AllTimes(clock.rate, blocks, replies);
            var told := SpacedTimes(clock, NormalisedAll(logs)) + BatchTimes(clock, Unstamped(before))
                        + FirstTimes(clock.rate, blocks, replies);
            && ToldMissing(clock, logs, replies) == all + told
            && ToldGiven(clock, logs, replies) == if clock.spaced.Some? then all + told else told
  {
    hide AllStamped, NormalisedAll, BeforeEncoder, FromEncoder, SpacedTimes, BatchTimes, FirstTimes, AllTimes,
      Unstamped;
  }

  lemma FillsCompose(clock: Clock, given: seq<StampedLog>, before: seq<StampedLog>, encoded: seq<StampedLog>,
                     a: map<nat, nat>, first: map<nat, nat>, all: map<nat, nat>)
    requires clock.spaced.Some? ==> AllNumbered(given)
    requires before == if clock.spaced.Some? then SpacedAll(given, clock.spaced.value) else given
    requires encoded == Apply(before, a) && forall b | b in Unstamped(encoded) :: b in all
    requires forall b | b in first :: b in all && all[b] == first[b]
    ensures var told := SpacedTimes(clock, given) + a + first;
            FilledAll(encoded, first, all) ==
            FilledAll(given, if clock.spaced.Some? then all + told else told, all + told)
  {
    var told := SpacedTimes(clock, given) + a + first;
    var r := FilledAll(given, if clock.spaced.Some? then all + told else told, all + told);
    hide SpacedTimes, Unstamped, Attached, SpacedAll, AllNumbered, Filled;
    forall i | 0 <= i < |given| ensures FilledAll(encoded, first, all)[i] == r[i] {
      assert encoded[i] == Attached(before[i], a) && encoded[i] in encoded;
      AttachedLog(before[i], a);
      StagesFill(clock, given, i, a, first, all);
    }
  }

  lemma AttachedLog(x: StampedLog, a: map<nat, nat>)
    ensures Attached(x, a).log == x.log
  {
  }

  /** For any configuration and any replies, when the pipeline ends, the times that logs came with survive if and
      only if the network's formula, the encoder and the first reply tell no others; on a fixed-interval network
      the later replies count too. */
  lemma {:induction false} GivenTimesSurviveClock(clock: Clock, logs: seq<StampedLog>, replies: seq<Reply>)
    requires var r := AttachLogTimestamps(clock, logs, replies); r.Finished? && r.outcome.Done?
    ensures var given, r := NormalisedAll(logs), AttachLogTimestamps(clock, logs, replies).outcome.logs;
            Survive(given, r) <==> Confirmed(given, ToldGiven(clock, logs, replies))
  {
    ClockFills(clock, logs, replies);
    GivenIsMissing(clock, logs, replies);
    hide *;
    FilledSurvives(NormalisedAll(logs), ToldGiven(clock, logs, replies), ToldMissing(clock, logs, replies),
                   AttachLogTimestamps(clock, logs, replies).outcome.logs);
  }

  lemma GivenIsMissing(clock: Clock, logs: seq<StampedLog>, replies: seq<Reply>)
    ensures var given, missing := ToldGiven(clock, logs, replies), ToldMissing(clock, logs, replies);
            forall b | b in given :: b in missing && missing[b] == given[b]
  {
    hide AllTimes, ToldFirst;
  }

  lemma FetchedParts(clock: Clock, logs: seq<StampedLog>, reply: Reply, chain: Chain)
    requires ExactReplies(clock, logs, reply, chain)
    ensures var blocks := Unstamped(FromEncoder(clock, BeforeEncoder(clock, logs)));
            && blocks == Fetched(clock, logs)
            && (blocks != [] ==>
                  && ExactReply(reply, Request(blocks), chain)
                  && (!IsDirect(clock.rate, Request(blocks)) ==> PositiveTimes(Request(blocks), chain)))
  {
    hide ExactReply, IsDirect, PositiveTimes, FromEncoder, BeforeEncoder;
  }

  lemma ExactTimes(rate: real, blocks: seq<nat>, reply: Reply, chain: Chain)
    requires blocks != [] ==>
               && ExactReply(reply, Request(blocks), chain)
               && (!IsDirect(rate, Request(blocks)) ==> PositiveTimes(Request(blocks), chain))
    ensures var times := FetchedTimes(rate, blocks, chain);
            FirstTimes(rate, blocks, [reply]) == times == AllTimes(rate, blocks, [reply])
  {
    AllTimesCons(rate, blocks, [reply]);
    FetchedAre(rate, blocks, chain);
    hide *;
    if blocks != [] {
      var times := ReplyTimes(rate, Request(blocks), chain);
      ExactDates(rate, Request(blocks), reply, chain);
      FirstOfReply(rate, blocks, reply, times);
      assert forall b :: b !in Without(blocks, times);
      HasFirst(Without(blocks, times));
      AllTimesCons(rate, [], [reply][1..]);
      assert map[] + times == times;
    }
  }

  lemma FetchedAre(rate: real, blocks: seq<nat>, chain: Chain)
    ensures FetchedTimes(rate, blocks, chain) ==
            if blocks == [] then map[] else ReplyTimes(rate, Request(blocks), chain)
  {
    hide ReplyTimes, Request;
  }

  lemma FirstOfReply(rate: real, blocks: seq<nat>, reply: Reply, times: map<nat, nat>)
    requires blocks != [] && Dates(rate, Request(blocks), reply) == Ok(times)
    ensures FirstTimes(rate, blocks, [reply]) == times
  {
    hide Dates, Request;
  }

  lemma ExactEnds(rate: real, logs: seq<StampedLog>, reply: Reply, chain: Chain)
    requires Unstamped(logs) != [] ==>
               && ExactReply(reply, Request(Unstamped(logs)), chain)
               && (!IsDirect(rate, Request(Unstamped(logs))) ==> PositiveTimes(Request(Unstamped(logs)), chain))
    ensures Attach(rate, logs, [reply]).Done?
  {
    hide *;
    if Unstamped(logs) == [] {
      NothingToDo(rate, logs, [reply]);
    } else {
      ExactReplyTells(rate, logs, reply, chain);
    }
  }

  /** When the encoder agrees with the chain and one exact reply comes, the whole pipeline attaches exactly the
      true or estimated times of `ClockTimes`, and the times that logs came with survive if and only if they are
      confirmed by those. */
  lemma {:induction false} ExactClockTells(clock: Clock, logs: seq<StampedLog>, reply: Reply, chain: Chain)
    requires !AllStamped(logs) && (clock.spaced.Some? ==> AllNumbered(logs))
    requires clock.encoder.Some? ==> EncoderAgrees(clock.encoder.value, chain)
    requires ExactReplies(clock, logs, reply, chain)
    ensures var r, given, times := AttachLogTimestamps(clock, logs, [reply]), NormalisedAll(logs),
            ClockTimes(clock, logs, chain);
            && r.Finished? && r.outcome.Done?
            && Sorting.Permutation(r.outcome.logs, Apply(given, times))
            && (Survive(given, r.outcome.logs) <==> Confirmed(given, times))
  {
    hide *;
    var given, times := NormalisedAll(logs), ClockTimes(clock, logs, chain);
    ClockParts(clock, logs, [reply]);
    FetchedParts(clock, logs, reply, chain);
    ExactEnds(clock.rate, FromEncoder(clock, BeforeEncoder(clock, logs)), reply, chain);
    ClockFills(clock, logs, [reply]);
    ExactTold(clock, logs, reply, chain);
    FilledIsApplied(given, ToldGiven(clock, logs, [reply]), ToldMissing(clock, logs, [reply]), times);
    ApplySurvives(given, times, AttachLogTimestamps(clock, logs, [reply]).outcome.logs);
  }

  lemma ExactTold(clock: Clock, logs: seq<StampedLog>, reply: Reply, chain: Chain)
    requires !AllStamped(logs)
    requires clock.encoder.Some? ==> EncoderAgrees(clock.encoder.value, chain)
    requires ExactReplies(clock, logs, reply, chain)
    ensures ToldGiven(clock, logs, [reply]) == ClockTimes(clock, logs, chain) == ToldMissing(clock, logs, [reply])
  {
    var blocks, asked := Fetched(clock, logs), Unstamped(BeforeEncoder(clock, logs));
    hide EncoderTimes, BatchMap, EncoderAgrees, SpacedTimes, NormalisedAll, FirstTimes, AllTimes, FetchedTimes, Fetched,
      BeforeEncoder, Unstamped, ExactReply, IsDirect, PositiveTimes, Request;
    if clock.encoder.Some? {
      EncoderTimesAre(clock.encoder.value, asked, chain);
    }
    assert BatchTimes(clock, asked) == FromEncoderTimes(clock, asked, chain);
    ExactTimes(clock.rate, blocks, reply, chain);
    var told, times := ToldFirst(clock, logs, [reply]), FetchedTimes(clock.rate, blocks, chain);
    assert told == ClockTimes(clock, logs, chain);
    assert times + told == told;
  }

  lemma FilledIsApplied(logs: seq<StampedLog>, given: map<nat, nat>, missing: map<nat, nat>, times: map<nat, nat>)
    requires given == times == missing
    ensures FilledAll(logs, given, missing) == Apply(logs, times)
  {
    hide FilledAll, Apply;
    forall i | 0 <= i < |logs| ensures FilledAll(logs, given, missing)[i] == Apply(logs, times)[i] {
    }
  }

  /** At the default rate, when all sources agree with the chain, the pipeline tells the true times of the
      blocks of unstamped logs and, on a fixed-interval network, of all logs' blocks; it tells no others. */
  lemma {:induction false} DefaultTimesExactly(clock: Clock, logs: seq<StampedLog>, chain: Chain, x: StampedLog)
    requires clock.rate == BoundedRate(None) && AgreesWith(clock, chain)
    requires clock.spaced.Some? ==> AllNumbered(logs)
    requires x in NormalisedAll(logs) && x.Numbered()
    ensures var b, times := x.log.blockNumber.value, ClockTimes(clock, logs, chain);
            && (b in times <==> clock.spaced.Some? || b in Unstamped(NormalisedAll(logs)))
            && (b in times ==> times[b] == chain.time(b))
  {
    var given, before, b := NormalisedAll(logs), BeforeEncoder(clock, logs), x.log.blockNumber.value;
    NormalisedKeeps(logs);
    assert before == if clock.spaced.Some? then SpacedAll(given, clock.spaced.value) else given;
    if clock.spaced.Some? {
      SpacedOrUnstamped(given, clock.spaced.value, x);
    }
    hide SpacedAll, NormalisedAll, BeforeEncoder, FromEncoder, Unstamped, FetchedTimes, EncoderAgrees;
    assert clock.encoder.Some? ==> EncoderAgrees(clock.encoder.value, chain);
    EncoderApplies(clock, before, chain);
    EncoderTimesParts(clock, Unstamped(before), chain, b);
    ApplyUnstamped(before, FromEncoderTimes(clock, Unstamped(before), chain), b);
    DefaultFetches(Fetched(clock, logs), chain, b);
  }

  lemma SpacedOrUnstamped(logs: seq<StampedLog>, network: SpacedNetwork, x: StampedLog)
    requires AllNumbered(logs) && x in logs
    ensures var b := x.log.blockNumber.value; network.GetBlockTime(b).None? ==> b in Unstamped(SpacedAll(logs, network))
  {
    var i :| 0 <= i < |logs| && logs[i] == x;
    var y := SpacedAll(logs, network)[i];
    assert y == Spaced(x, network) && y in SpacedAll(logs, network);
  }

  lemma EncoderTimesParts(clock: Clock, blocks: seq<nat>, chain: Chain, b: nat)
    ensures var times := FromEncoderTimes(clock, blocks, chain);
            b in times ==> b in blocks && times[b] == chain.time(b)
  {
    hide BatchAnswers;
  }

  lemma DefaultFetches(blocks: seq<nat>, chain: Chain, b: nat)
    ensures var times := FetchedTimes(BoundedRate(None), blocks, chain);
            (b in times <==> b in blocks) && (b in times ==> times[b] == chain.time(b))
  {
    if blocks != [] {
      DefaultIsDirect(Request(blocks));
      hide IsDirect, Request, BoundedRate;
    }
  }

  // ----- what comes out for one log

  lemma FilledComesOut(logs: seq<StampedLog>, given: map<nat, nat>, missing: map<nat, nat>, result: seq<StampedLog>,
                       i: nat)
    requires Sorting.Permutation(result, FilledAll(logs, given, missing)) && i < |logs|
    ensures Filled(logs[i], given, missing) in result
  {
    var all := FilledAll(logs, given, missing);
    Sorting.SameSize(result, all);
    assert all[i] in all;
    hide FilledAll;
  }

  /** Whatever the configuration, a log that came with a time, and that no stage tells one for, comes out with its
      time in seconds. */
  lemma {:induction false} UntoldTimesAreSeconds(clock: Clock, logs: seq<StampedLog>, replies: seq<Reply>,
                                                 x: StampedLog)
    requires var r := AttachLogTimestamps(clock, logs, replies); r.Finished? && r.outcome.Done?
    requires x in logs && x.timestamp.Some? && !x.IsIn(ToldGiven(clock, logs, replies))
    ensures exists y | y in AttachLogTimestamps(clock, logs, replies).outcome.logs ::
              y.log == x.log && y.timestamp.Some? && SecondsOf(x.timestamp.value, y.timestamp.value)
  {
    var given, told := NormalisedAll(logs), ToldGiven(clock, logs, replies);
    var i :| 0 <= i < |logs| && logs[i] == x;
    NormalisedMeaning(x);
    assert given[i] == Normalised(x);
    hide Normalised, NormalisedAll, ToldGiven, ToldMissing, AttachLogTimestamps, SecondsOf, FilledAll,
      Sorting.Permutation;
    ClockFills(clock, logs, replies);
    FilledComesOut(given, told, ToldMissing(clock, logs, replies),
                   AttachLogTimestamps(clock, logs, replies).outcome.logs, i);
    assert Filled(given[i], told, ToldMissing(clock, logs, replies)) == given[i];
  }

  /** On a fixed-interval network a log of a safe block, that neither the encoder nor the first reply tells a time
      for, comes out with the genesis time and the spacing times its block, in every batch that is not stamped
      throughout. */
  lemma {:induction false} SafeBlocksTick(clock: Clock, logs: seq<StampedLog>, replies: seq<Reply>, x: StampedLog)
    requires var r := AttachLogTimestamps(clock, logs, replies); r.Finished? && r.outcome.Done?
    requires clock.spaced.Some? && clock.spaced.value.spacing.Some? && !AllStamped(logs)
    requires x in logs && x.Numbered() && x.log.blockNumber.value <= clock.spaced.value.MaxSafeBlock()
    requires x.log.blockNumber.value !in BatchTimes(clock, Unstamped(BeforeEncoder(clock, logs)))
    requires x.log.blockNumber.value !in FirstTimes(clock.rate, Fetched(clock, logs), replies)
    ensures var network := clock.spaced.value;
            exists y | y in AttachLogTimestamps(clock, logs, replies).outcome.logs ::
              y.log == x.log && y.timestamp == Some(TickTime(network, x.log.blockNumber.value))
  {
    var given, network, b := NormalisedAll(logs), clock.spaced.value, x.log.blockNumber.value;
    var i :| 0 <= i < |logs| && logs[i] == x;
    NormalisedMeaning(x);
    assert given[i] == Normalised(x) && given[i] in given;
    SpacedTold(clock, given, given[i]);
    hide Normalised, NormalisedAll, AttachLogTimestamps, FilledAll, Sorting.Permutation, SpacedTimes, BatchTimes,
      FirstTimes,
      AllTimes, Fetched, Unstamped, BeforeEncoder, AllStamped;
    ClockFills(clock, logs, replies);
    var told, missing := ToldGiven(clock, logs, replies), ToldMissing(clock, logs, replies);
    FilledComesOut(given, told, missing, AttachLogTimestamps(clock, logs, replies).outcome.logs, i);
    assert b in missing && missing[b] == SpacedTimes(clock, given)[b] && told == missing;
  }

  lemma SpacedTold(clock: Clock, given: seq<StampedLog>, x: StampedLog)
    requires clock.spaced.Some? && clock.spaced.value.spacing.Some? && x in given && x.Numbered()
    requires x.log.blockNumber.value <= clock.spaced.value.MaxSafeBlock()
    ensures var network, b := clock.spaced.value, x.log.blockNumber.value;
            b in SpacedTimes(clock, given) &&
            SpacedTimes(clock, given)[b] == TickTime(network, b)
  {
  }

  // ----- one input for each stage

  lemma NotConfirmed(logs: seq<StampedLog>, x: StampedLog, dates: map<nat, nat>)
    requires x in logs && x.timestamp.Some? && x.IsIn(dates) && x.timestamp.value != dates[x.log.blockNumber.value]
    ensures !Confirmed(logs, dates)
  {
  }

  /** At the default rate the time 1 of a log at block 5 is lost to the header's 100, because another log of
      that block has no time. */
  lemma {:induction false} ReplyReplaces(u: LogQuery.Log, l: LogQuery.Log)
    requires u.blockNumber == Some(5) && l.blockNumber == Some(5)
    ensures var logs, reply := [StampedLog(u, None), StampedLog(l, Some(1))], Headers([(5, 100)]);
            var r := Attach(BoundedRate(None), logs, [reply]); r.Done? && !Survive(logs, r.logs)
  {
    var logs, reply := [StampedLog(u, None), StampedLog(l, Some(1))], Headers([(5, 100)]);
    var rate, chain := BoundedRate(None), Chain(_ => 100);
    UnstampedTwo(logs[0], logs[1]);
    OneBlock(5);
    DefaultIsDirect([5]);
    assert (5, 100) in reply.headers;
    assert ExactReply(reply, [5], chain);
    hide *;
    ExactReplyTells(rate, logs, reply, chain);
    DirectTimesAre(rate, [5], chain, 5);
    assert logs[1] in logs && chain.time(5) == 100;
    NotConfirmed(logs, logs[1], ReplyTimes(rate, [5], chain));
  }

  /** At the default rate a header of a block that was not asked for replaces the time 1 of a log there,
      although no log of that block lacks a time. */
  lemma {:induction false} ExtraHeaderReplaces(u: LogQuery.Log, l: LogQuery.Log)
    requires u.blockNumber == Some(5) && l.blockNumber == Some(7)
    ensures var logs, reply := [StampedLog(u, None), StampedLog(l, Some(1))], Headers([(5, 100), (7, 200)]);
            var r := Attach(BoundedRate(None), logs, [reply]); r.Done? && !Survive(logs, r.logs)
  {
    var logs, reply := [StampedLog(u, None), StampedLog(l, Some(1))], Headers([(5, 100), (7, 200)]);
    UnstampedTwo(logs[0], logs[1]);
    assert reply.headers[0] == (5, 100) && reply.headers[1] == (7, 200);
    assert logs[1] in logs && Answers(reply, 5) && Answers(reply, 7);
    hide *;
    DirectFirst(logs, reply, 5);
    NotConfirmed(logs, logs[1], FirstTimes(BoundedRate(None), [5], [reply]));
  }

  lemma DirectFirst(logs: seq<StampedLog>, reply: Reply, b: nat)
    requires Unstamped(logs) == [b] && reply == Headers([(5, 100), (7, 200)]) && Answers(reply, b)
    ensures var r, times := Attach(BoundedRate(None), logs, [reply]), FirstTimes(BoundedRate(None), [b], [reply]);
            && r.Done? && 7 in times && times[7] == 200
            && (Survive(logs, r.logs) <==> Confirmed(logs, times))
  {
    var rate := BoundedRate(None);
    OneBlock(b);
    DefaultIsDirect([b]);
    assert Dates(rate, [b], reply) == Ok(FromHeaders(reply.headers));
    assert reply.headers[1] == (7, 200);
    hide Attach, IsDirect, FromHeaders, Request, Unstamped, BoundedRate;
    RoundApplies(rate, logs, reply, FromHeaders(reply.headers));
    GivenTimesSurviveReply(rate, logs, [reply]);
    FirstTimesMeaning(rate, [b], [reply]);
  }

  /** A first reply without block 5 leaves the time 1 of a log there alone, whatever later replies say. */
  lemma {:induction false} LaterReplyKeeps(u: LogQuery.Log, l: LogQuery.Log, w: LogQuery.Log, replies: seq<Reply>)
    requires u.blockNumber == Some(5) && l.blockNumber == Some(5) && w.blockNumber == Some(6)
    requires replies != [] && replies[0] == Headers([(6, 60)])
    requires var logs := [StampedLog(u, None), StampedLog(w, None), StampedLog(l, Some(1))];
             Attach(BoundedRate(None), logs, replies).Done?
    ensures var logs := [StampedLog(u, None), StampedLog(w, None), StampedLog(l, Some(1))];
            Survive(logs, Attach(BoundedRate(None), logs, replies).logs)
  {
    var rate, logs := BoundedRate(None), [StampedLog(u, None), StampedLog(w, None), StampedLog(l, Some(1))];
    var blocks := Unstamped(logs);
    assert logs[0] in logs && logs[0].NeedsTime() && 5 in blocks;
    GivenTimesSurviveReply(rate, logs, replies);
    DefaultIsDirect(Request(blocks));
    var times := FirstTimes(rate, blocks, replies);
    assert forall b :: b in times ==> b == 6 by {
      hide IsDirect, Request, BoundedRate, Unstamped, Attach;
      if Dates(rate, Request(blocks), replies[0]).Ok? {
        FirstTimesMeaning(rate, blocks, replies);
      }
    }
    hide IsDirect, Request, BoundedRate, Unstamped, Attach, FirstTimes;
  }

  lemma DirectTimesAre(rate: real, request: seq<nat>, chain: Chain, b: nat)
    requires request != [] && IsDirect(rate, request) && b in request
    ensures b in ReplyTimes(rate, request, chain) && ReplyTimes(rate, request, chain)[b] == chain.time(b)
  {
    hide IsDirect;
  }

  lemma UnstampedTwo(x: StampedLog, y: StampedLog)
    requires x.NeedsTime() && !y.NeedsTime()
    ensures Unstamped([x, y]) == [x.log.blockNumber.value]
  {
    assert [x, y][1..] == [y] && [y][1..] == [];
    assert Unstamped([]) == [] && Unstamped([y]) == Unstamped([y][1..]);
    assert Unstamped([x, y]) == [x.log.blockNumber.value] + Unstamped([x, y][1..]);
  }

  lemma OneBlock(b: nat)
    ensures Request([b]) == [b]
  {
    IncreasingUnique(Request([b]), [b]);
  }

  /** An encoder that knows blocks 0 to 2 replaces the time 1 of a log at block 1 by its own 110. */
  lemma {:induction false} EncoderReplaces(u: LogQuery.Log, l: LogQuery.Log)
    requires u.blockNumber == Some(1) && l.blockNumber == Some(1)
    ensures var e := EncodedDeltas(1, Some(100), 2, Some(120), [DeltaRunLen(2, 10)]);
            var logs := [StampedLog(u, None), StampedLog(l, Some(1))];
            FromEncoder(Clock(1.0, None, Some(Encoder(e, map[]))), logs) ==
              [StampedLog(u, Some(110)), StampedLog(l, Some(110))]
  {
    var e := EncodedDeltas(1, Some(100), 2, Some(120), [DeltaRunLen(2, 10)]);
    var logs := [StampedLog(u, None), StampedLog(l, Some(1))];
    UnstampedTwo(logs[0], logs[1]);
    assert e.runs[..0] == [] && Span(e.runs) == 2;
    SpanIsLength(e.runs);
    assert Largest([1], 2) == Some(1);
    LookupInRun(e, 0, 1, 0, 100);
    var dates := BatchMap(e, map[], [1]);
    hide Deltas, Span, Lookup;
    assert 1 in dates && dates[1] == 110;
    assert Apply(logs, dates) == [Attached(logs[0], dates), Attached(logs[1], dates)];
  }

  /** On Base with a spacing of two seconds the time 1 of a log at block 1 is replaced, and beyond the last
      safe block it is dropped. */
  lemma {:induction false} SpacedReplaces(l: LogQuery.Log, far: LogQuery.Log)
    requires l.blockNumber == Some(1) && far.blockNumber == Some(32853625)
    ensures SpacedAll([StampedLog(l, Some(1)), StampedLog(far, Some(1))], Base(Some(2))) ==
            [StampedLog(l, Some(1686789349)), StampedLog(far, None)]
  {
    var logs := [StampedLog(l, Some(1)), StampedLog(far, Some(1))];
    assert AllNumbered(logs);
    var all := SpacedAll(logs, Base(Some(2)));
    assert all[0] == Spaced(logs[0], Base(Some(2))) && all[1] == Spaced(logs[1], Base(Some(2)));
  }

  /** With a sampled reply the time 1 of a log at block 15 is replaced by the estimate 115, although no log of
      that block was asked for. */
  lemma {:induction false} SampleReplaces(u: LogQuery.Log, v: LogQuery.Log, w: LogQuery.Log, l: LogQuery.Log)
    requires u.blockNumber == Some(0) && v.blockNumber == Some(30) && w.blockNumber == Some(60) &&
             l.blockNumber == Some(15)
    ensures var logs := [StampedLog(u, None), StampedLog(v, None), StampedLog(w, None), StampedLog(l, Some(1))];
            var r := Attach(0.001, logs, [Headers([(0, 100), (30, 130), (60, 160)])]); r.Done? && !Survive(logs, r.logs)
  {
    var logs := [StampedLog(u, None), StampedLog(v, None), StampedLog(w, None), StampedLog(l, Some(1))];
    var reply, request, chain := Headers([(0, 100), (30, 130), (60, 160)]), [0, 30, 60], Chain(b => 100 + b);
    UnstampedThree(logs);
    IncreasingUnique(Request([0, 30, 60]), request);
    ThreeHeaders(reply, request, chain);
    SparseIsSampled();
    assert PositiveTimes(request, chain);
    assert logs[3] in logs;
    HalfWay(chain);
    hide *;
    ExactReplyTells(0.001, logs, reply, chain);
    NotConfirmed(logs, logs[3], ReplyTimes(0.001, request, chain));
  }

  lemma HalfWay(chain: Chain)
    requires chain.time(0) == 100 && chain.time(30) == 130 && chain.time(60) == 160
    ensures var times := ReplyTimes(0.001, [0, 30, 60], chain); 15 in times && times[15] == 115
  {
    SparseIsSampled();
    hide IsDirect, Estimate;
    EstimateIsOnLine([0, 30, 60], chain, 15, 0);
    assert Line((0, 100), (30, 130), 15).Floor == 115;
  }

  lemma UnstampedThree(logs: seq<StampedLog>)
    requires |logs| == 4 && logs[0].NeedsTime() && logs[1].NeedsTime() && logs[2].NeedsTime() && !logs[3].NeedsTime()
    ensures Unstamped(logs) ==
            [logs[0].log.blockNumber.value, logs[1].log.blockNumber.value, logs[2].log.blockNumber.value]
  {
    assert logs[1..][1..] == [logs[2], logs[3]];
    UnstampedTwo(logs[2], logs[3]);
    assert Unstamped(logs[1..]) == [logs[1].log.blockNumber.value] + Unstamped(logs[1..][1..]);
  }

  lemma ThreeHeaders(reply: Reply, request: seq<nat>, chain: Chain)
    requires reply == Headers([(0, 100), (30, 130), (60, 160)]) && request == [0, 30, 60]
    requires chain.time(0) == 100 && chain.time(30) == 130 && chain.time(60) == 160
    ensures ExactReply(reply, request, chain)
  {
    var h := reply.headers;
    assert h[0] == (0, 100) && h[1] == (30, 130) && h[2] == (60, 160);
    forall b: nat ensures Answers(reply, b) <==> b in request {
      if b in request {
        assert h[if b == 0 then 0 else if b == 30 then 1 else 2] in h;
      }
    }
  }

  /** Three blocks spread over a range of 61 are more than the sample of two. */
  lemma SparseIsSampled()
    ensures !IsDirect(0.001, [0, 30, 60])
  {
    assert SampleCount(0.001, 61) == 2;
    SteppedSpacing(0.001, 0, 60);
    hide Samples;
  }
}
