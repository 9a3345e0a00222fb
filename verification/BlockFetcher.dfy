/** Fetching block headers for unstamped logs, as far as the provider answers. */
module BlockFetcher {
  import opened Basics
  import opened Options
  import opened BlockLists
  import opened EncodingLaws
  import opened Interpolation
  import opened LogStamping
  import opened Sampling
  import Sorting

  /** A request for blocks fails or is answered with headers: block numbers and times. */
  datatype Reply = NoReply | Headers(headers: seq<Anchor>)

  datatype FetchError = ProviderError | MissingBlockInRange(block: nat) | TimestampNotPositive

  /** Attaching times ends with logs or an error, or waits for the answer to its next request. */
  datatype Outcome = Done(logs: seq<StampedLog>) | Failed(error: FetchError) | Waiting(request: seq<nat>)

  /** The header times by block; the last header of a block wins. */
  function FromHeaders(headers: seq<Anchor>): (r: map<nat, nat>)
    ensures forall b :: b in r <==> exists h | h in headers :: h.0 == b
    ensures forall b | b in r :: (b, r[b]) in headers
  {
    if headers == [] then map[]
    else
      var init, last := headers[..|headers| - 1], headers[|headers| - 1];
      assert headers == init + [last];
      FromHeaders(init)[last.0 := last.1]
  }

  /** Of several headers of one block the last one counts. */
  lemma {:induction false} LastHeaderCounts(headers: seq<Anchor>, i: nat)
    requires i < |headers| && forall j | i < j < |headers| :: headers[j].0 != headers[i].0
    ensures headers[i].0 in FromHeaders(headers) && FromHeaders(headers)[headers[i].0] == headers[i].1
  {
    var init, last := headers[..|headers| - 1], headers[|headers| - 1];
    assert FromHeaders(headers) == FromHeaders(init)[last.0 := last.1];
    if i < |init| {
      LastHeaderCounts(init, i);
    }
  }

  function FirstMissing(blocks: seq<nat>, dates: map<nat, nat>): (r: Option<nat>)
    ensures r.None? <==> forall b | b in blocks :: b in dates
    ensures r.Some? ==> r.value in blocks && r.value !in dates
  {
    if blocks == [] then None
    else if blocks[0] !in dates then Some(blocks[0])
    else FirstMissing(blocks[1..], dates)
  }

  /** The headers are used as they are: the request is not larger than the sample of its range. */
  predicate IsDirect(rate: real, request: seq<nat>)
    requires request != []
  {
    |request| <= |Samples(rate, request[0], request[|request| - 1])|
  }

  /** What a reply to the sorted request tells. The sample only decides how the reply is read: every
      requested block is asked for in either case. */
  function Dates(rate: real, request: seq<nat>, reply: Reply): Result<map<nat, nat>, FetchError>
    requires request != []
  {
    if reply.NoReply? then Err(ProviderError)
    else if IsDirect(rate, request) then Ok(FromHeaders(reply.headers))
    else
      var dates := Interpolated(reply.headers);
      if dates.None? then Err(TimestampNotPositive)
      else
        var missing := FirstMissing(request, dates.value);
        if missing.Some? then Err(MissingBlockInRange(missing.value)) else Ok(dates.value)
  }

  function Request(blocks: seq<nat>): (r: seq<nat>)
    ensures Increasing(r)
    ensures forall b :: b in r <==> b in blocks
    ensures r == [] <==> blocks == []
  {
    SortDedupMeaning(blocks);
    assert blocks != [] ==> blocks[0] in SortDedup(blocks);
    assert SortDedup(blocks) != [] ==> SortDedup(blocks)[0] in blocks;
    SortDedup(blocks)
  }

  method GetBlocks(rate: real, blocks: seq<nat>, provider: seq<nat> -> Reply)
    returns (r: Result<map<nat, nat>, FetchError>)
    requires blocks != []
    ensures r == Dates(rate, Request(blocks), provider(Request(blocks)))
  {
    hide Interpolated, Samples, Request, FirstMissing, FromHeaders;
    var request := Request(blocks);
    var sampling := BlockRangeSamples(rate, request[0], request[|request| - 1]);
    var reply := provider(request);
    if |request| <= |sampling| {
      return if reply.NoReply? then Err(ProviderError) else Ok(FromHeaders(reply.headers));
    }
    if reply.NoReply? {
      return Err(ProviderError);
    }
    var dates := Interpolate(reply.headers);
    if dates.None? {
      return Err(TimestampNotPositive);
    }
    var missing := FindMissing(request, dates.value);
    return if missing.Some? then Err(MissingBlockInRange(missing.value)) else Ok(dates.value);
  }

  method FindMissing(blocks: seq<nat>, dates: map<nat, nat>) returns (r: Option<nat>)
    ensures r == FirstMissing(blocks, dates)
  {
    for i := 0 to |blocks|
      invariant FirstMissing(blocks, dates) == FirstMissing(blocks[i..], dates)
    {
      if blocks[i] !in dates {
        return Some(blocks[i]);
      }
    }
    return None;
  }

  /** Asks for the unstamped blocks, attaches what the reply tells and goes on with the logs still unstamped. */
  function Attach(rate: real, logs: seq<StampedLog>, replies: seq<Reply>): Outcome
    decreases |replies|
  {
    var request := Request(Unstamped(logs));
    if request == [] then Done(logs)
    else if replies == [] then Waiting(request)
    else
      var dates := Dates(rate, request, replies[0]);
      if dates.Err? then Failed(dates.error)
      else
        var logs' := Apply(logs, dates.value);
        var stamped, left := Having(logs', true), Having(logs', false);
        if left == [] then Done(stamped)
        else
          var completed := Attach(rate, left, replies[1..]);
          if completed.Done? then Done(completed.logs + stamped) else completed
  }

  // ----- when a request fails

  /** Block `b` is not dated, and all asked for before it are. */
  ghost predicate FirstUndated(request: seq<nat>, dates: map<nat, nat>, b: nat) {
    exists i | 0 <= i < |request| :: request[i] == b && b !in dates && forall j | 0 <= j < i :: request[j] in dates
  }

  lemma {:induction false} FirstMissingIs(blocks: seq<nat>, dates: map<nat, nat>)
    ensures FirstMissing(blocks, dates).Some? ==> FirstUndated(blocks, dates, FirstMissing(blocks, dates).value)
  {
    if blocks != [] && blocks[0] in dates {
      var rest := blocks[1..];
      FirstMissingIs(rest, dates);
      if FirstMissing(rest, dates).Some? {
        var b := FirstMissing(rest, dates).value;
        var i :| 0 <= i < |rest| && rest[i] == b && b !in dates && forall j | 0 <= j < i :: rest[j] in dates;
        assert blocks[i + 1] == b;
        forall j | 0 <= j < i + 1 ensures blocks[j] in dates {
          if j > 0 {
            assert blocks[j] == rest[j - 1];
          }
        }
      }
    }
  }

  /** A round fails without a reply; a reply that is read as it is never fails it; one that is read as a sample
      does if the interpolation does, and otherwise on the first requested block that it leaves out. */
  lemma {:induction false} RoundFailsExactly(rate: real, request: seq<nat>, reply: Reply)
    requires request != []
    ensures var r := Dates(rate, request, reply);
            && (r == Err(ProviderError) <==> reply.NoReply?)
            && (reply.Headers? && IsDirect(rate, request) ==> r.Ok?)
            && (r == Err(TimestampNotPositive) <==>
                reply.Headers? && !IsDirect(rate, request) && Interpolated(reply.headers).None?)
            && (r.Err? && r.error.MissingBlockInRange? ==>
                  && reply.Headers? && !IsDirect(rate, request) && Interpolated(reply.headers).Some?
                  && FirstUndated(request, Interpolated(reply.headers).value, r.error.block))
  {
    if reply.Headers? && Interpolated(reply.headers).Some? {
      FirstMissingIs(request, Interpolated(reply.headers).value);
    }
    hide IsDirect, Interpolated, FirstMissing, FirstUndated;
  }

  // ----- one round

  lemma RoundCases(rate: real, logs: seq<StampedLog>, replies: seq<Reply>)
    requires Unstamped(logs) != [] && replies != []
    ensures var dates := Dates(rate, Request(Unstamped(logs)), replies[0]);
            if dates.Err? then Attach(rate, logs, replies) == Failed(dates.error)
            else
              var logs' := Apply(logs, dates.value);
              var stamped, left := Having(logs', true), Having(logs', false);
              var completed := Attach(rate, left, replies[1..]);
              Attach(rate, logs, replies) == if completed.Done? then Done(completed.logs + stamped) else completed
  {
    hide Dates, Request, Unstamped, Apply, Having;
    var dates := Dates(rate, Request(Unstamped(logs)), replies[0]);
    if dates.Ok? {
      var logs' := Apply(logs, dates.value);
      var stamped, left := Having(logs', true), Having(logs', false);
      if left == [] {
        assert Unstamped(left) == [] by { NothingUnstamped(left); }
        assert Attach(rate, left, replies[1..]) == Done(left);
        assert left + stamped == stamped;
      }
    }
  }

  lemma LeftUnstamped(logs: seq<StampedLog>, dates: map<nat, nat>, b: nat)
    ensures b in Unstamped(Having(Apply(logs, dates), false)) <==> b in Unstamped(logs) && b !in dates
  {
    hide *;
    ApplyUnstamped(logs, dates, b);
    HavingUnstamped(Apply(logs, dates), b);
  }

  // ----- no log is lost

  /** Whatever the provider answers: the logs that come out are the logs that went in, and each one whose
      block is known has a time. */
  lemma {:induction false} AttachConserves(rate: real, logs: seq<StampedLog>, replies: seq<Reply>)
    requires Attach(rate, logs, replies).Done?
    ensures SameLogs(Attach(rate, logs, replies).logs, logs) && Complete(Attach(rate, logs, replies).logs)
    decreases |replies|
  {
    hide *;
    NothingUnstamped(logs);
    if Unstamped(logs) == [] {
      NothingToDo(rate, logs, replies);
    } else {
      NeverIdle(rate, logs, replies);
      RoundCases(rate, logs, replies);
      var logs' := Apply(logs, Dates(rate, Request(Unstamped(logs)), replies[0]).value);
      AttachConserves(rate, Having(logs', false), replies[1..]);
      ApplyKeepsLogs(logs, Dates(rate, Request(Unstamped(logs)), replies[0]).value);
      RejoinConserves(logs', Attach(rate, Having(logs', false), replies[1..]).logs);
      SameContents(logs, logs', Attach(rate, logs, replies).logs);
    }
  }

  lemma NothingToDo(rate: real, logs: seq<StampedLog>, replies: seq<Reply>)
    requires Unstamped(logs) == []
    ensures Attach(rate, logs, replies) == Done(logs) && SameLogs(logs, logs)
  {
  }

  lemma NeverIdle(rate: real, logs: seq<StampedLog>, replies: seq<Reply>)
    requires Unstamped(logs) != [] && !Attach(rate, logs, replies).Waiting?
    ensures replies != []
  {
  }

  lemma SameContents(a: seq<StampedLog>, b: seq<StampedLog>, r: seq<StampedLog>)
    requires Contents(b) == Contents(a) && SameLogs(r, b)
    ensures SameLogs(r, a)
  {
  }

  lemma RejoinConserves(logs: seq<StampedLog>, completed: seq<StampedLog>)
    requires SameLogs(completed, Having(logs, false)) && Complete(completed)
    ensures SameLogs(completed + Having(logs, true), logs) && Complete(completed + Having(logs, true))
  {
    var stamped := Having(logs, true);
    ContentsSplit(logs);
    ContentsConcat(completed, stamped);
    hide Contents, Having;
    assert multiset(Contents(completed + stamped)) == multiset(Contents(completed)) + multiset(Contents(stamped));
  }

  // ----- waiting and progress

  /** Some header of the reply is for block `b`. */
  ghost predicate Answers(reply: Reply, b: nat) {
    reply.Headers? && exists h | h in reply.headers :: h.0 == b
  }

  lemma DatesCover(rate: real, request: seq<nat>, reply: Reply)
    requires request != [] && Dates(rate, request, reply).Ok?
    ensures var dates := Dates(rate, request, reply).value;
            if IsDirect(rate, request) then forall b :: b in dates <==> Answers(reply, b)
            else forall b | b in request :: b in dates
  {
    hide IsDirect, Interpolated;
  }

  /** At every rate, the blocks asked for next are exactly the unstamped ones that no reply has answered:
      sampling never shrinks a request. */
  lemma {:induction false} RequestIsExact(rate: real, logs: seq<StampedLog>, replies: seq<Reply>, b: nat)
    requires Attach(rate, logs, replies).Waiting?
    ensures b in Attach(rate, logs, replies).request <==>
            b in Unstamped(logs) && forall reply | reply in replies :: !Answers(reply, b)
    ensures Increasing(Attach(rate, logs, replies).request)
    decreases |replies|
  {
    if replies == [] {
      assert Attach(rate, logs, replies).request == Request(Unstamped(logs));
    } else {
      WaitingNeedsBlocks(rate, logs, replies);
      var request := Request(Unstamped(logs));
      var dates := Dates(rate, request, replies[0]);
      hide *;
      RoundCases(rate, logs, replies);
      DatesCover(rate, request, replies[0]);
      LeftUnstamped(logs, dates.value, b);
      var left := Having(Apply(logs, dates.value), false);
      RequestIsExact(rate, left, replies[1..], b);
      if !IsDirect(rate, request) {
        forall c: nat ensures c !in Unstamped(left) {
          LeftUnstamped(logs, dates.value, c);
        }
        AllAnswered(rate, left, replies[1..]);
      }
      assert replies == [replies[0]] + replies[1..];
    }
  }

  lemma WaitingNeedsBlocks(rate: real, logs: seq<StampedLog>, replies: seq<Reply>)
    requires Attach(rate, logs, replies).Waiting?
    ensures Unstamped(logs) != []
  {
  }

  lemma AllAnswered(rate: real, logs: seq<StampedLog>, replies: seq<Reply>)
    requires forall c :: c !in Unstamped(logs)
    ensures Attach(rate, logs, replies).Done?
  {
    HasFirst(Unstamped(logs));
  }

  ghost function Pending(logs: seq<StampedLog>): set<nat> {
    set b | b in Unstamped(logs)
  }

  /** Each reply, in its turn, answers at least one of the blocks still asked for. */
  ghost predicate Progresses(rate: real, logs: seq<StampedLog>, replies: seq<Reply>)
    decreases |replies|
  {
    replies != [] && Unstamped(logs) != [] ==>
      && (exists b :: b in Unstamped(logs) && Answers(replies[0], b))
      && var dates := Dates(rate, Request(Unstamped(logs)), replies[0]);
         dates.Ok? ==> Progresses(rate, Having(Apply(logs, dates.value), false), replies[1..])
  }

  /** With such replies the recursion ends after at most one round for each unstamped block. */
  lemma {:induction false} RoundsAreBounded(rate: real, logs: seq<StampedLog>, replies: seq<Reply>)
    requires Progresses(rate, logs, replies) && |replies| >= |Pending(logs)|
    ensures !Attach(rate, logs, replies).Waiting?
    decreases |replies|
  {
    if Attach(rate, logs, replies).Waiting? {
      WaitingNeedsBlocks(rate, logs, replies);
      assert Unstamped(logs)[0] in Pending(logs);
      var request := Request(Unstamped(logs));
      var dates := Dates(rate, request, replies[0]);
      var b :| b in Unstamped(logs) && Answers(replies[0], b);
      RoundCases(rate, logs, replies);
      assert dates.Ok?;
      var left := Having(Apply(logs, dates.value), false);
      assert Progresses(rate, left, replies[1..]);
      hide *;
      DatesCover(rate, request, replies[0]);
      assert b in dates.value;
      FewerPending(logs, dates.value, b);
      RoundsAreBounded(rate, left, replies[1..]);
    }
  }

  lemma FewerPending(logs: seq<StampedLog>, dates: map<nat, nat>, b: nat)
    requires b in Unstamped(logs) && b in dates
    ensures |Pending(Having(Apply(logs, dates), false))| < |Pending(logs)|
  {
    hide *;
    var left := Having(Apply(logs, dates), false);
    forall c: nat ensures c in Pending(left) <==> c in Pending(logs) && c !in dates {
      LeftUnstamped(logs, dates, c);
      PendingIs(left, c);
      PendingIs(logs, c);
    }
    PendingIs(logs, b);
    assert b in Pending(logs) && b !in Pending(left);
    ProperSubsetSize(Pending(left), Pending(logs));
  }

  lemma PendingIs(logs: seq<StampedLog>, b: nat)
    ensures b in Pending(logs) <==> b in Unstamped(logs)
  {
  }

  // ----- when the work ends

  ghost predicate AnsweredBy(replies: seq<Reply>, b: nat) {
    exists reply | reply in replies :: Answers(reply, b)
  }

  /** The blocks that none of these replies answers, in order. */
  ghost function Open(blocks: seq<nat>, replies: seq<Reply>): (r: seq<nat>)
    ensures forall b :: b in r <==> b in blocks && !AnsweredBy(replies, b)
  {
    if blocks == [] then []
    else (if AnsweredBy(replies, blocks[0]) then [] else [blocks[0]]) + Open(blocks[1..], replies)
  }

  /** There is something to ask for, and its answer is read as it is. */
  ghost predicate AsIs(rate: real, blocks: seq<nat>) {
    blocks != [] && IsDirect(rate, Request(blocks))
  }

  lemma AnsweredByEither(a: seq<Reply>, b: seq<Reply>, block: nat)
    ensures AnsweredBy(a + b, block) <==> AnsweredBy(a, block) || AnsweredBy(b, block)
  {
    hide Answers;
  }

  lemma OpenCons(block: nat, blocks: seq<nat>, replies: seq<Reply>)
    ensures Open([block] + blocks, replies) ==
            if AnsweredBy(replies, block) then Open(blocks, replies) else [block] + Open(blocks, replies)
  {
    hide AnsweredBy;
    assert ([block] + blocks)[1..] == blocks;
  }

  lemma {:induction false} OpenTwice(blocks: seq<nat>, a: seq<Reply>, b: seq<Reply>)
    ensures Open(Open(blocks, a), b) == Open(blocks, a + b)
  {
    hide AnsweredBy;
    if blocks != [] {
      AnsweredByEither(a, b, blocks[0]);
      OpenTwice(blocks[1..], a, b);
      OpenCons(blocks[0], blocks[1..], a + b);
      OpenCons(blocks[0], blocks[1..], a);
      OpenCons(blocks[0], Open(blocks[1..], a), b);
      assert blocks == [blocks[0]] + blocks[1..];
      hide Open;
    }
  }

  lemma {:induction false} OpenAll(blocks: seq<nat>)
    ensures Open(blocks, []) == blocks
  {
    if blocks != [] {
      OpenAll(blocks[1..]);
    }
  }

  lemma {:induction false} OpenIsWithout(blocks: seq<nat>, dates: map<nat, nat>, reply: Reply)
    requires forall b :: b in dates <==> Answers(reply, b)
    ensures Open(blocks, [reply]) == Without(blocks, dates)
  {
    hide Answers;
    if blocks != [] {
      OpenIsWithout(blocks[1..], dates, reply);
      assert forall other :: other in [reply] <==> other == reply;
    }
  }

  /** All replies came, and each, in its turn, was read as it is. */
  ghost predicate ReadAsIs(rate: real, blocks: seq<nat>, replies: seq<Reply>) {
    forall i | 0 <= i < |replies| :: replies[i].Headers? && AsIs(rate, Open(blocks, replies[..i]))
  }

  lemma ReadAsIsFirst(rate: real, blocks: seq<nat>, replies: seq<Reply>)
    requires replies != []
    ensures ReadAsIs(rate, blocks, replies) <==>
            replies[0].Headers? && AsIs(rate, blocks) && ReadAsIs(rate, Open(blocks, [replies[0]]), replies[1..])
  {
    hide Open, AsIs;
    OpenAll(blocks);
    assert replies[..0] == [];
    var rest := replies[1..];
    forall i | 0 <= i < |rest| ensures rest[i] == replies[i + 1]
                               ensures Open(Open(blocks, [replies[0]]), rest[..i]) == Open(blocks, replies[..i + 1])
    {
      OpenTwice(blocks, [replies[0]], rest[..i]);
      assert [replies[0]] + rest[..i] == replies[..i + 1];
    }
    if ReadAsIs(rate, blocks, replies) {
      assert AsIs(rate, Open(blocks, replies[..0]));
      forall i | 0 <= i < |rest| ensures rest[i].Headers? && AsIs(rate, Open(Open(blocks, [replies[0]]), rest[..i])) {
        assert replies[i + 1].Headers? && AsIs(rate, Open(blocks, replies[..i + 1]));
      }
    }
    if replies[0].Headers? && AsIs(rate, blocks) && ReadAsIs(rate, Open(blocks, [replies[0]]), rest) {
      forall i | 0 <= i < |replies| ensures replies[i].Headers? && AsIs(rate, Open(blocks, replies[..i])) {
        if i > 0 {
          assert rest[i - 1].Headers? && AsIs(rate, Open(Open(blocks, [replies[0]]), rest[..i - 1]));
        }
      }
    }
  }

  /** At any rate and for any replies, the work has not ended if and only if some block is still open and
      every reply so far came and was read as it is. */
  lemma {:induction false} WaitsExactly(rate: real, logs: seq<StampedLog>, replies: seq<Reply>)
    ensures var blocks := Unstamped(logs);
            Attach(rate, logs, replies).Waiting? <==> Open(blocks, replies) != [] && ReadAsIs(rate, blocks, replies)
    decreases |replies|
  {
    hide *;
    var blocks := Unstamped(logs);
    if blocks == [] {
      NothingToDo(rate, logs, replies);
      assert forall b :: b !in Open(blocks, replies);
      HasFirst(Open(blocks, replies));
    } else if replies == [] {
      WaitsFirst(rate, logs);
      OpenAll(blocks);
      NothingRead(rate, blocks);
    } else {
      RoundWaits(rate, logs, replies);
      ReadAsIsFirst(rate, blocks, replies);
      OpenTwice(blocks, [replies[0]], replies[1..]);
      assert [replies[0]] + replies[1..] == replies;
      if replies[0].Headers? && AsIs(rate, blocks) {
        WaitsExactly(rate, Having(Apply(logs, FromHeaders(replies[0].headers)), false), replies[1..]);
      }
    }
  }

  lemma NothingRead(rate: real, blocks: seq<nat>)
    ensures ReadAsIs(rate, blocks, [])
  {
  }

  /** One round goes on only from a reply that is read as it is, and then with the blocks still open. */
  lemma RoundWaits(rate: real, logs: seq<StampedLog>, replies: seq<Reply>)
    requires Unstamped(logs) != [] && replies != []
    ensures if replies[0].Headers? && AsIs(rate, Unstamped(logs)) then
              var left := Having(Apply(logs, FromHeaders(replies[0].headers)), false);
              && Unstamped(left) == Open(Unstamped(logs), [replies[0]])
              && (Attach(rate, logs, replies).Waiting? <==> Attach(rate, left, replies[1..]).Waiting?)
            else !Attach(rate, logs, replies).Waiting?
  {
    var request, reply := Request(Unstamped(logs)), replies[0];
    var dates := Dates(rate, request, reply);
    assert AsIs(rate, Unstamped(logs)) <==> IsDirect(rate, request);
    assert reply.NoReply? ==> dates.Err?;
    assert reply.Headers? && IsDirect(rate, request) ==> dates == Ok(FromHeaders(reply.headers));
    hide *;
    RoundCases(rate, logs, replies);
    if dates.Ok? {
      DatesCover(rate, request, reply);
      if AsIs(rate, Unstamped(logs)) {
        LeftIsWithout(logs, dates.value);
        OpenIsWithout(Unstamped(logs), dates.value, reply);
      } else {
        var left := Having(Apply(logs, dates.value), false);
        forall b: nat ensures b !in Unstamped(left) {
          LeftUnstamped(logs, dates.value, b);
        }
        AllAnswered(rate, left, replies[1..]);
      }
    }
  }

  /** At the default rate the work has not ended if and only if all replies came and one unstamped block is
      in none of them. */
  lemma {:induction false} DefaultWaitsExactly(logs: seq<StampedLog>, replies: seq<Reply>)
    ensures Attach(BoundedRate(None), logs, replies).Waiting? <==>
            && (forall reply | reply in replies :: reply.Headers?)
            && exists b :: b in Unstamped(logs) && !AnsweredBy(replies, b)
  {
    var rate, blocks := BoundedRate(None), Unstamped(logs);
    WaitsExactly(rate, logs, replies);
    HasFirst(Open(blocks, replies));
    hide IsDirect, Attach, Unstamped, BoundedRate, Request, Open, AnsweredBy;
    if b :| b in blocks && !AnsweredBy(replies, b) {
      forall i | 0 <= i < |replies| ensures AsIs(rate, Open(blocks, replies[..i])) {
        AnsweredByEither(replies[..i], replies[i..], b);
        assert replies[..i] + replies[i..] == replies && b in Open(blocks, replies[..i]);
        DefaultIsDirect(Request(Open(blocks, replies[..i])));
      }
    }
  }

  /** The first replies of a provider that is asked for ever. */
  ghost function FirstReplies(provider: nat -> Reply, n: nat): (r: seq<Reply>)
    ensures |r| == n && forall i | 0 <= i < n :: r[i] == provider(i)
  {
    seq(n, i requires 0 <= i < n => provider(i))
  }

  /** At the default rate the recursion never ends if and only if every reply comes and there is an unstamped
      block that none of them ever answers. */
  lemma {:induction false} NeverEndsExactly(logs: seq<StampedLog>, provider: nat -> Reply)
    ensures (forall n: nat :: Attach(BoundedRate(None), logs, FirstReplies(provider, n)).Waiting?) <==>
            && (forall i: nat :: provider(i).Headers?)
            && exists b :: b in Unstamped(logs) && forall i: nat :: !Answers(provider(i), b)
  {
    var blocks := Unstamped(logs);
    hide *;
    if forall n: nat :: Attach(BoundedRate(None), logs, FirstReplies(provider, n)).Waiting? {
      forall i: nat ensures provider(i).Headers? {
        DefaultWaitsExactly(logs, FirstReplies(provider, i + 1));
        assert FirstReplies(provider, i + 1)[i] in FirstReplies(provider, i + 1);
      }
      if forall b | b in blocks :: exists i: nat :: Answers(provider(i), b) {
        var n := AllAnsweredBy(blocks, provider);
        DefaultWaitsExactly(logs, FirstReplies(provider, n));
      }
    }
    if (forall i: nat :: provider(i).Headers?) && exists b :: b in blocks && forall i: nat :: !Answers(provider(i), b) {
      var b :| b in blocks && forall i: nat :: !Answers(provider(i), b);
      forall n: nat ensures Attach(BoundedRate(None), logs, FirstReplies(provider, n)).Waiting? {
        NeverAnswered(provider, n, b);
        DefaultWaitsExactly(logs, FirstReplies(provider, n));
        assert forall reply | reply in FirstReplies(provider, n) :: reply.Headers?;
      }
    }
  }

  lemma NeverAnswered(provider: nat -> Reply, n: nat, b: nat)
    requires forall i: nat :: !Answers(provider(i), b)
    ensures !AnsweredBy(FirstReplies(provider, n), b)
  {
    hide Answers, FirstReplies;
  }

  /** Finitely many blocks that are all answered some time are all answered by one time. */
  lemma {:induction false} AllAnsweredBy(blocks: seq<nat>, provider: nat -> Reply) returns (n: nat)
    requires forall b | b in blocks :: exists i: nat :: Answers(provider(i), b)
    ensures forall b | b in blocks :: AnsweredBy(FirstReplies(provider, n), b)
  {
    hide Answers, FirstReplies, AnsweredBy;
    if blocks == [] {
      n := 0;
    } else {
      forall b | b in blocks[1..] ensures exists i: nat :: Answers(provider(i), b) {
        assert b in blocks;
      }
      var m := AllAnsweredBy(blocks[1..], provider);
      assert blocks[0] in blocks;
      var i: nat :| Answers(provider(i), blocks[0]);
      n := if m > i then m else i + 1;
      forall b | b in blocks ensures AnsweredBy(FirstReplies(provider, n), b) {
        if b == blocks[0] {
          AnsweredIn(provider, i, n, b);
        } else {
          MoreReplies(provider, m, n, b);
        }
      }
    }
  }

  lemma AnsweredIn(provider: nat -> Reply, i: nat, n: nat, b: nat)
    requires i < n && Answers(provider(i), b)
    ensures AnsweredBy(FirstReplies(provider, n), b)
  {
    hide Answers, FirstReplies;
    assert FirstReplies(provider, n)[i] in FirstReplies(provider, n);
  }

  lemma MoreReplies(provider: nat -> Reply, m: nat, n: nat, b: nat)
    requires m <= n && AnsweredBy(FirstReplies(provider, m), b)
    ensures AnsweredBy(FirstReplies(provider, n), b)
  {
    hide Answers, FirstReplies;
    var reply :| reply in FirstReplies(provider, m) && Answers(reply, b);
    var i :| 0 <= i < m && FirstReplies(provider, m)[i] == reply;
    assert FirstReplies(provider, n)[i] == reply;
  }

  // ----- a provider that answers nothing

  ghost predicate AllEmpty(replies: seq<Reply>) {
    forall reply | reply in replies :: reply == Headers([])
  }

  lemma EmptyDates(rate: real, request: seq<nat>)
    requires request != []
    ensures Dates(rate, request, Headers([])) ==
            if IsDirect(rate, request) then Ok(map[]) else Err(MissingBlockInRange(request[0]))
  {
    hide IsDirect;
    assert FromHeaders([]) == map[];
  }

  lemma SameRequest(logs: seq<StampedLog>)
    ensures Request(Unstamped(Having(Apply(logs, map[]), false))) == Request(Unstamped(logs))
  {
    var left := Having(Apply(logs, map[]), false);
    forall b: nat ensures b in Unstamped(left) <==> b in Unstamped(logs) {
      LeftUnstamped(logs, map[], b);
    }
    hide *;
    IncreasingUnique(Request(Unstamped(left)), Request(Unstamped(logs)));
  }

  /** Empty replies are an error when the reply is read as a sample; otherwise the same request is made
      again and again, without an end. */
  lemma {:induction false} EmptyRepliesStall(rate: real, logs: seq<StampedLog>, replies: seq<Reply>)
    requires Unstamped(logs) != [] && replies != [] && AllEmpty(replies)
    ensures var request := Request(Unstamped(logs));
            Attach(rate, logs, replies) ==
            if IsDirect(rate, request) then Waiting(request) else Failed(MissingBlockInRange(request[0]))
    decreases |replies|
  {
    FirstEmpty(replies);
    var request := Request(Unstamped(logs));
    var left := Having(Apply(logs, map[]), false);
    RoundCases(rate, logs, replies);
    if replies[1..] == [] {
      WaitsFirst(rate, left);
    }
    hide *;
    EmptyDates(rate, request);
    SameRequest(logs);
    if IsDirect(rate, request) && replies[1..] != [] {
      EmptyRepliesStall(rate, left, replies[1..]);
    }
  }

  lemma FirstEmpty(replies: seq<Reply>)
    requires replies != [] && AllEmpty(replies)
    ensures replies[0] == Headers([]) && AllEmpty(replies[1..])
  {
    assert replies[0] in replies;
    assert forall reply | reply in replies[1..] :: reply in replies;
  }

  lemma WaitsFirst(rate: real, logs: seq<StampedLog>)
    ensures Unstamped(logs) != [] ==> Attach(rate, logs, []) == Waiting(Request(Unstamped(logs)))
  {
  }

  // ----- true times

  /** Every header of the reply has its block's true time. */
  ghost predicate TrueReply(reply: Reply, chain: Chain) {
    reply.Headers? ==> forall h | h in reply.headers :: h.1 == chain.time(h.0)
  }

  lemma DirectTells(rate: real, request: seq<nat>, reply: Reply, logs: seq<StampedLog>, chain: Chain)
    requires request != [] && IsDirect(rate, request) && Dates(rate, request, reply).Ok? && TrueReply(reply, chain)
    ensures Tells(logs, Dates(rate, request, reply).value, chain)
  {
    hide IsDirect;
    var dates := FromHeaders(reply.headers);
    forall b | b in dates ensures dates[b] == chain.time(b) {
      assert (b, dates[b]) in reply.headers;
    }
  }

  lemma DefaultIsDirect(request: seq<nat>)
    requires request != [] && Increasing(request)
    ensures IsDirect(BoundedRate(None), request)
  {
    var first, last := request[0], request[|request| - 1];
    Spread(request, |request| - 1);
    FullRateTakesAll(first, last);
    hide Samples;
    assert |All(first, last)| == last - first + 1;
  }

  /** At the default rate every time that is filled in is the true one, in however many replies it comes. */
  lemma {:induction false} DefaultRateIsExact(logs: seq<StampedLog>, replies: seq<Reply>, chain: Chain)
    requires Truthful(logs, chain) && forall reply | reply in replies :: TrueReply(reply, chain)
    requires Attach(BoundedRate(None), logs, replies).Done?
    ensures Sorting.Permutation(Attach(BoundedRate(None), logs, replies).logs, TimedAll(logs, chain))
    decreases |replies|
  {
    hide *;
    var rate := BoundedRate(None);
    NothingUnstamped(logs);
    if Unstamped(logs) == [] {
      NothingToDo(rate, logs, replies);
      TruthfulIsTimed(logs, chain);
      SamePermutation(logs);
    } else {
      NeverIdle(rate, logs, replies);
      RoundCases(rate, logs, replies);
      var request := Request(Unstamped(logs));
      var dates := Dates(rate, request, replies[0]).value;
      DefaultIsDirect(request);
      DirectTells(rate, request, replies[0], logs, chain);
      ApplyTruthful(logs, dates, chain);
      var logs' := Apply(logs, dates);
      HavingTruthful(logs', chain);
      DefaultRateIsExact(Having(logs', false), replies[1..], chain);
      RejoinTimed(logs', Attach(rate, Having(logs', false), replies[1..]).logs, chain);
    }
  }

  lemma SamePermutation(logs: seq<StampedLog>)
    ensures Sorting.Permutation(logs, logs)
  {
  }

  lemma HavingTruthful(logs: seq<StampedLog>, chain: Chain)
    requires Truthful(logs, chain)
    ensures Truthful(Having(logs, false), chain) && Truthful(Having(logs, true), chain)
  {
  }

  lemma RejoinTimed(logs: seq<StampedLog>, completed: seq<StampedLog>, chain: Chain)
    requires Truthful(logs, chain) && Sorting.Permutation(completed, TimedAll(Having(logs, false), chain))
    ensures Sorting.Permutation(completed + Having(logs, true), TimedAll(logs, chain))
  {
    var stamped := Having(logs, true);
    HavingTruthful(logs, chain);
    TruthfulIsTimed(stamped, chain);
    TimedSplit(logs, chain);
    hide TimedAll, Having;
    assert multiset(completed + stamped) == multiset(completed) + multiset(stamped);
  }

  // ----- any rate

  ghost predicate AnswersAll(reply: Reply, blocks: seq<nat>) {
    forall b | b in blocks :: Answers(reply, b)
  }

  lemma TwoHeaders(rate: real, request: seq<nat>, reply: Reply)
    requires request != [] && !IsDirect(rate, request) && Increasing(request)
    requires reply.Headers? && AnswersAll(reply, request)
    ensures |reply.headers| >= 2
  {
    OneIsDirect(rate, request);
    hide *;
    var first, last := request[0], request[|request| - 1];
    assert first in request && last in request && first < last;
    TwoAnswers(reply, first, last);
  }

  lemma OneIsDirect(rate: real, request: seq<nat>)
    requires request != []
    ensures IsDirect(rate, request) || |request| >= 2
  {
  }

  lemma TwoAnswers(reply: Reply, b: nat, c: nat)
    requires b != c && Answers(reply, b) && Answers(reply, c)
    ensures |reply.headers| >= 2
  {
  }

  lemma SampledTells(rate: real, request: seq<nat>, reply: Reply, chain: Chain)
    requires request != [] && Increasing(request)
    requires TrueReply(reply, chain) && reply.Headers? && AnswersAll(reply, request)
    requires DistinctNumbers(reply.headers) && AllPositive(reply.headers)
    ensures Dates(rate, request, reply).Ok?
    ensures var dates := Dates(rate, request, reply).value;
            forall b | b in request :: b in dates && dates[b] == chain.time(b)
  {
    hide *;
    if IsDirect(rate, request) {
      DirectGives(rate, request, reply, chain);
    } else {
      TwoHeaders(rate, request, reply);
      InterpolatedMeaning(reply.headers);
      FitsGives(request, reply, Interpolated(reply.headers).value, chain);
      InterpolatedDates(rate, request, reply);
    }
  }

  lemma InterpolatedDates(rate: real, request: seq<nat>, reply: Reply)
    requires request != [] && !IsDirect(rate, request) && reply.Headers? && Interpolated(reply.headers).Some?
    requires forall b | b in request :: b in Interpolated(reply.headers).value
    ensures Dates(rate, request, reply) == Ok(Interpolated(reply.headers).value)
  {
    hide Interpolated, IsDirect;
  }

  lemma DirectGives(rate: real, request: seq<nat>, reply: Reply, chain: Chain)
    requires request != [] && IsDirect(rate, request)
    requires TrueReply(reply, chain) && reply.Headers? && AnswersAll(reply, request)
    ensures Dates(rate, request, reply).Ok?
    ensures var dates := Dates(rate, request, reply).value;
            forall b | b in request :: b in dates && dates[b] == chain.time(b)
  {
    hide IsDirect;
    var dates := FromHeaders(reply.headers);
    forall b | b in request ensures b in dates && dates[b] == chain.time(b) {
      assert Answers(reply, b);
      assert (b, dates[b]) in reply.headers;
    }
  }

  lemma FitsGives(request: seq<nat>, reply: Reply, dates: map<nat, nat>, chain: Chain)
    requires reply.Headers? && TrueReply(reply, chain) && AnswersAll(reply, request) && Fits(reply.headers, dates)
    ensures forall b | b in request :: b in dates && dates[b] == chain.time(b)
  {
    hide Spanned;
    forall b | b in request ensures b in dates && dates[b] == chain.time(b) {
      assert Answers(reply, b);
      var h :| h in reply.headers && h.0 == b;
      assert h.0 in dates;
    }
  }

  /** Every block that a log names is asked for. */
  ghost predicate AllRequested(logs: seq<StampedLog>) {
    forall x | x in logs && x.Numbered() :: x.log.blockNumber.value in Unstamped(logs)
  }

  /** At any rate, one full and true reply stamps everything with the true times. */
  lemma {:induction false} FullReplyIsExact(rate: real, logs: seq<StampedLog>, reply: Reply, chain: Chain)
    requires Unstamped(logs) != [] && AllRequested(logs)
    requires TrueReply(reply, chain) && reply.Headers? && AnswersAll(reply, Unstamped(logs))
    requires DistinctNumbers(reply.headers) && AllPositive(reply.headers)
    ensures Attach(rate, logs, [reply]).Done?
    ensures Sorting.Permutation(Attach(rate, logs, [reply]).logs, TimedAll(logs, chain))
  {
    hide AllPositive, DistinctNumbers, Dates, Attach, Request, TrueReply, Answers;
    var request := Request(Unstamped(logs));
    assert AnswersAll(reply, request);
    SampledTells(rate, request, reply, chain);
    var dates := Dates(rate, request, reply).value;
    RoundCases(rate, logs, [reply]);
    AppliesToAll(logs, dates, chain);
    var logs' := Apply(logs, dates);
    var left := Having(logs', false);
    assert Unstamped(left) == [] by {
      forall b: nat ensures b !in Unstamped(left) {
        LeftUnstamped(logs, dates, b);
      }
      HasFirst(Unstamped(left));
    }
    hide *;
    NothingToDo(rate, left, [reply][1..]);
    NothingUnstamped(left);
    LeftTimed(left, chain);
    RejoinTimed(logs', left, chain);
  }

  lemma LeftTimed(left: seq<StampedLog>, chain: Chain)
    requires Complete(left) && forall x | x in left :: x.timestamp.None?
    ensures Sorting.Permutation(left, TimedAll(left, chain))
  {
    TruthfulIsTimed(left, chain);
  }

  lemma AppliesToAll(logs: seq<StampedLog>, dates: map<nat, nat>, chain: Chain)
    requires AllRequested(logs)
    requires forall b | b in Unstamped(logs) :: b in dates && dates[b] == chain.time(b)
    ensures Truthful(Apply(logs, dates), chain)
    ensures TimedAll(Apply(logs, dates), chain) == TimedAll(logs, chain)
  {
    var r := Apply(logs, dates);
    forall i | 0 <= i < |r|
      ensures (r[i].timestamp.Some? ==> r[i] == Timed(r[i], chain)) && Timed(r[i], chain) == Timed(logs[i], chain)
    {
      assert logs[i] in logs;
    }
  }
}
