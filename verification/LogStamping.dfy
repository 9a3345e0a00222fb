/** Logs with optional block times, and the steps on them that the stamping stages share. */
module LogStamping {
  import opened Options
  import opened EncodingLaws
  import LogQuery

  datatype StampedLog = StampedLog(log: LogQuery.Log, timestamp: Option<nat>) {
    predicate Numbered() { log.blockNumber.Some? }

    predicate IsIn(dates: map<nat, nat>) { Numbered() && log.blockNumber.value in dates }

    /** Unstamped although the block is known: a stage should find its time. */
    predicate NeedsTime() { timestamp.None? && Numbered() }
  }

  /** The blocks whose time is asked for, in log order and with repeats. */
  function Unstamped(logs: seq<StampedLog>): (r: seq<nat>)
    ensures forall b :: b in r <==> exists x | x in logs :: x.NeedsTime() && x.log.blockNumber.value == b
  {
    if logs == [] then []
    else
      assert forall x :: x in logs <==> x == logs[0] || x in logs[1..];
      var rest := Unstamped(logs[1..]);
      if logs[0].NeedsTime() then [logs[0].log.blockNumber.value] + rest else rest
  }

  /** A known time is attached to every log of its block, stamped before or not. */
  function Attached(x: StampedLog, dates: map<nat, nat>): StampedLog {
    if x.IsIn(dates) then x.(timestamp := Some(dates[x.log.blockNumber.value])) else x
  }

  function Apply(logs: seq<StampedLog>, dates: map<nat, nat>): (r: seq<StampedLog>)
    ensures |r| == |logs| && forall i | 0 <= i < |r| :: r[i] == Attached(logs[i], dates)
  {
    if logs == [] then [] else [Attached(logs[0], dates)] + Apply(logs[1..], dates)
  }

  /** The two halves of a partition by whether a time is known. */
  function Having(logs: seq<StampedLog>, stamped: bool): (r: seq<StampedLog>)
    ensures forall x :: x in r <==> x in logs && x.timestamp.Some? == stamped
  {
    if logs == [] then []
    else if logs[0].timestamp.Some? == stamped then [logs[0]] + Having(logs[1..], stamped)
    else Having(logs[1..], stamped)
  }

  // ----- what stages keep

  /** The logs themselves, without their times. */
  function Contents(logs: seq<StampedLog>): (r: seq<LogQuery.Log>)
    ensures |r| == |logs| && forall i | 0 <= i < |r| :: r[i] == logs[i].log
  {
    if logs == [] then [] else [logs[0].log] + Contents(logs[1..])
  }

  /** The same logs, each as often, in any order and with any times. */
  ghost predicate SameLogs(a: seq<StampedLog>, b: seq<StampedLog>) {
    multiset(Contents(a)) == multiset(Contents(b))
  }

  /** Every log whose block is known has a time. */
  ghost predicate Complete(logs: seq<StampedLog>) {
    forall x | x in logs :: !x.NeedsTime()
  }

  lemma NothingUnstamped(logs: seq<StampedLog>)
    ensures Unstamped(logs) == [] <==> Complete(logs)
  {
    if Unstamped(logs) != [] {
      assert Unstamped(logs)[0] in Unstamped(logs);
    }
    if x :| x in logs && x.NeedsTime() {
      assert x.log.blockNumber.value in Unstamped(logs);
    }
  }

  lemma ApplyKeepsLogs(logs: seq<StampedLog>, dates: map<nat, nat>)
    ensures Contents(Apply(logs, dates)) == Contents(logs)
  {
  }

  lemma ApplyUnstamped(logs: seq<StampedLog>, dates: map<nat, nat>, b: nat)
    ensures b in Unstamped(Apply(logs, dates)) <==> b in Unstamped(logs) && b !in dates
  {
    var r := Apply(logs, dates);
    if b in Unstamped(r) {
      var x :| x in r && x.NeedsTime() && x.log.blockNumber.value == b;
      var i :| 0 <= i < |r| && r[i] == x;
      assert logs[i] in logs;
    }
    if b in Unstamped(logs) && b !in dates {
      var x :| x in logs && x.NeedsTime() && x.log.blockNumber.value == b;
      var i :| 0 <= i < |logs| && logs[i] == x;
      assert r[i] in r;
    }
  }

  lemma HavingUnstamped(logs: seq<StampedLog>, b: nat)
    ensures b in Unstamped(Having(logs, false)) <==> b in Unstamped(logs)
  {
  }

  /** The blocks that are not dated, in order. */
  function Without(blocks: seq<nat>, dates: map<nat, nat>): (r: seq<nat>)
    ensures forall b :: b in r <==> b in blocks && b !in dates
  {
    if blocks == [] then []
    else (if blocks[0] in dates then [] else [blocks[0]]) + Without(blocks[1..], dates)
  }

  lemma WithoutCons(block: nat, blocks: seq<nat>, dates: map<nat, nat>)
    ensures Without([block] + blocks, dates) ==
            if block in dates then Without(blocks, dates) else [block] + Without(blocks, dates)
  {
    assert ([block] + blocks)[1..] == blocks;
  }

  lemma UnstampedCons(x: StampedLog, logs: seq<StampedLog>)
    ensures Unstamped([x] + logs) ==
            if x.NeedsTime() then [x.log.blockNumber.value] + Unstamped(logs) else Unstamped(logs)
  {
    assert ([x] + logs)[1..] == logs;
  }

  lemma HavingCons(x: StampedLog, logs: seq<StampedLog>, stamped: bool)
    ensures Having([x] + logs, stamped) ==
            if x.timestamp.Some? == stamped then [x] + Having(logs, stamped) else Having(logs, stamped)
  {
    assert ([x] + logs)[1..] == logs;
  }

  /** The blocks still unstamped after a round are those of before that were not dated, in order. */
  lemma {:induction false} LeftIsWithout(logs: seq<StampedLog>, dates: map<nat, nat>)
    ensures Unstamped(Having(Apply(logs, dates), false)) == Without(Unstamped(logs), dates)
  {
    if logs != [] {
      var x, rest := logs[0], logs[1..];
      LeftIsWithout(rest, dates);
      assert logs == [x] + rest && Apply(logs, dates) == [Attached(x, dates)] + Apply(rest, dates);
      hide Having, Apply, Unstamped, Without;
      UnstampedCons(x, rest);
      HavingCons(Attached(x, dates), Apply(rest, dates), false);
      UnstampedCons(Attached(x, dates), Having(Apply(rest, dates), false));
      if x.NeedsTime() {
        WithoutCons(x.log.blockNumber.value, Unstamped(rest), dates);
      }
    }
  }

  lemma {:induction false} ContentsSplit(logs: seq<StampedLog>)
    ensures multiset(Contents(logs)) ==
            multiset(Contents(Having(logs, true))) + multiset(Contents(Having(logs, false)))
  {
    if logs != [] {
      var head, rest := logs[0], logs[1..];
      ContentsSplit(rest);
      var part := Having(rest, head.timestamp.Some?);
      assert ([head] + part)[1..] == part;
      assert Contents(logs) == [head.log] + Contents(rest);
      assert Contents([head] + part) == [head.log] + Contents(part);
    }
  }

  lemma ContentsConcat(a: seq<StampedLog>, b: seq<StampedLog>)
    ensures Contents(a + b) == Contents(a) + Contents(b)
  {
  }

  // ----- true times

  /** The log with its block's true time. */
  ghost function Timed(x: StampedLog, chain: Chain): StampedLog {
    if x.Numbered() then x.(timestamp := Some(chain.time(x.log.blockNumber.value))) else x
  }

  ghost function TimedAll(logs: seq<StampedLog>, chain: Chain): (r: seq<StampedLog>)
    ensures |r| == |logs| && forall i | 0 <= i < |r| :: r[i] == Timed(logs[i], chain)
  {
    if logs == [] then [] else [Timed(logs[0], chain)] + TimedAll(logs[1..], chain)
  }

  /** No time present differs from the true one. */
  ghost predicate Truthful(logs: seq<StampedLog>, chain: Chain) {
    forall x | x in logs && x.timestamp.Some? :: x == Timed(x, chain)
  }

  /** The dates of the blocks that these logs name are the true ones. */
  ghost predicate Tells(logs: seq<StampedLog>, dates: map<nat, nat>, chain: Chain) {
    forall x | x in logs && x.IsIn(dates) :: dates[x.log.blockNumber.value] == chain.time(x.log.blockNumber.value)
  }

  lemma ApplyTruthful(logs: seq<StampedLog>, dates: map<nat, nat>, chain: Chain)
    requires Truthful(logs, chain) && Tells(logs, dates, chain)
    ensures Truthful(Apply(logs, dates), chain)
    ensures TimedAll(Apply(logs, dates), chain) == TimedAll(logs, chain)
  {
    var r := Apply(logs, dates);
    forall i | 0 <= i < |r|
      ensures (r[i].timestamp.Some? ==> r[i] == Timed(r[i], chain)) && Timed(r[i], chain) == Timed(logs[i], chain)
    {
      assert logs[i] in logs;
    }
  }

  lemma TruthfulIsTimed(logs: seq<StampedLog>, chain: Chain)
    requires Truthful(logs, chain) && Complete(logs)
    ensures TimedAll(logs, chain) == logs
  {
    forall i | 0 <= i < |logs| ensures Timed(logs[i], chain) == logs[i] {
      assert logs[i] in logs;
    }
  }

  lemma {:induction false} TimedSplit(logs: seq<StampedLog>, chain: Chain)
    ensures multiset(TimedAll(logs, chain)) ==
            multiset(TimedAll(Having(logs, true), chain)) + multiset(TimedAll(Having(logs, false), chain))
  {
    if logs != [] {
      var head, rest := logs[0], logs[1..];
      TimedSplit(rest, chain);
      var part := Having(rest, head.timestamp.Some?);
      assert ([head] + part)[1..] == part;
      assert TimedAll(logs, chain) == [Timed(head, chain)] + TimedAll(rest, chain);
      assert TimedAll([head] + part, chain) == [Timed(head, chain)] + TimedAll(part, chain);
    }
  }
}
