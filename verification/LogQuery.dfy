/** One logical log query, split by topic alternative and address chunk, and merged again. */
module LogQuery {
  import opened Basics
  import opened Options
  import Sorting

  const DEFAULT_ACCOUNT_FILTERS: nat := 1000

  datatype Log = Log(
    address: nat,
    topics: seq<nat>,
    data: seq<nat>,
    blockHash: Option<nat>,
    transactionHash: Option<nat>,
    blockNumber: Option<nat>,
    transactionIndex: Option<nat>,
    logIndex: Option<nat>)

  /** Allowed values for the indexed topics 1 to 3; an empty set allows everything. */
  datatype TopicSet = TopicSet(topic1: set<nat>, topic2: set<nat>, topic3: set<nat>)

  /** What is sent to the node; no addresses means every address. */
  datatype Filter = Filter(signature: nat, topics: TopicSet, fromBlock: nat, toBlock: nat, addresses: Option<set<nat>>)

  datatype AddressFiltering = InMemory | MaxAddressPerRequest(chunkSize: nat)

  /** The logical query: any of the topic alternatives, any of the addresses. */
  datatype Query = Query(signature: nat, alternatives: seq<TopicSet>, fromBlock: nat, toBlock: nat,
                         addresses: Option<set<nat>>)

  // ----- matching

  predicate TopicAllowed(allowed: set<nat>, topics: seq<nat>, i: nat) {
    allowed == {} || (i < |topics| && topics[i] in allowed)
  }

  predicate TopicsMatch(t: TopicSet, log: Log) {
    TopicAllowed(t.topic1, log.topics, 1) && TopicAllowed(t.topic2, log.topics, 2) &&
      TopicAllowed(t.topic3, log.topics, 3)
  }

  predicate InScope(signature: nat, fromBlock: nat, toBlock: nat, log: Log) {
    && |log.topics| > 0 && log.topics[0] == signature
    && log.blockNumber.Some? && fromBlock <= log.blockNumber.value <= toBlock
  }

  predicate AddressAllowed(addresses: Option<set<nat>>, log: Log) {
    addresses.None? || log.address in addresses.value
  }

  predicate Matches(f: Filter, log: Log) {
    InScope(f.signature, f.fromBlock, f.toBlock, log) && TopicsMatch(f.topics, log) && AddressAllowed(f.addresses, log)
  }

  /** The unsplit query. */
  predicate Wanted(q: Query, log: Log) {
    && InScope(q.signature, q.fromBlock, q.toBlock, log)
    && AddressAllowed(q.addresses, log)
    && exists i | 0 <= i < |q.alternatives| :: TopicsMatch(q.alternatives[i], log)
  }

  /** The logs of the chain that the query asks for, in chain order. */
  function Select(q: Query, chain: seq<Log>): seq<Log> {
    if chain == [] then []
    else Select(q, chain[..|chain| - 1]) + if Wanted(q, chain[|chain| - 1]) then [chain[|chain| - 1]] else []
  }

  // ----- the node

  /** A node answers a filter with logs, or the request fails. */
  datatype Node = Node(answer: Filter -> Option<seq<Log>>)

  ghost predicate ExactLogs(f: Filter, chain: seq<Log>, logs: seq<Log>) {
    forall x :: x in logs <==> x in chain && Matches(f, x)
  }

  /** Whatever the node does answer is the matching logs of the chain, in any order, repeated or not. */
  ghost predicate Honest(node: Node, chain: seq<Log>) {
    forall f :: node.answer(f).Some? ==> ExactLogs(f, chain, node.answer(f).value)
  }

  // ----- merging

  type Identity = (nat, nat, nat)

  function IdentityOf(log: Log): Option<Identity> {
    if log.blockHash.Some? && log.transactionHash.Some? && log.logIndex.Some?
    then Some((log.blockHash.value, log.transactionHash.value, log.logIndex.value))
    else None
  }

  function OrMax(x: Option<nat>): nat { if x.Some? then x.value else U64 - 1 }

  /** Chain order: block, then transaction, then log index; a missing part comes last. */
  predicate ByPosition(a: Log, b: Log) {
    var a1, a2, a3 := OrMax(a.blockNumber), OrMax(a.transactionIndex), OrMax(a.logIndex);
    var b1, b2, b3 := OrMax(b.blockNumber), OrMax(b.transactionIndex), OrMax(b.logIndex);
    a1 < b1 || (a1 == b1 && (a2 < b2 || (a2 == b2 && a3 <= b3)))
  }

  function Flatten(results: seq<seq<Log>>): seq<Log> {
    if results == [] then [] else Flatten(results[..|results| - 1]) + results[|results| - 1]
  }

  function Identities(logs: seq<Log>): set<Identity> {
    set x | x in logs && IdentityOf(x).Some? :: IdentityOf(x).value
  }

  /** Keeps the first log of every complete identity and every log whose identity is incomplete. */
  function Retain(logs: seq<Log>): seq<Log> {
    if logs == [] then []
    else
      var init, last := logs[..|logs| - 1], logs[|logs| - 1];
      Retain(init) +
      if IdentityOf(last).Some? && IdentityOf(last).value in Identities(init) then [] else [last]
  }

  function Merge(results: seq<seq<Log>>): seq<Log> {
    Sorting.Sort(ByPosition, Retain(Flatten(results)))
  }

  method MergeFilterLogs(results: seq<seq<Log>>) returns (logs: seq<Log>)
    ensures logs == Merge(results)
  {
    var all := [];
    for i := 0 to |results|
      invariant all == Flatten(results[..i])
    {
      assert results[..i + 1][..i] == results[..i];
      all := all + results[i];
    }
    assert results[..|results|] == results;
    var seen: set<Identity> := {};
    logs := [];
    for i := 0 to |all|
      invariant logs == Retain(all[..i])
      invariant seen == Identities(all[..i])
    {
      var log := all[i];
      assert all[..i + 1][..i] == all[..i];
      IdentitiesNext(all[..i], log);
      assert all[..i] + [log] == all[..i + 1];
      var id := IdentityOf(log);
      if id.Some? {
        if id.value !in seen {
          logs := logs + [log];
        }
        seen := seen + {id.value};
      } else {
        logs := logs + [log];
      }
    }
    assert all[..|all|] == all;
    logs := Sorting.Sort(ByPosition, logs);
  }

  lemma IdentitiesNext(logs: seq<Log>, log: Log)
    ensures Identities(logs + [log]) ==
            Identities(logs) + if IdentityOf(log).Some? then {IdentityOf(log).value} else {}
  {
  }

  lemma PositionOrders()
    ensures Sorting.TotalPreorder(ByPosition)
  {
  }

  // ----- what merging keeps

  ghost function CountIdentity(logs: seq<Log>, id: Identity): nat {
    if logs == [] then 0
    else CountIdentity(logs[..|logs| - 1], id) + if IdentityOf(logs[|logs| - 1]) == Some(id) then 1 else 0
  }

  lemma {:induction false} RetainIdentity(logs: seq<Log>, id: Identity)
    ensures CountIdentity(Retain(logs), id) == if id in Identities(logs) then 1 else 0
  {
    if logs != [] {
      var init, last := logs[..|logs| - 1], logs[|logs| - 1];
      assert init + [last] == logs;
      RetainIdentity(init, id);
      RetainNext(init, last);
      IdentitiesNext(init, last);
      hide Retain, Identities, CountIdentity;
      CountNext(Retain(init), last, id);
    }
  }

  lemma RetainNext(init: seq<Log>, last: Log)
    ensures Retain(init + [last]) ==
            if IdentityOf(last).Some? && IdentityOf(last).value in Identities(init) then Retain(init)
            else Retain(init) + [last]
  {
    assert (init + [last])[..|init|] == init;
    assert Retain(init) + [] == Retain(init);
  }

  lemma CountNext(logs: seq<Log>, last: Log, id: Identity)
    ensures CountIdentity(logs + [last], id) ==
            CountIdentity(logs, id) + if IdentityOf(last) == Some(id) then 1 else 0
  {
    assert (logs + [last])[..|logs|] == logs;
  }

  lemma {:induction false} RetainIncomplete(logs: seq<Log>, x: Log)
    requires IdentityOf(x).None?
    ensures multiset(Retain(logs))[x] == multiset(logs)[x]
  {
    if logs != [] {
      var init, last := logs[..|logs| - 1], logs[|logs| - 1];
      RetainIncomplete(init, x);
      assert logs == init + [last];
    }
  }

  lemma {:induction false} RetainSubset(logs: seq<Log>, x: Log)
    ensures x in Retain(logs) ==> x in logs
  {
    if logs != [] {
      RetainSubset(logs[..|logs| - 1], x);
    }
  }

  lemma {:induction false} RetainFirst(logs: seq<Log>, i: nat)
    requires i < |logs| && forall j | 0 <= j < i :: IdentityOf(logs[j]) != IdentityOf(logs[i])
    ensures logs[i] in Retain(logs)
  {
    var init, last := logs[..|logs| - 1], logs[|logs| - 1];
    if i < |init| {
      RetainFirst(init, i);
    }
  }

  lemma CountOfPermutation(a: seq<Log>, b: seq<Log>, id: Identity)
    requires Sorting.Permutation(a, b)
    ensures CountIdentity(a, id) == CountIdentity(b, id)
    decreases |a|
  {
    Sorting.SameSize(a, b);
    if a != [] {
      var last := a[|a| - 1];
      assert last in b;
      var j :| 0 <= j < |b| && b[j] == last;
      var rest := b[..j] + b[j + 1..];
      assert b == b[..j] + [last] + b[j + 1..];
      assert a == a[..|a| - 1] + [last];
      assert multiset(rest) == multiset(b) - multiset{last};
      assert multiset(a[..|a| - 1]) == multiset(a) - multiset{last};
      CountOfPermutation(a[..|a| - 1], rest, id);
      CountMiddle(b[..j], last, b[j + 1..], id);
      CountConcat(b[..j], b[j + 1..], id);
    }
  }

  lemma {:induction false} CountConcat(a: seq<Log>, b: seq<Log>, id: Identity)
    ensures CountIdentity(a + b, id) == CountIdentity(a, id) + CountIdentity(b, id)
  {
    if b == [] {
      assert a + b == a;
    } else {
      assert (a + b)[..|a + b| - 1] == a + b[..|b| - 1];
      CountConcat(a, b[..|b| - 1], id);
    }
  }

  lemma CountMiddle(a: seq<Log>, x: Log, b: seq<Log>, id: Identity)
    ensures CountIdentity(a + [x] + b, id) ==
            CountIdentity(a, id) + CountIdentity(b, id) + if IdentityOf(x) == Some(id) then 1 else 0
  {
    CountConcat(a + [x], b, id);
    CountNext(a, x, id);
  }

  /** Merging is chain-ordered, keeps each complete identity exactly once, at its first occurrence, and never
      drops or repeats a log whose identity is incomplete. */
  lemma {:induction false} MergeMeaning(results: seq<seq<Log>>)
    ensures Sorting.SortedBy(ByPosition, Merge(results))
    ensures forall id :: CountIdentity(Merge(results), id) == if id in Identities(Flatten(results)) then 1 else 0
    ensures forall x | IdentityOf(x).None? :: multiset(Merge(results))[x] == multiset(Flatten(results))[x]
    ensures forall x | x in Merge(results) :: x in Flatten(results)
    ensures var all := Flatten(results);
            forall i | 0 <= i < |all| && (forall j | 0 <= j < i :: IdentityOf(all[j]) != IdentityOf(all[i])) ::
              all[i] in Merge(results)
  {
    var all := Flatten(results);
    var kept, merged := Retain(all), Merge(results);
    PositionOrders();
    Sorting.SortSorts(ByPosition, kept);
    Sorting.SortPermutes(ByPosition, kept);
    hide *;
    forall id ensures CountIdentity(merged, id) == if id in Identities(all) then 1 else 0 {
      RetainIdentity(all, id);
      CountOfPermutation(kept, merged, id);
    }
    forall x | IdentityOf(x).None? ensures multiset(merged)[x] == multiset(all)[x] {
      RetainIncomplete(all, x);
    }
    forall i | 0 <= i < |all| && forall j | 0 <= j < i :: IdentityOf(all[j]) != IdentityOf(all[i])
      ensures all[i] in merged
    {
      RetainFirst(all, i);
      assert all[i] in multiset(kept);
    }
    forall x | x in merged ensures x in all {
      assert x in multiset(merged);
      assert x in kept;
      RetainSubset(all, x);
    }
  }

  /** Logs at the same position keep the order in which they arrived, as far as they are kept. */
  lemma {:induction false} MergeKeepsTies(results: seq<seq<Log>>, x: Log)
    ensures Sorting.Ties(ByPosition, x, Merge(results)) == Sorting.Ties(ByPosition, x, Retain(Flatten(results)))
  {
    PositionOrders();
    Sorting.SortStable(ByPosition, Retain(Flatten(results)), x);
  }

  /** The answers are taken one after the other, the first one first. */
  lemma {:induction false} FirstAnswerFirst(first: seq<Log>, rest: seq<seq<Log>>)
    ensures Flatten([first] + rest) == first + Flatten(rest)
    decreases |rest|
  {
    var all := [first] + rest;
    if rest == [] {
      assert all[..0] == [] && Flatten([]) == [] && all == [first];
    } else {
      var init, last := rest[..|rest| - 1], rest[|rest| - 1];
      assert all[..|all| - 1] == [first] + init;
      FirstAnswerFirst(first, init);
      assert Flatten(rest) == Flatten(init) + last;
      assert (first + Flatten(init)) + last == first + (Flatten(init) + last);
    }
  }

  // ----- merging, in terms of the fields

  /** The log says which block, which transaction and which place in its block it comes from. */
  ghost predicate Complete(x: Log) {
    x.blockHash.Some? && x.transactionHash.Some? && x.logIndex.Some?
  }

  ghost predicate Agree(x: Log, y: Log) {
    x.blockHash == y.blockHash && x.transactionHash == y.transactionHash && x.logIndex == y.logIndex
  }

  lemma IdentityIs(x: Log, y: Log)
    ensures IdentityOf(x).Some? <==> Complete(x)
    ensures Complete(x) && Complete(y) ==> (IdentityOf(x) == IdentityOf(y) <==> Agree(x, y))
    ensures Complete(x) && !Complete(y) ==> !Agree(x, y)
  {
  }

  /** A number of 64 bits or nothing. */
  ghost predicate InWord(x: Log) {
    && (x.blockNumber.Some? ==> x.blockNumber.value < U64)
    && (x.transactionIndex.Some? ==> x.transactionIndex.value < U64)
    && (x.logIndex.Some? ==> x.logIndex.value < U64)
  }

  /** What is missing comes last, together with the greatest number. */
  ghost predicate AtMost(a: Option<nat>, b: Option<nat>) {
    b.None? || (if a.Some? then a.value <= b.value else b.value == U64 - 1)
  }

  ghost predicate Less(a: Option<nat>, b: Option<nat>) { !AtMost(b, a) }

  ghost predicate Level(a: Option<nat>, b: Option<nat>) { AtMost(a, b) && AtMost(b, a) }

  /** By block number, then transaction index, then log index. */
  ghost predicate InOrder(a: Log, b: Log) {
    || Less(a.blockNumber, b.blockNumber)
    || (&& Level(a.blockNumber, b.blockNumber)
        && (|| Less(a.transactionIndex, b.transactionIndex)
            || (Level(a.transactionIndex, b.transactionIndex) && AtMost(a.logIndex, b.logIndex))))
  }

  lemma PositionIs(a: Log, b: Log)
    requires InWord(a) && InWord(b)
    ensures ByPosition(a, b) <==> InOrder(a, b)
  {
  }

  lemma {:induction false} CountTwice(s: seq<Log>, i: nat, j: nat, id: Identity)
    requires i < j < |s| && IdentityOf(s[i]) == IdentityOf(s[j]) == Some(id)
    ensures CountIdentity(s, id) >= 2
  {
    hide IdentityOf;
    var init, last := s[..|s| - 1], s[|s| - 1];
    if j < |init| {
      CountTwice(init, i, j, id);
    } else {
      CountOnce(init, i, id);
    }
  }

  lemma {:induction false} CountOnce(s: seq<Log>, i: nat, id: Identity)
    requires i < |s| && IdentityOf(s[i]) == Some(id)
    ensures CountIdentity(s, id) >= 1
  {
    hide IdentityOf;
    if i < |s| - 1 {
      CountOnce(s[..|s| - 1], i, id);
    }
  }

  /** Each log has one in the result that agrees with it. */
  ghost predicate AllHere(all: seq<Log>, merged: seq<Log>) {
    forall x | x in all :: exists y | y in merged :: Agree(x, y)
  }

  ghost predicate NoTwoAgree(logs: seq<Log>) {
    forall i, j | 0 <= i < j < |logs| && Complete(logs[i]) && Complete(logs[j]) :: !Agree(logs[i], logs[j])
  }

  ghost predicate ChainOrdered(logs: seq<Log>) {
    forall i, j | 0 <= i < j < |logs| :: InOrder(logs[i], logs[j])
  }

  /** For any answers: each log has one in the result that agrees with it in block hash, transaction hash and
      log index; no two complete ones of the result agree in them; a log that lacks one of them is kept as often
      as it came; nothing else is there, and the result is in order of block, transaction and log index. */
  lemma {:induction false} MergeByFields(results: seq<seq<Log>>)
    ensures var all, merged := Flatten(results), Merge(results);
            && AllHere(all, merged) && NoTwoAgree(merged)
            && (forall x | !Complete(x) :: multiset(merged)[x] == multiset(all)[x])
            && (forall x | x in merged :: x in all)
            && ((forall x | x in all :: InWord(x)) ==> ChainOrdered(merged))
  {
    var all, merged := Flatten(results), Merge(results);
    MergeMeaning(results);
    hide *;
    AllAgree(all, merged);
    DistinctIdentities(all, merged);
    forall x | !Complete(x) ensures multiset(merged)[x] == multiset(all)[x] {
      IdentityIs(x, x);
    }
    if forall x | x in all :: InWord(x) {
      SortedByFields(merged);
    }
  }

  lemma AllAgree(all: seq<Log>, merged: seq<Log>)
    requires forall id :: CountIdentity(merged, id) == if id in Identities(all) then 1 else 0
    requires forall x | IdentityOf(x).None? :: multiset(merged)[x] == multiset(all)[x]
    ensures AllHere(all, merged)
  {
    hide CountIdentity, Identities, IdentityOf, Agree;
    forall x | x in all ensures exists y | y in merged :: Agree(x, y) {
      MergedAgrees(all, merged, x);
    }
  }

  lemma DistinctIdentities(all: seq<Log>, merged: seq<Log>)
    requires forall id :: CountIdentity(merged, id) == if id in Identities(all) then 1 else 0
    ensures NoTwoAgree(merged)
  {
    hide CountIdentity, Identities, IdentityOf, Agree, Complete;
    forall i, j | 0 <= i < j < |merged| && Complete(merged[i]) && Complete(merged[j])
      ensures !Agree(merged[i], merged[j])
    {
      IdentityIs(merged[i], merged[j]);
      IdentityIs(merged[i], merged[i]);
      if IdentityOf(merged[i]) == IdentityOf(merged[j]) {
        CountTwice(merged, i, j, IdentityOf(merged[i]).value);
      }
    }
  }

  lemma SortedByFields(merged: seq<Log>)
    requires Sorting.SortedBy(ByPosition, merged) && forall x | x in merged :: InWord(x)
    ensures ChainOrdered(merged)
  {
    hide InOrder, InWord, ByPosition;
    forall i, j | 0 <= i < j < |merged| ensures InOrder(merged[i], merged[j]) {
      SortedAt(merged, i, j);
      PositionIs(merged[i], merged[j]);
    }
  }

  lemma SortedAt(s: seq<Log>, i: nat, j: nat)
    requires Sorting.SortedBy(ByPosition, s) && i < j < |s|
    ensures ByPosition(s[i], s[j])
  {
    hide ByPosition;
  }

  lemma MergedAgrees(all: seq<Log>, merged: seq<Log>, x: Log)
    requires x in all
    requires forall id :: CountIdentity(merged, id) == if id in Identities(all) then 1 else 0
    requires IdentityOf(x).None? ==> multiset(merged)[x] == multiset(all)[x]
    ensures exists y | y in merged :: Agree(x, y)
  {
    IdentityIs(x, x);
    hide CountIdentity;
    if Complete(x) {
      var id := IdentityOf(x).value;
      assert id in Identities(all);
      hide IdentityOf, Agree, Complete, Identities;
      CountWitness(merged, id);
      var y :| y in merged && IdentityOf(y) == Some(id);
      IdentityIs(y, y);
      IdentityIs(x, y);
    } else {
      assert x in multiset(all);
      assert x in multiset(merged);
      assert x in merged && Agree(x, x);
    }
  }

  // ----- merging the answers of an honest node

  /** Block `a.blockNumber`, transaction and log index come first. */
  ghost predicate Earlier(a: Log, b: Log)
    requires HasPlace(a) && HasPlace(b)
  {
    || a.blockNumber.value < b.blockNumber.value
    || (&& a.blockNumber == b.blockNumber
        && (|| a.transactionIndex.value < b.transactionIndex.value
            || (a.transactionIndex == b.transactionIndex && a.logIndex.value < b.logIndex.value)))
  }

  ghost predicate HasPlace(x: Log) {
    x.blockNumber.Some? && x.transactionIndex.Some? && x.logIndex.Some?
  }

  /** Every log has all of its fields, they come in strict chain order, and no two agree in block hash,
      transaction hash and log index. */
  ghost predicate WellFormedChain(chain: seq<Log>) {
    && (forall x | x in chain :: HasPlace(x) && Complete(x))
    && (forall i, j | 0 <= i < j < |chain| :: Earlier(chain[i], chain[j]) && !Agree(chain[i], chain[j]))
  }

  lemma WellFormedIsIdentified(chain: seq<Log>)
    requires WellFormedChain(chain)
    ensures Identified(chain)
  {
    forall i, j | 0 <= i < j < |chain|
      ensures ByPosition(chain[i], chain[j]) && !ByPosition(chain[j], chain[i])
    {
      assert Earlier(chain[i], chain[j]);
    }
    forall x | x in chain ensures IdentityOf(x).Some? {
    }
    forall x, y | x in chain && y in chain && IdentityOf(x) == IdentityOf(y) ensures x == y {
      var i :| 0 <= i < |chain| && chain[i] == x;
      var j :| 0 <= j < |chain| && chain[j] == y;
      IdentityIs(x, y);
      hide IdentityOf, ByPosition;
      if i < j { } else if j < i { }
    }
  }

  /** Chain order is strict and every log has an identity of its own. */
  ghost predicate Identified(chain: seq<Log>) {
    && Ordered(chain)
    && (forall x | x in chain :: IdentityOf(x).Some?)
    && (forall x, y | x in chain && y in chain && IdentityOf(x) == IdentityOf(y) :: x == y)
  }

  ghost predicate NoDuplicates(s: seq<Log>) {
    forall i, j | 0 <= i < j < |s| :: s[i] != s[j]
  }

  lemma {:induction false} OccursOnce(s: seq<Log>, x: Log)
    requires NoDuplicates(s)
    ensures multiset(s)[x] == if x in s then 1 else 0
  {
    if s != [] {
      var init, last := s[..|s| - 1], s[|s| - 1];
      OccursOnce(init, x);
      assert s == init + [last];
    }
  }

  lemma {:induction false} CountAtLeast(s: seq<Log>, x: Log, id: Identity)
    requires IdentityOf(x) == Some(id)
    ensures multiset(s)[x] <= CountIdentity(s, id)
  {
    if s != [] {
      var init, last := s[..|s| - 1], s[|s| - 1];
      CountAtLeast(init, x, id);
      assert s == init + [last];
    }
  }

  lemma {:induction false} SelectMembers(q: Query, chain: seq<Log>)
    ensures forall x :: x in Select(q, chain) <==> x in chain && Wanted(q, x)
  {
    if chain != [] {
      hide Wanted;
      var init, last := chain[..|chain| - 1], chain[|chain| - 1];
      SelectMembers(q, init);
      assert chain == init + [last];
    }
  }

  /** The chain's own order, as the order that the merge sorts by. */
  ghost predicate Ordered(s: seq<Log>) {
    forall i, j | 0 <= i < j < |s| :: ByPosition(s[i], s[j]) && !ByPosition(s[j], s[i])
  }

  lemma {:induction false} SelectOrdered(q: Query, chain: seq<Log>)
    requires Ordered(chain)
    ensures Ordered(Select(q, chain))
  {
    if chain != [] {
      hide ByPosition, Wanted;
      var init, last := chain[..|chain| - 1], chain[|chain| - 1];
      SelectOrdered(q, init);
      SelectMembers(q, init);
      var sel := Select(q, init);
      forall i | 0 <= i < |sel| ensures ByPosition(sel[i], last) && !ByPosition(last, sel[i]) {
        assert sel[i] in init;
        var k :| 0 <= k < |init| && init[k] == sel[i];
        assert chain[k] == sel[i];
      }
    }
  }

  lemma {:induction false} SelectMeaning(q: Query, chain: seq<Log>)
    requires WellFormedChain(chain)
    ensures forall x :: x in Select(q, chain) <==> x in chain && Wanted(q, x)
    ensures NoDuplicates(Select(q, chain)) && Sorting.SortedBy(ByPosition, Select(q, chain))
    ensures Sorting.KeysDistinct(ByPosition, Select(q, chain))
    ensures WellFormedChain(Select(q, chain))
  {
    SelectMembers(q, chain);
    hide Select, ByPosition, Wanted;
    WellFormedIsIdentified(chain);
    SelectOrdered(q, chain);
    OrderedMeans(Select(q, chain));
    SelectWellFormed(q, chain);
  }

  lemma {:induction false} SelectWellFormed(q: Query, chain: seq<Log>)
    requires WellFormedChain(chain)
    ensures WellFormedChain(Select(q, chain))
  {
    hide Wanted, Earlier, Agree, Complete, HasPlace;
    if chain != [] {
      var init, last := chain[..|chain| - 1], chain[|chain| - 1];
      assert forall i | 0 <= i < |init| :: init[i] == chain[i];
      SelectWellFormed(q, init);
      SelectMembers(q, init);
      var sel := Select(q, init);
      forall i | 0 <= i < |sel|
        ensures HasPlace(sel[i]) && HasPlace(last) && Earlier(sel[i], last) && !Agree(sel[i], last)
      {
        assert sel[i] in init;
        var k :| 0 <= k < |init| && init[k] == sel[i];
        assert chain[k] in chain && last in chain;
        assert Earlier(chain[k], chain[|chain| - 1]);
      }
    }
  }

  lemma OrderedMeans(s: seq<Log>)
    requires Ordered(s)
    ensures NoDuplicates(s) && Sorting.SortedBy(ByPosition, s) && Sorting.KeysDistinct(ByPosition, s)
  {
    forall i, j | 0 <= i < |s| && 0 <= j < |s| && ByPosition(s[i], s[j]) && ByPosition(s[j], s[i])
      ensures s[i] == s[j]
    {
      if i < j { } else if j < i { }
    }
    forall i, j | 0 <= i < j < |s| ensures s[i] != s[j] {
      PositionOrders();
      assert ByPosition(s[i], s[j]) && !ByPosition(s[j], s[i]);
    }
  }

  lemma RetainedOnce(all: seq<Log>, chain: seq<Log>, x: Log)
    requires Identified(chain) && forall y | y in all :: y in chain
    ensures multiset(Retain(all))[x] == if x in all then 1 else 0
  {
    var kept := Retain(all);
    RetainSubset(all, x);
    if x in all {
      var id := IdentityOf(x).value;
      RetainIdentity(all, id);
      CountAtLeast(kept, x, id);
      assert id in Identities(all);
      CountWitness(kept, id);
      var y :| y in kept && IdentityOf(y) == Some(id);
      RetainSubset(all, y);
      assert y == x;
    } else {
      assert x !in kept;
    }
  }

  lemma {:induction false} CountWitness(s: seq<Log>, id: Identity)
    requires CountIdentity(s, id) > 0
    ensures exists y :: y in s && IdentityOf(y) == Some(id)
  {
    var init, last := s[..|s| - 1], s[|s| - 1];
    assert last in s;
    if IdentityOf(last) != Some(id) {
      CountWitness(init, id);
      var y :| y in init && IdentityOf(y) == Some(id);
      assert y in s;
    }
  }

  /** Answers that hold exactly the wanted logs, split and repeated in any way, merge to exactly the wanted
      part of the chain. */
  lemma {:induction false} MergedIsSelected(q: Query, chain: seq<Log>, results: seq<seq<Log>>)
    requires WellFormedChain(chain)
    requires forall x :: x in Flatten(results) <==> x in chain && Wanted(q, x)
    ensures Merge(results) == Select(q, chain)
  {
    var all, sel := Flatten(results), Select(q, chain);
    var kept := Retain(all);
    SelectMeaning(q, chain);
    WellFormedIsIdentified(chain);
    hide Select, Retain, Flatten, ByPosition, WellFormedChain, Wanted, Identified;
    forall x ensures multiset(kept)[x] == multiset(sel)[x] {
      RetainedOnce(all, chain, x);
      OccursOnce(sel, x);
    }
    assert multiset(kept) == multiset(sel);
    PositionOrders();
    Sorting.SortIgnoresOrder(ByPosition, sel, kept);
    Sorting.SortKeepsSorted(ByPosition, sel);
  }

  // ----- the query

  function UnionOf(chunks: seq<set<nat>>): set<nat> {
    if chunks == [] then {} else UnionOf(chunks[..|chunks| - 1]) + chunks[|chunks| - 1]
  }

  /** Disjoint chunks, none empty, all of them full except perhaps the last. */
  ghost predicate Chunked(chunks: seq<set<nat>>, chunkSize: nat) {
    && (forall i, j | 0 <= i < j < |chunks| :: chunks[i] !! chunks[j])
    && (forall i | 0 <= i < |chunks| :: 0 < |chunks[i]| <= chunkSize && chunks[i] <= UnionOf(chunks))
    && (forall i | 0 <= i < |chunks| - 1 :: |chunks[i]| == chunkSize)
  }

  ghost predicate LastFull(chunks: seq<set<nat>>, chunkSize: nat) {
    chunks != [] ==> |chunks[|chunks| - 1]| == chunkSize
  }

  lemma ChunkedNext(chunks: seq<set<nat>>, chunk: set<nat>, chunkSize: nat)
    requires Chunked(chunks, chunkSize) && LastFull(chunks, chunkSize)
    requires chunk !! UnionOf(chunks) && 0 < |chunk| <= chunkSize
    ensures Chunked(chunks + [chunk], chunkSize)
    ensures |chunk| == chunkSize ==> LastFull(chunks + [chunk], chunkSize)
    ensures UnionOf(chunks + [chunk]) == UnionOf(chunks) + chunk
  {
    UnionNext(chunks, chunk);
    hide UnionOf;
  }

  lemma UnionNext(chunks: seq<set<nat>>, chunk: set<nat>)
    ensures UnionOf(chunks + [chunk]) == UnionOf(chunks) + chunk
  {
    assert (chunks + [chunk])[..|chunks|] == chunks;
  }

  /** Cuts a set into chunks, in whatever order the set is visited. */
  method ChunkSet(items: set<nat>, chunkSize: nat) returns (chunks: seq<set<nat>>)
    requires chunkSize >= 1
    ensures UnionOf(chunks) == items && Chunked(chunks, chunkSize)
  {
    hide *;
    chunks := [];
    NoChunks(items, chunkSize);
    var current: set<nat> := {};
    var rest := items;
    ghost var used: set<nat> := {};
    while rest != {}
      invariant used == UnionOf(chunks) && Chunked(chunks, chunkSize) && LastFull(chunks, chunkSize)
      invariant |current| < chunkSize
      invariant Split(items, used, current, rest)
      decreases |rest|
    {
      var item :| item in rest;
      SplitNext(items, used, current, rest, item);
      rest := rest - {item};
      current := current + {item};
      if |current| == chunkSize {
        SplitDisjoint(items, used, current, rest);
        ChunkedNext(chunks, current, chunkSize);
        chunks := chunks + [current];
        used := used + current;
        current := {};
      }
    }
    SplitDisjoint(items, used, current, rest);
    if current != {} {
      ChunkedNext(chunks, current, chunkSize);
      chunks := chunks + [current];
    }
  }

  lemma NoChunks(items: set<nat>, chunkSize: nat)
    ensures UnionOf([]) == {} && Chunked([], chunkSize) && LastFull([], chunkSize)
    ensures Split(items, {}, {}, items)
  {
  }

  lemma SplitDisjoint(items: set<nat>, used: set<nat>, current: set<nat>, rest: set<nat>)
    requires Split(items, used, current, rest)
    ensures current !! used
    ensures rest == {} ==> items == used + current
    ensures current != {} ==> |current| > 0
  {
  }

  /** The items are those used, those in the current chunk and those not visited yet. */
  ghost predicate Split(items: set<nat>, used: set<nat>, current: set<nat>, rest: set<nat>) {
    items == used + current + rest && used !! current && used !! rest && current !! rest
  }

  lemma SplitNext(items: set<nat>, used: set<nat>, current: set<nat>, rest: set<nat>, item: nat)
    requires Split(items, used, current, rest) && item in rest
    ensures Split(items, used, current + {item}, rest - {item})
    ensures Split(items, used + (current + {item}), {}, rest - {item})
    ensures |current + {item}| == |current| + 1 && |rest - {item}| < |rest|
  {
  }

  method GetLogsForAddressInBatches(node: Node, f: Filter, addresses: set<nat>, chunkSize: nat, ghost chain: seq<Log>)
    returns (r: Option<seq<Log>>)
    requires chunkSize >= 1
    ensures r.None? ==> exists g :: node.answer(g).None?
    ensures r.Some? && Honest(node, chain) ==> ExactLogs(f.(addresses := Some(addresses)), chain, r.value)
  {
    var chunks := ChunkSet(addresses, chunkSize);
    var logs := [];
    for i := 0 to |chunks|
      invariant Honest(node, chain) ==> ExactLogs(f.(addresses := Some(UnionOf(chunks[..i]))), chain, logs)
    {
      var sub := f.(addresses := Some(chunks[i]));
      var reply := node.answer(sub);
      if reply.None? {
        return None;
      }
      assert chunks[..i + 1][..i] == chunks[..i];
      logs := logs + reply.value;
    }
    assert chunks[..|chunks|] == chunks;
    return Some(logs);
  }

  function KeepAddresses(logs: seq<Log>, addresses: set<nat>): (r: seq<Log>)
    ensures forall x :: x in r <==> x in logs && x.address in addresses
  {
    if logs == [] then []
    else if logs[0].address in addresses then [logs[0]] + KeepAddresses(logs[1..], addresses)
    else KeepAddresses(logs[1..], addresses)
  }

  method GetLogsForAddressInMemory(node: Node, f: Filter, addresses: set<nat>, ghost chain: seq<Log>)
    returns (r: Option<seq<Log>>)
    requires f.addresses.None?
    ensures r.None? ==> exists g :: node.answer(g).None?
    ensures r.Some? && Honest(node, chain) ==> ExactLogs(f.(addresses := Some(addresses)), chain, r.value)
  {
    var reply := node.answer(f);
    if reply.None? {
      return None;
    }
    return Some(KeepAddresses(reply.value, addresses));
  }

  function Alternative(q: Query, i: nat): Filter
    requires i < |q.alternatives|
  {
    Filter(q.signature, q.alternatives[i], q.fromBlock, q.toBlock, q.addresses)
  }

  ghost predicate Collected(q: Query, chain: seq<Log>, n: nat, logs: seq<Log>)
    requires n <= |q.alternatives|
  {
    forall x :: x in logs <==> x in chain && exists i | 0 <= i < n :: Matches(Alternative(q, i), x)
  }

  lemma CollectedNext(q: Query, chain: seq<Log>, n: nat, logs: seq<Log>, more: seq<Log>)
    requires n < |q.alternatives| && Collected(q, chain, n, logs) && ExactLogs(Alternative(q, n), chain, more)
    ensures Collected(q, chain, n + 1, logs + more)
  {
  }

  lemma CollectedAll(q: Query, chain: seq<Log>, logs: seq<Log>)
    requires Collected(q, chain, |q.alternatives|, logs)
    ensures forall x :: x in logs <==> x in chain && Wanted(q, x)
  {
    forall x ensures x in logs <==> x in chain && Wanted(q, x) {
      if Wanted(q, x) {
        var i :| 0 <= i < |q.alternatives| && TopicsMatch(q.alternatives[i], x);
        assert Matches(Alternative(q, i), x);
      }
    }
  }

  /** Nothing but wanted logs, each wanted log or one that agrees with it in block hash, transaction hash and log
      index, no two complete ones that agree in them, no incomplete one lost, in chain order. */
  ghost predicate AnswersUpToIdentity(q: Query, chain: seq<Log>, logs: seq<Log>) {
    && (forall x | x in logs :: x in chain && Wanted(q, x))
    && (forall x | x in chain && Wanted(q, x) :: exists y | y in logs :: Agree(x, y))
    && (forall x | x in chain && Wanted(q, x) && !Complete(x) :: x in logs)
    && NoTwoAgree(logs)
    && ((forall x | x in chain :: InWord(x)) ==> ChainOrdered(logs))
  }

  lemma MergedAnswers(q: Query, chain: seq<Log>, results: seq<seq<Log>>)
    requires forall x :: x in Flatten(results) <==> x in chain && Wanted(q, x)
    ensures AnswersUpToIdentity(q, chain, Merge(results))
  {
    var all, logs := Flatten(results), Merge(results);
    hide Flatten, Merge, Wanted, Agree, Complete, InWord, InOrder, NoTwoAgree, ChainOrdered;
    MergeByFields(results);
    forall x | x in chain && Wanted(q, x) && !Complete(x) ensures x in logs {
      assert multiset(logs)[x] == multiset(all)[x] && x in multiset(all);
      assert x in multiset(logs);
    }
  }

  /** The split query is the whole query: for every chunk size, for filtering in memory and for any order of
      alternatives, and whatever the node repeats or reorders. A failed request fails the query. */
  method GetLogs(node: Node, q: Query, filtering: Option<AddressFiltering>, ghost chain: seq<Log>)
    returns (r: Option<seq<Log>>)
    requires filtering.Some? && filtering.value.MaxAddressPerRequest? ==> filtering.value.chunkSize >= 1
    ensures r.None? ==> exists g :: node.answer(g).None?
    ensures r.Some? && Honest(node, chain) ==> AnswersUpToIdentity(q, chain, r.value)
    ensures r.Some? && Honest(node, chain) && WellFormedChain(chain) ==> r.value == Select(q, chain)
  {
    if q.addresses == Some({}) {
      EmptyAddresses(q, chain);
      return Some([]);
    }
    var results := [];
    for i := 0 to |q.alternatives|
      invariant Honest(node, chain) ==> Collected(q, chain, i, Flatten(results))
    {
      var f := Alternative(q, i).(addresses := None);
      var result;
      if q.addresses.Some? {
        var addresses := q.addresses.value;
        match filtering {
          case Some(InMemory) =>
            result := GetLogsForAddressInMemory(node, f, addresses, chain);
          case Some(MaxAddressPerRequest(chunkSize)) =>
            result := GetLogsForAddressInBatches(node, f, addresses, chunkSize, chain);
          case None =>
            result := GetLogsForAddressInBatches(node, f, addresses, DEFAULT_ACCOUNT_FILTERS, chain);
        }
      } else {
        result := node.answer(f);
      }
      if result.None? {
        return None;
      }
      assert (results + [result.value])[..|results|] == results;
      if Honest(node, chain) {
        CollectedNext(q, chain, i, Flatten(results), result.value);
      }
      results := results + [result.value];
    }
    var merged := MergeFilterLogs(results);
    if Honest(node, chain) {
      CollectedAll(q, chain, Flatten(results));
      MergedAnswers(q, chain, results);
      if WellFormedChain(chain) {
        MergedIsSelected(q, chain, results);
      }
    }
    return Some(merged);
  }

  lemma {:induction false} EmptyAddresses(q: Query, chain: seq<Log>)
    requires q.addresses == Some({})
    ensures Select(q, chain) == [] && AnswersUpToIdentity(q, chain, [])
  {
    if chain != [] {
      EmptyAddresses(q, chain[..|chain| - 1]);
    }
  }
}
