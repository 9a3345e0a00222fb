/** Flattening the call trees of `debug_traceBlockByNumber` with an explicit stack. */
module TraceFlattening {
  import opened Options

  /** A call and the calls it made; `info` stands for the fields that are copied through. */
  datatype TraceCall = TraceCall(from: nat, to: Option<nat>, info: nat, calls: seq<TraceCall>)

  datatype TraceCallFrame = TraceCallFrame(txHash: Option<nat>, result: TraceCall)

  datatype LocalizedTrace = LocalizedTrace(txHash: Option<nat>, blockNumber: nat, from: nat, to: nat, info: nat)

  function Strip(call: TraceCall): TraceCall { call.(calls := []) }

  // ----- what the order is

  /** Root first, then the subtrees from the last child to the first. */
  function LastToFirst(forest: seq<TraceCall>): seq<TraceCall> {
    if forest == [] then []
    else
      var init, last := forest[..|forest| - 1], forest[|forest| - 1];
      [Strip(last)] + LastToFirst(last.calls) + LastToFirst(init)
  }

  /** Textbook preorder, children first to last. */
  ghost function Preorder(forest: seq<TraceCall>): seq<TraceCall> {
    if forest == [] then []
    else [Strip(forest[0])] + Preorder(forest[0].calls) + Preorder(forest[1..])
  }

  /** Every list of children turned around, at every depth. */
  ghost function Mirror(forest: seq<TraceCall>): (r: seq<TraceCall>)
    ensures |r| == |forest|
  {
    if forest == [] then []
    else
      var init, last := forest[..|forest| - 1], forest[|forest| - 1];
      [last.(calls := Mirror(last.calls))] + Mirror(init)
  }

  /** The nodes of a forest, as a bag, counted along the tree. */
  ghost function Nodes(forest: seq<TraceCall>): multiset<TraceCall> {
    if forest == [] then multiset{}
    else multiset{Strip(forest[0])} + Nodes(forest[0].calls) + Nodes(forest[1..])
  }

  function Size(forest: seq<TraceCall>): nat {
    if forest == [] then 0
    else Size(forest[..|forest| - 1]) + 1 + Size(forest[|forest| - 1].calls)
  }

  // ----- the stack

  lemma {:induction false} LastToFirstConcat(a: seq<TraceCall>, b: seq<TraceCall>)
    ensures LastToFirst(a + b) == LastToFirst(b) + LastToFirst(a)
    decreases |b|
  {
    hide LastToFirst;
    if b == [] {
      assert a + b == a;
      assert LastToFirst([]) == [] by { NoNodes(); }
    } else {
      var init, last := b[..|b| - 1], b[|b| - 1];
      assert b == init + [last] && a + b == (a + init) + [last];
      LastToFirstConcat(a, init);
      LastToFirstSnoc(init, last);
      LastToFirstSnoc(a + init, last);
      var x, y, z := [Strip(last)] + LastToFirst(last.calls), LastToFirst(init), LastToFirst(a);
      assert x + (y + z) == x + y + z;
    }
  }

  lemma {:induction false} SizeConcat(a: seq<TraceCall>, b: seq<TraceCall>)
    ensures Size(a + b) == Size(a) + Size(b)
    decreases |b|
  {
    hide Size;
    if b == [] {
      assert a + b == a;
      assert Size([]) == 0 by { NoNodes(); }
    } else {
      var init, last := b[..|b| - 1], b[|b| - 1];
      assert b == init + [last] && a + b == (a + init) + [last];
      SizeConcat(a, init);
      SizeSnoc(init, last);
      SizeSnoc(a + init, last);
    }
  }

  /** The frames below one root: the stack is popped from its end and the popped call's children go on top. */
  method FlattenCalls(calls: seq<TraceCall>) returns (flattened: seq<TraceCall>)
    ensures flattened == LastToFirst(calls)
  {
    flattened := [];
    var stack := calls;
    assert flattened + LastToFirst(stack) == LastToFirst(calls) && LastToFirst([]) == [];
    hide LastToFirst, Size;
    while stack != []
      invariant flattened + LastToFirst(stack) == LastToFirst(calls)
      decreases Size(stack)
    {
      var init, call := stack[..|stack| - 1], stack[|stack| - 1];
      assert stack == init + [call];
      PopCall(flattened, init, call);
      stack := init;
      flattened := flattened + [Strip(call)];
      stack := stack + call.calls;
    }
  }

  lemma PopCall(flattened: seq<TraceCall>, init: seq<TraceCall>, call: TraceCall)
    ensures flattened + LastToFirst(init + [call]) == flattened + [Strip(call)] + LastToFirst(init + call.calls)
    ensures Size(init + [call]) == Size(init + call.calls) + 1
  {
    SizeSnoc(init, call);
    hide LastToFirst, Size;
    LastToFirstSnoc(init, call);
    LastToFirstConcat(init, call.calls);
    SizeConcat(init, call.calls);
    Regroup(flattened, Strip(call), LastToFirst(call.calls), LastToFirst(init));
  }

  lemma SizeSnoc(init: seq<TraceCall>, call: TraceCall)
    ensures Size(init + [call]) == Size(init) + 1 + Size(call.calls)
  {
    assert (init + [call])[..|init|] == init;
  }

  lemma Regroup(a: seq<TraceCall>, x: TraceCall, y: seq<TraceCall>, z: seq<TraceCall>)
    ensures a + ([x] + y + z) == a + [x] + (y + z)
  {
  }

  function Unhashed(calls: seq<TraceCall>): (r: seq<TraceCallFrame>)
    ensures |r| == |calls| && forall i | 0 <= i < |r| :: r[i] == TraceCallFrame(None, calls[i])
  {
    if calls == [] then [] else Unhashed(calls[..|calls| - 1]) + [TraceCallFrame(None, calls[|calls| - 1])]
  }

  /** Only a root carries the transaction hash. */
  function Frames(traces: seq<TraceCallFrame>): seq<TraceCallFrame> {
    if traces == [] then []
    else
      var init, last := traces[..|traces| - 1], traces[|traces| - 1];
      Frames(init) + [TraceCallFrame(last.txHash, Strip(last.result))] + Unhashed(LastToFirst(last.result.calls))
  }

  /** Frames without a callee are dropped. */
  function Localize(frames: seq<TraceCallFrame>, block: nat): seq<LocalizedTrace> {
    if frames == [] then []
    else
      var init, last := frames[..|frames| - 1], frames[|frames| - 1];
      Localize(init, block) +
      if last.result.to.Some?
      then [LocalizedTrace(last.txHash, block, last.result.from, last.result.to.value, last.result.info)]
      else []
  }

  method DebugTraceBlock(traces: seq<TraceCallFrame>, block: nat) returns (r: seq<LocalizedTrace>)
    ensures r == Localize(Frames(traces), block)
  {
    var flattened: seq<TraceCallFrame> := [];
    for i := 0 to |traces|
      invariant flattened == Frames(traces[..i])
    {
      var trace := traces[i];
      assert traces[..i + 1][..i] == traces[..i];
      flattened := flattened + [TraceCallFrame(trace.txHash, Strip(trace.result))];
      var below := FlattenCalls(trace.result.calls);
      flattened := flattened + Unhashed(below);
    }
    assert traces[..|traces|] == traces;
    r := Localize(flattened, block);
  }

  // ----- laws

  /** The stack order is the preorder of the mirrored forest. */
  lemma {:induction false} LastToFirstIsMirroredPreorder(forest: seq<TraceCall>)
    ensures LastToFirst(forest) == Preorder(Mirror(forest))
  {
    if forest != [] {
      var init, last := forest[..|forest| - 1], forest[|forest| - 1];
      LastToFirstIsMirroredPreorder(init);
      LastToFirstIsMirroredPreorder(last.calls);
      var m := Mirror(forest);
      assert m[1..] == Mirror(init) && m[0].calls == Mirror(last.calls);
    }
  }

  lemma {:induction false} NodesSnoc(init: seq<TraceCall>, last: TraceCall)
    ensures Nodes(init + [last]) == Nodes(init) + multiset{Strip(last)} + Nodes(last.calls)
    decreases |init|
  {
    if init == [] {
      assert [last][1..] == [];
      assert init + [last] == [last];
    } else {
      assert (init + [last])[1..] == init[1..] + [last];
      NodesSnoc(init[1..], last);
    }
  }

  /** Every node of the forest is emitted exactly once, whatever the shape of the trees. */
  lemma {:induction false} OneFrameForEveryNode(forest: seq<TraceCall>)
    ensures multiset(LastToFirst(forest)) == Nodes(forest)
    ensures |LastToFirst(forest)| == Size(forest)
  {
    hide LastToFirst, Nodes, Size;
    if forest == [] {
      NoNodes();
    } else {
      var init, last := forest[..|forest| - 1], forest[|forest| - 1];
      assert init + [last] == forest;
      OneFrameForEveryNode(init);
      OneFrameForEveryNode(last.calls);
      BagOfThree(Strip(last), LastToFirst(last.calls), LastToFirst(init));
      SnocNodes(init, last, forest);
    }
  }

  lemma NoNodes()
    ensures LastToFirst([]) == [] && Nodes([]) == multiset{} && Size([]) == 0
  {
  }

  lemma SnocNodes(init: seq<TraceCall>, last: TraceCall, forest: seq<TraceCall>)
    requires init + [last] == forest
    ensures LastToFirst(forest) == [Strip(last)] + LastToFirst(last.calls) + LastToFirst(init)
    ensures Nodes(forest) == Nodes(init) + multiset{Strip(last)} + Nodes(last.calls)
    ensures Size(forest) == Size(init) + 1 + Size(last.calls)
  {
    NodesSnoc(init, last);
    LastToFirstSnoc(init, last);
    SizeSnoc(init, last);
  }

  lemma BagOfThree(x: TraceCall, y: seq<TraceCall>, z: seq<TraceCall>)
    ensures multiset([x] + y + z) == multiset{x} + multiset(y) + multiset(z)
    ensures |[x] + y + z| == 1 + |y| + |z|
  {
  }

  lemma LastToFirstSnoc(init: seq<TraceCall>, last: TraceCall)
    ensures LastToFirst(init + [last]) == [Strip(last)] + LastToFirst(last.calls) + LastToFirst(init)
  {
    assert (init + [last])[..|init|] == init;
  }

  ghost function Roots(traces: seq<TraceCallFrame>): seq<TraceCall> {
    if traces == [] then [] else Roots(traces[..|traces| - 1]) + [traces[|traces| - 1].result]
  }

  ghost function Calls(frames: seq<TraceCallFrame>): multiset<TraceCall> {
    if frames == [] then multiset{} else Calls(frames[..|frames| - 1]) + multiset{frames[|frames| - 1].result}
  }

  lemma {:induction false} CallsConcat(a: seq<TraceCallFrame>, b: seq<TraceCallFrame>)
    ensures Calls(a + b) == Calls(a) + Calls(b)
    decreases |b|
  {
    if b == [] {
      assert a + b == a;
    } else {
      assert (a + b)[..|a + b| - 1] == a + b[..|b| - 1];
      CallsConcat(a, b[..|b| - 1]);
    }
  }

  lemma {:induction false} UnhashedCalls(calls: seq<TraceCall>)
    ensures Calls(Unhashed(calls)) == multiset(calls)
  {
    if calls != [] {
      var init, last := calls[..|calls| - 1], calls[|calls| - 1];
      UnhashedCalls(init);
      var u := Unhashed(calls);
      assert u[..|u| - 1] == Unhashed(init);
      assert calls == init + [last];
    }
  }

  /** A block's frames are the nodes of all its call trees, each exactly once. */
  lemma {:induction false} FramesConserveNodes(traces: seq<TraceCallFrame>)
    ensures Calls(Frames(traces)) == Nodes(Roots(traces))
  {
    if traces != [] {
      var init, last := traces[..|traces| - 1], traces[|traces| - 1];
      FramesConserveNodes(init);
      NodesSnoc(Roots(init), last.result);
      var root, below := [TraceCallFrame(last.txHash, Strip(last.result))], LastToFirst(last.result.calls);
      CallsConcat(Frames(init) + root, Unhashed(below));
      CallsConcat(Frames(init), root);
      OneRoot(root[0]);
      UnhashedCalls(below);
      OneFrameForEveryNode(last.result.calls);
    }
  }

  lemma OneRoot(frame: TraceCallFrame)
    ensures Calls([frame]) == multiset{frame.result}
  {
    assert [frame][..0] == [];
  }

  function Hashed(frames: seq<TraceCallFrame>): seq<nat> {
    if frames == [] then []
    else
      var last := frames[|frames| - 1];
      Hashed(frames[..|frames| - 1]) + if last.txHash.Some? then [last.txHash.value] else []
  }

  lemma {:induction false} HashedConcat(a: seq<TraceCallFrame>, b: seq<TraceCallFrame>)
    ensures Hashed(a + b) == Hashed(a) + Hashed(b)
    decreases |b|
  {
    if b == [] {
      assert a + b == a;
    } else {
      assert (a + b)[..|a + b| - 1] == a + b[..|b| - 1];
      HashedConcat(a, b[..|b| - 1]);
    }
  }

  lemma {:induction false} NothingHashed(calls: seq<TraceCall>)
    ensures Hashed(Unhashed(calls)) == []
  {
    if calls != [] {
      NothingHashed(calls[..|calls| - 1]);
      var u := Unhashed(calls);
      assert u[..|u| - 1] == Unhashed(calls[..|calls| - 1]);
    }
  }

  /** The transaction hashes in the output are those of the roots, in block order, and no others. */
  lemma {:induction false} HashesComeFromRoots(traces: seq<TraceCallFrame>)
    ensures Hashed(Frames(traces)) == Hashed(traces)
  {
    if traces != [] {
      var init, last := traces[..|traces| - 1], traces[|traces| - 1];
      HashesComeFromRoots(init);
      var root, below := [TraceCallFrame(last.txHash, Strip(last.result))], LastToFirst(last.result.calls);
      HashedConcat(Frames(init) + root, Unhashed(below));
      HashedConcat(Frames(init), root);
      NothingHashed(below);
      assert root[..0] == [];
    }
  }

  /** The trace of one call, if it names a callee. */
  ghost function TraceOf(txHash: Option<nat>, call: TraceCall, block: nat): multiset<LocalizedTrace> {
    if call.to.Some? then multiset{LocalizedTrace(txHash, block, call.from, call.to.value, call.info)} else multiset{}
  }

  /** The traces of a forest below its root, counted along the trees: one for every node with a callee, none
      of them with a hash. */
  ghost function TreeTraces(forest: seq<TraceCall>, block: nat): multiset<LocalizedTrace> {
    if forest == [] then multiset{}
    else TraceOf(None, forest[0], block) + TreeTraces(forest[0].calls, block) + TreeTraces(forest[1..], block)
  }

  /** The traces of a block: those of the roots with their hashes, and those of the trees below them. */
  ghost function RootTraces(traces: seq<TraceCallFrame>, block: nat): multiset<LocalizedTrace> {
    if traces == [] then multiset{}
    else
      var last := traces[|traces| - 1];
      RootTraces(traces[..|traces| - 1], block)
      + TraceOf(last.txHash, last.result, block) + TreeTraces(last.result.calls, block)
  }

  lemma {:induction false} TreeTracesSnoc(init: seq<TraceCall>, last: TraceCall, block: nat)
    ensures TreeTraces(init + [last], block) ==
            TreeTraces(init, block) + TraceOf(None, last, block) + TreeTraces(last.calls, block)
    decreases |init|
  {
    hide TraceOf;
    if init == [] {
      assert [last][1..] == [];
      assert init + [last] == [last];
    } else {
      assert (init + [last])[1..] == init[1..] + [last];
      TreeTracesSnoc(init[1..], last, block);
    }
  }

  lemma {:induction false} LocalizeConcat(a: seq<TraceCallFrame>, b: seq<TraceCallFrame>, block: nat)
    ensures Localize(a + b, block) == Localize(a, block) + Localize(b, block)
    decreases |b|
  {
    if b == [] {
      assert a + b == a;
    } else {
      assert (a + b)[..|a + b| - 1] == a + b[..|b| - 1];
      LocalizeConcat(a, b[..|b| - 1], block);
    }
  }

  lemma LocalizeOne(frame: TraceCallFrame, block: nat)
    ensures multiset(Localize([frame], block)) == TraceOf(frame.txHash, frame.result, block)
  {
    assert [frame][..0] == [];
  }

  lemma UnhashedConcat(a: seq<TraceCall>, b: seq<TraceCall>)
    ensures Unhashed(a + b) == Unhashed(a) + Unhashed(b)
  {
  }

  lemma UnhashedTraces(x: TraceCall, y: seq<TraceCall>, z: seq<TraceCall>, block: nat)
    ensures multiset(Localize(Unhashed([x] + y + z), block)) ==
            TraceOf(None, x, block) + multiset(Localize(Unhashed(y), block)) + multiset(Localize(Unhashed(z), block))
  {
    hide Localize, TraceOf;
    UnhashedConcat([x] + y, z);
    UnhashedConcat([x], y);
    assert Unhashed([x]) == [TraceCallFrame(None, x)];
    LocalizeConcat(Unhashed([x] + y), Unhashed(z), block);
    LocalizeConcat(Unhashed([x]), Unhashed(y), block);
    LocalizeOne(TraceCallFrame(None, x), block);
  }

  /** What the stack emits below a root is the traces of the trees there. */
  lemma {:induction false} BelowRoot(forest: seq<TraceCall>, block: nat)
    ensures multiset(Localize(Unhashed(LastToFirst(forest)), block)) == TreeTraces(forest, block)
  {
    hide *;
    if forest == [] {
      NothingBelow(block);
    } else {
      var init, last := forest[..|forest| - 1], forest[|forest| - 1];
      BelowRoot(init, block);
      BelowRoot(last.calls, block);
      assert forest == init + [last];
      BelowNext(init, last, block);
    }
  }

  lemma NothingBelow(block: nat)
    ensures multiset(Localize(Unhashed(LastToFirst([])), block)) == TreeTraces([], block)
  {
    assert LastToFirst([]) == [] && Unhashed([]) == [];
  }

  lemma StrippedTrace(call: TraceCall, block: nat)
    ensures TraceOf(None, Strip(call), block) == TraceOf(None, call, block)
  {
  }

  lemma BelowNext(init: seq<TraceCall>, last: TraceCall, block: nat)
    requires multiset(Localize(Unhashed(LastToFirst(init)), block)) == TreeTraces(init, block)
    requires multiset(Localize(Unhashed(LastToFirst(last.calls)), block)) == TreeTraces(last.calls, block)
    ensures multiset(Localize(Unhashed(LastToFirst(init + [last])), block)) == TreeTraces(init + [last], block)
  {
    hide *;
    TreeTracesSnoc(init, last, block);
    LastToFirstSnoc(init, last);
    StrippedTrace(last, block);
    UnhashedTraces(Strip(last), LastToFirst(last.calls), LastToFirst(init), block);
  }

  lemma RootAndBelow(before: seq<TraceCallFrame>, root: TraceCallFrame, below: seq<TraceCallFrame>, block: nat)
    ensures multiset(Localize(before + [root] + below, block)) ==
            multiset(Localize(before, block)) + TraceOf(root.txHash, root.result, block) +
              multiset(Localize(below, block))
  {
    hide *;
    LocalizeConcat(before + [root], below, block);
    LocalizeConcat(before, [root], block);
    LocalizeOne(root, block);
  }

  /** The traces of a block are exactly its tree nodes with a callee, each once with its own fields; the roots'
      ones carry their transaction's hash and the others none. */
  lemma {:induction false} TracesAreCallees(traces: seq<TraceCallFrame>, block: nat)
    ensures multiset(Localize(Frames(traces), block)) == RootTraces(traces, block)
  {
    if traces != [] {
      var init, last := traces[..|traces| - 1], traces[|traces| - 1];
      TracesAreCallees(init, block);
      var root, below := TraceCallFrame(last.txHash, Strip(last.result)), Unhashed(LastToFirst(last.result.calls));
      assert Frames(traces) == Frames(init) + [root] + below;
      assert TraceOf(root.txHash, root.result, block) == TraceOf(last.txHash, last.result, block);
      hide LastToFirst, Localize, TraceOf, TreeTraces, Frames, Unhashed;
      RootAndBelow(Frames(init), root, below, block);
      BelowRoot(last.result.calls, block);
    }
  }

  /** The number of frames that come before root `i`. */
  ghost function Offset(traces: seq<TraceCallFrame>, i: nat): nat
    requires i <= |traces|
  {
    if i == 0 then 0 else Offset(traces, i - 1) + 1 + Size(traces[i - 1].result.calls)
  }

  lemma {:induction false} FramesPrefix(traces: seq<TraceCallFrame>, i: nat)
    requires i <= |traces|
    ensures |Frames(traces[..i])| == Offset(traces, i) <= |Frames(traces)| && Frames(traces[..i]) <= Frames(traces)
    decreases |traces| - i
  {
    FramesCount(traces, i);
    if i == |traces| {
      assert traces[..i] == traces;
    } else {
      FramesPrefix(traces, i + 1);
      FramesNext(traces, i);
      hide Frames, Offset;
      assert Frames(traces[..i]) <= Frames(traces[..i + 1]) <= Frames(traces);
    }
  }

  lemma FramesNext(traces: seq<TraceCallFrame>, i: nat)
    requires i < |traces|
    ensures var trace := traces[i];
            Frames(traces[..i + 1]) == Frames(traces[..i]) + [TraceCallFrame(trace.txHash, Strip(trace.result))]
                                       + Unhashed(LastToFirst(trace.result.calls))
  {
    hide Unhashed, LastToFirst;
    assert traces[..i + 1][..i] == traces[..i];
  }

  lemma {:induction false} FramesCount(traces: seq<TraceCallFrame>, i: nat)
    requires i <= |traces|
    ensures |Frames(traces[..i])| == Offset(traces, i)
  {
    if i > 0 {
      FramesCount(traces, i - 1);
      FramesNext(traces, i - 1);
      OneFrameForEveryNode(traces[i - 1].result.calls);
      hide Frames, LastToFirst, Size;
    }
  }

  /** From place `start` on come the root, with its transaction's hash and its own fields, and then the calls below
      it in stack order, without a hash. */
  ghost predicate TreeAt(frames: seq<TraceCallFrame>, start: nat, trace: TraceCallFrame) {
    var root := trace.result;
    var below := LastToFirst(root.calls);
    && start + 1 + |below| <= |frames|
    && frames[start] == TraceCallFrame(trace.txHash, TraceCall(root.from, root.to, root.info, []))
    && forall k | 0 <= k < |below| :: frames[start + 1 + k] == TraceCallFrame(None, below[k])
  }

  /** The frames of a block are those of its first tree, then of its second and so on, each with its root first. */
  lemma {:induction false} RootsComeFirst(traces: seq<TraceCallFrame>, i: nat)
    requires i < |traces|
    ensures TreeAt(Frames(traces), Offset(traces, i), traces[i])
    ensures |Frames(traces)| == Offset(traces, |traces|)
    ensures Offset(traces, i + 1) == Offset(traces, i) + 1 + |LastToFirst(traces[i].result.calls)|
  {
    hide *;
    FramesTotal(traces);
    OffsetNext(traces, i);
    TreeInFrames(traces, i);
  }

  lemma FramesTotal(traces: seq<TraceCallFrame>)
    ensures |Frames(traces)| == Offset(traces, |traces|)
  {
    hide *;
    assert traces[..|traces|] == traces;
    FramesCount(traces, |traces|);
  }

  lemma OffsetNext(traces: seq<TraceCallFrame>, i: nat)
    requires i < |traces|
    ensures Offset(traces, i + 1) == Offset(traces, i) + 1 + |LastToFirst(traces[i].result.calls)|
  {
    hide LastToFirst, Size;
    OneFrameForEveryNode(traces[i].result.calls);
  }

  lemma TreeInFrames(traces: seq<TraceCallFrame>, i: nat)
    requires i < |traces|
    ensures TreeAt(Frames(traces), Offset(traces, i), traces[i])
  {
    hide *;
    FramesPrefix(traces, i);
    FramesPrefix(traces, i + 1);
    FramesNext(traces, i);
    TreeIsThere(Frames(traces[..i]), traces[i], Frames(traces[..i + 1]), Frames(traces));
  }

  lemma TreeIsThere(before: seq<TraceCallFrame>, trace: TraceCallFrame, after: seq<TraceCallFrame>,
                    all: seq<TraceCallFrame>)
    requires after == before + [TraceCallFrame(trace.txHash, Strip(trace.result))]
                      + Unhashed(LastToFirst(trace.result.calls))
    requires after <= all
    ensures TreeAt(all, |before|, trace)
  {
    var below, root := LastToFirst(trace.result.calls), trace.result;
    var first := TraceCallFrame(trace.txHash, Strip(root));
    assert first.result == TraceCall(root.from, root.to, root.info, []);
    hide LastToFirst, Strip;
    InFrames(before, first, below, after, all);
  }

  lemma InFrames(before: seq<TraceCallFrame>, root: TraceCallFrame, below: seq<TraceCall>, after: seq<TraceCallFrame>,
                 all: seq<TraceCallFrame>)
    requires after == before + [root] + Unhashed(below) && after <= all
    ensures |before| + 1 + |below| <= |all| && all[|before|] == root
    ensures forall k | 0 <= k < |below| :: all[|before| + 1 + k] == TraceCallFrame(None, below[k])
  {
    var u, head := Unhashed(below), before + [root];
    hide Unhashed;
    assert after == head + u && |after| <= |all| && after == all[..|after|];
    assert all[|before|] == after[|before|] == head[|before|];
    forall k | 0 <= k < |below| ensures all[|before| + 1 + k] == TraceCallFrame(None, below[k]) {
      InSuffix(head, u, k);
      assert all[..|after|][|head| + k] == all[|head| + k];
    }
  }

  lemma InSuffix(head: seq<TraceCallFrame>, u: seq<TraceCallFrame>, k: nat)
    requires k < |u|
    ensures (head + u)[|head| + k] == u[k]
  {
  }
}
