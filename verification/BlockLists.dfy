/** Lists of block numbers: sorting and removing repeats before a lookup or a request. */
module BlockLists {
  import Sorting

  predicate NatLe(a: nat, b: nat) { a <= b }

  /** Removes neighbouring repeats. */
  function Dedup(s: seq<nat>): (r: seq<nat>)
    ensures forall b :: b in r <==> b in s
    ensures s != [] ==> r != [] && r[0] == s[0]
    ensures |r| <= |s|
  {
    if |s| < 2 then s
    else if s[0] == s[1] then Dedup(s[1..])
    else [s[0]] + Dedup(s[1..])
  }

  ghost predicate Increasing(s: seq<nat>) {
    forall i, j | 0 <= i < j < |s| :: s[i] < s[j]
  }

  lemma {:induction false} DedupIncreases(s: seq<nat>)
    requires forall i, j | 0 <= i < j < |s| :: s[i] <= s[j]
    ensures Increasing(Dedup(s))
  {
    if |s| >= 2 {
      DedupIncreases(s[1..]);
      if s[0] != s[1] {
        var r := Dedup(s[1..]);
        assert r[0] == s[1];
        assert forall j | 0 <= j < |r| :: r[0] <= r[j];
      }
    }
  }

  function SortDedup(blocks: seq<nat>): seq<nat> {
    Dedup(Sorting.Sort(NatLe, blocks))
  }

  lemma SortDedupMeaning(blocks: seq<nat>)
    ensures Increasing(SortDedup(blocks))
    ensures forall b :: b in SortDedup(blocks) <==> b in blocks
    ensures |SortDedup(blocks)| <= |blocks|
  {
    var sorted := Sorting.Sort(NatLe, blocks);
    Sorting.SortSorts(NatLe, blocks);
    Sorting.SortPermutes(NatLe, blocks);
    Sorting.SameSize(sorted, blocks);
    forall i, j | 0 <= i < j < |sorted| ensures sorted[i] <= sorted[j] {
      assert NatLe(sorted[i], sorted[j]);
    }
    DedupIncreases(sorted);
  }

  lemma {:induction false} Spread(s: seq<nat>, i: nat)
    requires Increasing(s) && i < |s|
    ensures s[i] >= s[0] + i
  {
    if i > 0 {
      Spread(s, i - 1);
    }
  }

  lemma IncreasingTail(s: seq<nat>)
    requires Increasing(s) && s != []
    ensures Increasing(s[1..]) && s[0] !in s[1..]
    ensures forall x :: x in s <==> x == s[0] || x in s[1..]
  {
  }

  lemma SameFirst(a: seq<nat>, b: seq<nat>)
    requires Increasing(a) && Increasing(b) && forall x :: x in a <==> x in b
    ensures a == [] <==> b == []
    ensures a != [] ==> a[0] == b[0]
  {
    if a != [] {
      assert a[0] in a;
    }
    if b != [] {
      assert b[0] in b;
    }
  }

  /** Increasing lists with the same elements are equal. */
  lemma {:induction false} IncreasingUnique(a: seq<nat>, b: seq<nat>)
    requires Increasing(a) && Increasing(b) && forall x :: x in a <==> x in b
    ensures a == b
  {
    SameFirst(a, b);
    if a != [] {
      forall x ensures x in a[1..] <==> x in b[1..] {
        assert x in a[1..] <==> x in a && x != a[0];
        assert x in b[1..] <==> x in b && x != b[0];
      }
      IncreasingUnique(a[1..], b[1..]);
      assert a == [a[0]] + a[1..] && b == [b[0]] + b[1..];
    }
  }
}
