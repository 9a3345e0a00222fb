/** Interpolating block times between known anchors, with 64-bit floats taken as reals. */
module Interpolation {
  import opened Options
  import opened DeltaEncoding
  import EncodingLaws
  import Sorting

  type Anchor = BlockStamp

  /** The straight line through two anchors, at block `b`. */
  function Line(l: Anchor, r: Anchor, b: nat): real
    requires l.0 < r.0
  {
    l.1 as real + (b - l.0) as real * ((r.1 - l.1) as real / (r.0 - l.0) as real)
  }

  /** The first window from index `i` on that holds `b`; the last window if there is none. */
  function Window(anchors: seq<Anchor>, b: nat, i: nat): (r: nat)
    requires |anchors| >= 2 && i < |anchors|
    ensures r < |anchors| - 1
    decreases |anchors| - i
  {
    if i == |anchors| - 1 then |anchors| - 2
    else if anchors[i].0 <= b <= anchors[i + 1].0 then i
    else Window(anchors, b, i + 1)
  }

  /** The time given to `b`, or nothing where the assertion that it is positive fails. Two anchors for one
      block make the slope a division by zero, which no comparison accepts. */
  function Stamp(anchors: seq<Anchor>, b: nat): Option<nat>
    requires |anchors| >= 2
  {
    var i := Window(anchors, b, 0);
    var l, r := anchors[i], anchors[i + 1];
    if l.0 >= r.0 then None
    else
      var timestamp := Line(l, r, b);
      if timestamp > 0.0 then Some(timestamp.Floor) else None
  }

  /** The times from block `b` to block `last`; nothing at all as soon as one assertion fails. */
  function StampsFrom(anchors: seq<Anchor>, b: nat, last: nat): Option<map<nat, nat>>
    requires |anchors| >= 2
    decreases if b <= last then last - b + 1 else 0
  {
    if b > last then Some(map[])
    else
      var stamp, rest := Stamp(anchors, b), StampsFrom(anchors, b + 1, last);
      if stamp.None? || rest.None? then None else Some(rest.value[b := stamp.value])
  }

  function Interpolated(anchors: seq<Anchor>): Option<map<nat, nat>> {
    if anchors == [] then Some(map[])
    else if |anchors| == 1 then Some(map[anchors[0].0 := anchors[0].1])
    else
      Sorting.SortPermutes(ByBlock, anchors);
      var sorted := Sorting.Sort(ByBlock, anchors);
      StampsFrom(sorted, sorted[0].0, sorted[|sorted| - 1].0)
  }

  /** The result is `None` where the source's assertion panics. */
  method Interpolate(anchors: seq<Anchor>) returns (r: Option<map<nat, nat>>)
    ensures r == Interpolated(anchors)
  {
    if anchors == [] {
      return Some(map[]);
    }
    if |anchors| == 1 {
      return Some(map[anchors[0].0 := anchors[0].1]);
    }
    Sorting.SortPermutes(ByBlock, anchors);
    var sorted := Sorting.Sort(ByBlock, anchors);
    var first, last := sorted[0].0, sorted[|sorted| - 1].0;
    assert Interpolated(anchors) == StampsFrom(sorted, first, last);
    r := StampRange(sorted, first, last);
  }

  /** The loop over the blocks from the first anchor's to the last one's. */
  method StampRange(sorted: seq<Anchor>, first: nat, last: nat) returns (r: Option<map<nat, nat>>)
    requires |sorted| >= 2
    ensures r == StampsFrom(sorted, first, last)
  {
    hide *;
    var dates: map<nat, nat> := map[];
    var block := first;
    while block <= last
      invariant forall b :: b in dates <==> first <= b < block && b <= last
      invariant forall b | b in dates :: Stamp(sorted, b) == Some(dates[b])
    {
      var stamp := Stamp(sorted, block);
      if stamp.None? {
        StampsMeaning(sorted, first, last);
        return None;
      }
      dates := dates[block := stamp.value];
      block := block + 1;
    }
    SameDates(sorted, first, last, dates);
    return Some(dates);
  }

  lemma SameDates(anchors: seq<Anchor>, first: nat, last: nat, dates: map<nat, nat>)
    requires |anchors| >= 2
    requires forall b :: b in dates <==> first <= b <= last
    requires forall b | b in dates :: Stamp(anchors, b) == Some(dates[b])
    ensures StampsFrom(anchors, first, last) == Some(dates)
  {
    hide *;
    StampsMeaning(anchors, first, last);
    forall k | first <= k <= last ensures Stamp(anchors, k).Some? {
      assert k in dates;
    }
    var r := StampsFrom(anchors, first, last).value;
    forall k | k in r ensures k in dates && r[k] == dates[k] {
      assert k in dates;
    }
    assert r.Keys == dates.Keys;
    assert r == dates;
  }

  lemma {:induction false} StampsMeaning(anchors: seq<Anchor>, b: nat, last: nat)
    requires |anchors| >= 2
    ensures var r := StampsFrom(anchors, b, last);
            && (r.None? <==> exists k | b <= k <= last :: Stamp(anchors, k).None?)
            && (r.Some? ==> forall k :: k in r.value <==> b <= k <= last)
            && (r.Some? ==> forall k | k in r.value :: Stamp(anchors, k) == Some(r.value[k]))
    decreases if b <= last then last - b + 1 else 0
  {
    if b <= last {
      StampsMeaning(anchors, b + 1, last);
    }
  }

  // ----- real arithmetic

  lemma Slope(d: real, n: real)
    requires n > 0.0
    ensures n * (d / n) == d
  {
  }

  lemma ScaleUp(n: real, m: real, s: real)
    requires n <= m && s >= 0.0
    ensures n * s <= m * s
  {
  }

  lemma LineEnds(l: Anchor, r: Anchor)
    requires l.0 < r.0
    ensures Line(l, r, l.0) == l.1 as real && Line(l, r, r.0) == r.1 as real
  {
    Slope((r.1 - l.1) as real, (r.0 - l.0) as real);
  }

  lemma LineMonotone(l: Anchor, r: Anchor, b: nat, c: nat)
    requires l.0 < r.0 && b <= c
    ensures l.1 <= r.1 ==> Line(l, r, b) <= Line(l, r, c)
    ensures l.1 >= r.1 ==> Line(l, r, b) >= Line(l, r, c)
  {
    var d, n := (r.1 - l.1) as real, (r.0 - l.0) as real;
    var s := d / n;
    Slope(d, n);
    if l.1 <= r.1 {
      ScaleUp((b - l.0) as real, (c - l.0) as real, s);
    }
    if l.1 >= r.1 {
      assert -s >= 0.0;
      ScaleUp((b - l.0) as real, (c - l.0) as real, -s);
    }
  }

  lemma LineBetween(l: Anchor, r: Anchor, b: nat)
    requires l.0 < r.0 && l.0 <= b <= r.0
    ensures l.1 <= r.1 ==> l.1 as real <= Line(l, r, b) <= r.1 as real
    ensures l.1 >= r.1 ==> r.1 as real <= Line(l, r, b) <= l.1 as real
  {
    LineEnds(l, r);
    LineMonotone(l, r, l.0, b);
    LineMonotone(l, r, b, r.0);
  }

  lemma FloorBetween(low: nat, x: real, high: nat)
    requires low as real <= x <= high as real
    ensures low <= x.Floor <= high
  {
  }

  // ----- sorted anchors with distinct blocks

  ghost predicate Ascending(anchors: seq<Anchor>) {
    forall i, j | 0 <= i < j < |anchors| :: anchors[i].0 < anchors[j].0
  }

  lemma {:induction false} WindowHolds(anchors: seq<Anchor>, b: nat, i: nat)
    requires |anchors| >= 2 && Ascending(anchors) && i < |anchors| - 1
    requires anchors[i].0 <= b <= anchors[|anchors| - 1].0
    ensures var w := Window(anchors, b, i);
            && i <= w && anchors[w].0 <= b <= anchors[w + 1].0
            && (b > anchors[i].0 ==> anchors[w].0 < b)
    decreases |anchors| - i
  {
    if b > anchors[i + 1].0 {
      WindowHolds(anchors, b, i + 1);
    }
  }

  /** Between two anchors the time lies between theirs. */
  lemma {:induction false} StampBetween(anchors: seq<Anchor>, b: nat)
    requires |anchors| >= 2 && Ascending(anchors)
    requires anchors[0].0 <= b <= anchors[|anchors| - 1].0
    requires forall i | 0 <= i < |anchors| :: anchors[i].1 > 0
    ensures Stamp(anchors, b).Some?
    ensures var w, t := Window(anchors, b, 0), Stamp(anchors, b).value;
            var l, r := anchors[w], anchors[w + 1];
            && l.0 <= b <= r.0
            && (l.1 <= t <= r.1 || r.1 <= t <= l.1)
            && (l.1 <= r.1 ==> l.1 <= t <= r.1)
            && t == Line(l, r, b).Floor
  {
    WindowHolds(anchors, b, 0);
    var w := Window(anchors, b, 0);
    var l, r := anchors[w], anchors[w + 1];
    LineBetween(l, r, b);
    if l.1 <= r.1 {
      FloorBetween(l.1, Line(l, r, b), r.1);
    } else {
      FloorBetween(r.1, Line(l, r, b), l.1);
    }
  }

  /** At an anchor the line passes through it, whichever side it is reached from. */
  lemma {:induction false} StampAtAnchor(anchors: seq<Anchor>, k: nat)
    requires |anchors| >= 2 && Ascending(anchors) && k < |anchors|
    ensures Stamp(anchors, anchors[k].0) == if anchors[k].1 > 0 then Some(anchors[k].1) else None
  {
    var b := anchors[k].0;
    WindowHolds(anchors, b, 0);
    var w := Window(anchors, b, 0);
    LineEnds(anchors[w], anchors[w + 1]);
    if k == 0 {
      assert w == 0;
    } else {
      assert w + 1 == k;
    }
  }

  /** When the anchors' times do not fall, neither do the interpolated ones. */
  lemma {:induction false} StampMonotone(anchors: seq<Anchor>, b: nat, c: nat)
    requires |anchors| >= 2 && Ascending(anchors)
    requires anchors[0].0 <= b <= c <= anchors[|anchors| - 1].0
    requires forall i | 0 <= i < |anchors| :: anchors[i].1 > 0
    requires forall i, j | 0 <= i < j < |anchors| :: anchors[i].1 <= anchors[j].1
    ensures Stamp(anchors, b).Some? && Stamp(anchors, c).Some?
    ensures Stamp(anchors, b).value <= Stamp(anchors, c).value
  {
    StampBetween(anchors, b);
    StampBetween(anchors, c);
    WindowHolds(anchors, b, 0);
    WindowHolds(anchors, c, 0);
    var v, w := Window(anchors, b, 0), Window(anchors, c, 0);
    if v == w {
      LineMonotone(anchors[v], anchors[v + 1], b, c);
    } else if v < w {
      assert anchors[v + 1].1 <= anchors[w].1;
    }
  }

  // ----- anchors in any order

  /** `b` lies between the first anchor's block and the last one's. */
  ghost predicate Spanned(anchors: seq<Anchor>, b: nat) {
    (exists a | a in anchors :: a.0 <= b) && (exists a | a in anchors :: b <= a.0)
  }

  ghost predicate AllPositive(anchors: seq<Anchor>) {
    forall a | a in anchors :: a.1 > 0
  }

  /** Exactly the blocks from the first anchor to the last have a time, and every anchor keeps its own. */
  ghost predicate Fits(anchors: seq<Anchor>, dates: map<nat, nat>) {
    && (forall b :: b in dates <==> Spanned(anchors, b))
    && (forall a | a in anchors :: a.0 in dates && dates[a.0] == a.1)
  }

  /** For two or more anchors with distinct blocks, in any order: the assertion never fails exactly when no
      anchor's time is zero, and then the result fits the anchors. */
  lemma {:induction false} InterpolatedMeaning(anchors: seq<Anchor>)
    requires |anchors| >= 2 && EncodingLaws.DistinctNumbers(anchors)
    ensures Interpolated(anchors).Some? <==> AllPositive(anchors)
    ensures Interpolated(anchors).Some? ==> Fits(anchors, Interpolated(anchors).value)
  {
    var sorted := Sorting.Sort(ByBlock, anchors);
    EncodingLaws.SortedBatch(anchors);
    EncodingLaws.SortedDistinct(anchors);
    assert Interpolated(anchors) == StampsFrom(sorted, sorted[0].0, sorted[|sorted| - 1].0);
    assert Ascending(sorted);
    SameAnchors(anchors, sorted);
    hide *;
    SortedNeverFails(sorted);
    if Interpolated(anchors).Some? {
      SortedFits(sorted);
      SameFit(anchors, sorted, Interpolated(anchors).value);
    }
  }

  ghost predicate SameElements(a: seq<Anchor>, b: seq<Anchor>) {
    forall x :: x in a <==> x in b
  }

  lemma SameAnchors(anchors: seq<Anchor>, sorted: seq<Anchor>)
    requires forall x :: x in sorted <==> x in anchors
    ensures SameElements(anchors, sorted)
    ensures AllPositive(anchors) <==> AllPositive(sorted)
  {
  }

  lemma SameSpan(anchors: seq<Anchor>, sorted: seq<Anchor>, b: nat)
    requires SameElements(anchors, sorted) && Spanned(sorted, b)
    ensures Spanned(anchors, b)
  {
    var l :| l in sorted && l.0 <= b;
    var r :| r in sorted && b <= r.0;
    assert l in anchors && r in anchors;
  }

  lemma SameFit(anchors: seq<Anchor>, sorted: seq<Anchor>, dates: map<nat, nat>)
    requires SameElements(anchors, sorted) && Fits(sorted, dates)
    ensures Fits(anchors, dates)
  {
    hide Spanned;
    forall b: nat ensures b in dates <==> Spanned(anchors, b) {
      if Spanned(sorted, b) {
        SameSpan(anchors, sorted, b);
      }
      if Spanned(anchors, b) {
        SameSpan(sorted, anchors, b);
      }
    }
  }

  lemma SortedNeverFails(sorted: seq<Anchor>)
    requires |sorted| >= 2 && Ascending(sorted)
    ensures StampsFrom(sorted, sorted[0].0, sorted[|sorted| - 1].0).Some? <==> AllPositive(sorted)
  {
    var first, last := sorted[0].0, sorted[|sorted| - 1].0;
    StampsMeaning(sorted, first, last);
    hide Stamp, StampsFrom;
    if AllPositive(sorted) {
      forall b | first <= b <= last ensures Stamp(sorted, b).Some? {
        StampBetween(sorted, b);
      }
    } else {
      var a :| a in sorted && a.1 == 0;
      var k :| 0 <= k < |sorted| && sorted[k] == a;
      StampAtAnchor(sorted, k);
      assert first <= a.0 <= last;
    }
  }

  lemma SortedSpan(sorted: seq<Anchor>, b: nat)
    requires |sorted| >= 2 && Ascending(sorted)
    ensures Spanned(sorted, b) <==> sorted[0].0 <= b <= sorted[|sorted| - 1].0
  {
    assert sorted[0] in sorted && sorted[|sorted| - 1] in sorted;
  }

  lemma SortedFits(sorted: seq<Anchor>)
    requires |sorted| >= 2 && Ascending(sorted)
    requires StampsFrom(sorted, sorted[0].0, sorted[|sorted| - 1].0).Some?
    ensures Fits(sorted, StampsFrom(sorted, sorted[0].0, sorted[|sorted| - 1].0).value)
  {
    hide *;
    var first, last := sorted[0].0, sorted[|sorted| - 1].0;
    StampsMeaning(sorted, first, last);
    FitsFromStamps(sorted, StampsFrom(sorted, first, last).value);
  }

  lemma FitsFromStamps(sorted: seq<Anchor>, dates: map<nat, nat>)
    requires |sorted| >= 2 && Ascending(sorted)
    requires forall b :: b in dates <==> sorted[0].0 <= b <= sorted[|sorted| - 1].0
    requires forall b | b in dates :: Stamp(sorted, b) == Some(dates[b])
    ensures Fits(sorted, dates)
  {
    hide Stamp, Spanned;
    forall b: nat ensures b in dates <==> Spanned(sorted, b) {
      SortedSpan(sorted, b);
    }
    forall a | a in sorted ensures a.0 in dates && dates[a.0] == a.1 {
      hide *;
      var k :| 0 <= k < |sorted| && sorted[k] == a;
      AnchorKept(sorted, dates, k);
    }
  }

  lemma AnchorKept(sorted: seq<Anchor>, dates: map<nat, nat>, k: nat)
    requires |sorted| >= 2 && Ascending(sorted) && k < |sorted|
    requires forall b :: b in dates <==> sorted[0].0 <= b <= sorted[|sorted| - 1].0
    requires forall b | b in dates :: Stamp(sorted, b) == Some(dates[b])
    ensures sorted[k].0 in dates && dates[sorted[k].0] == sorted[k].1
  {
    hide Stamp;
    StampAtAnchor(sorted, k);
    var b := sorted[k].0;
    assert sorted[0].0 <= b <= sorted[|sorted| - 1].0;
    assert Stamp(sorted, b) == Some(dates[b]);
  }

  /** The line is straight: its rise from the first anchor is to the whole rise as the blocks passed are to all. */
  lemma {:induction false} LineIsStraight(l: Anchor, r: Anchor, b: nat)
    requires l.0 < r.0
    ensures (Line(l, r, b) - l.1 as real) * (r.0 - l.0) as real == (b - l.0) as real * (r.1 - l.1) as real
  {
    var width, rise, passed := (r.0 - l.0) as real, (r.1 - l.1) as real, (b - l.0) as real;
    var slope := rise / width;
    assert slope * width == rise;
    assert Line(l, r, b) - l.1 as real == passed * slope;
    assert (passed * slope) * width == passed * (slope * width);
  }

  /** Without anchors no block is timed, and with one only its own. */
  lemma {:induction false} FewAnchors(a: Anchor)
    ensures Interpolated([]) == Some(map[]) && Interpolated([a]) == Some(map[a.0 := a.1])
  {
  }
}
