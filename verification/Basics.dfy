/** Arithmetic and facts about collections that several modules use. */
module Basics {

  /** The number of values of a 64-bit word. */
  const U64: nat := 0x1_0000_0000_0000_0000

  function SaturatingSub(a: nat, b: nat): nat { if a >= b then a - b else 0 }

  lemma MulMonotone(a: nat, b: nat, d: nat)
    requires a <= b
    ensures a * d <= b * d && d * a <= d * b
  {
  }

  lemma HasFirst<T>(s: seq<T>)
    ensures s != [] ==> exists x :: x in s
  {
    if s != [] {
      assert s[0] in s;
    }
  }

  lemma {:induction false} SubsetSize<T>(a: set<T>, b: set<T>)
    requires a <= b
    ensures |a| <= |b|
  {
    if a != {} {
      var x :| x in a;
      SubsetSize(a - {x}, b - {x});
    }
  }

  lemma ProperSubsetSize<T>(a: set<T>, b: set<T>)
    requires a < b
    ensures |a| < |b|
  {
    var x :| x in b && x !in a;
    assert a <= b - {x};
    SubsetSize(a, b - {x});
  }
}
