/** Contract names for an import: characters and a reserved word removed, and made unique. */
module FreshNames {
  import opened Basics

  // ----- decimal suffixes

  function Digit(d: nat): char
    requires d < 10
  {
    ['0', '1', '2', '3', '4', '5', '6', '7', '8', '9'][d]
  }

  function Decimal(n: nat): (r: string)
    ensures r != ""
  {
    if n < 10 then [Digit(n)] else Decimal(n / 10) + [Digit(n % 10)]
  }

  lemma {:induction false} DecimalInjective(m: nat, n: nat)
    requires Decimal(m) == Decimal(n)
    ensures m == n
  {
    var a, b := Decimal(m), Decimal(n);
    assert a[|a| - 1] == Digit(m % 10) && b[|b| - 1] == Digit(n % 10);
    if m >= 10 && n >= 10 {
      assert a[..|a| - 1] == Decimal(m / 10) && b[..|b| - 1] == Decimal(n / 10);
      DecimalInjective(m / 10, n / 10);
    }
  }

  /** Numbers are written in decimal, the highest digit first. */
  lemma {:induction false} DecimalMeaning(n: nat, d: nat)
    requires d < 10
    ensures Decimal(d) == ['0' + d as char]
    ensures n > 0 ==> Decimal(10 * n + d) == Decimal(n) + ['0' + d as char]
  {
    assert (10 * n + d) / 10 == n && (10 * n + d) % 10 == d;
  }

  // ----- unique names

  function Candidate(base: string, index: nat): string { base + Decimal(index) }

  lemma CandidateInjective(base: string, i: nat, j: nat)
    ensures Candidate(base, i) == Candidate(base, j) ==> i == j
  {
    var a, b := Candidate(base, i), Candidate(base, j);
    assert a[|base|..] == Decimal(i) && b[|base|..] == Decimal(j);
    if a == b {
      DecimalInjective(i, j);
    }
  }

  /** The names in use that have not been tried yet. */
  ghost function Untried(base: string, existing: set<string>, index: nat): set<string> {
    set x | x in existing && forall j | 2 <= j < index :: x != Candidate(base, j)
  }

  lemma TriedOne(base: string, existing: set<string>, index: nat)
    requires index >= 2 && Candidate(base, index) in existing
    ensures |Untried(base, existing, index + 1)| < |Untried(base, existing, index)|
  {
    var a, b, c := Untried(base, existing, index + 1), Untried(base, existing, index), Candidate(base, index);
    forall j | 2 <= j < index ensures c != Candidate(base, j) {
      CandidateInjective(base, index, j);
    }
    assert c in b && c !in a;
    assert a <= b - {c};
    SubsetSize(a, b - {c});
  }

  /** The first free index; there is one because the candidates differ and the names in use are finitely many. */
  function FreeIndex(base: string, existing: set<string>, index: nat): (r: nat)
    requires index >= 2
    ensures r >= index && Candidate(base, r) !in existing
    ensures forall j | index <= j < r :: Candidate(base, j) in existing
    decreases |Untried(base, existing, index)|
  {
    if Candidate(base, index) !in existing then index
    else
      TriedOne(base, existing, index);
      FreeIndex(base, existing, index + 1)
  }

  function UniqueName(base: string, existing: set<string>): (r: string)
    ensures r !in existing && base <= r
    ensures r == base <==> base !in existing
  {
    if base !in existing then base else Candidate(base, FreeIndex(base, existing, 2))
  }

  /** A name that is taken is followed by the least number from 2 on that makes it free. */
  lemma {:induction false} TakenNameIsNumbered(base: string, existing: set<string>)
    requires base in existing
    ensures exists n: nat | n >= 2 :: UniqueName(base, existing) == base + Decimal(n)
              && forall k | 2 <= k < n :: base + Decimal(k) in existing
  {
    var n := FreeIndex(base, existing, 2);
    hide Decimal, FreeIndex;
    assert UniqueName(base, existing) == base + Decimal(n);
    forall k | 2 <= k < n ensures base + Decimal(k) in existing {
      assert Candidate(base, k) in existing;
    }
  }

  /** The search of the source, which stops at the least free index. */
  method FindUniqueName(base: string, existing: set<string>) returns (name: string)
    ensures name == UniqueName(base, existing)
  {
    if base !in existing {
      return base;
    }
    var index := 2;
    while Candidate(base, index) in existing
      invariant index >= 2
      invariant FreeIndex(base, existing, index) == FreeIndex(base, existing, 2)
      decreases |Untried(base, existing, index)|
    {
      TriedOne(base, existing, index);
      index := index + 1;
    }
    return Candidate(base, index);
  }

  // ----- the reserved word

  const RESERVED: string := "filter"
  const REPLACEMENT: string := "Contract"

  function Lower(c: char): char {
    if 'A' <= c <= 'Z' then c - 'A' + 'a' else c
  }

  function Lowered(s: string): (r: string)
    ensures |r| == |s| && forall i | 0 <= i < |s| :: r[i] == Lower(s[i])
  {
    if s == "" then "" else [Lower(s[0])] + Lowered(s[1..])
  }

  /** The reserved word starts at `i`, in any casing. */
  predicate ReservedAt(s: string, i: nat) {
    i + 6 <= |s| && Lowered(s[i..i + 6]) == RESERVED
  }

  predicate ReservedFree(s: string) {
    forall i | 0 <= i < |s| :: !ReservedAt(s, i)
  }

  function FindReserved(s: string, i: nat): (r: nat)
    requires i <= |s|
    ensures i <= r <= |s|
    ensures forall j | i <= j < r :: !ReservedAt(s, j)
    ensures r < |s| ==> ReservedAt(s, r)
    decreases |s| - i
  {
    if i == |s| || ReservedAt(s, i) then i else FindReserved(s, i + 1)
  }

  function CountF(s: string): nat {
    if s == "" then 0 else (if Lower(s[0]) == 'f' then 1 else 0) + CountF(s[1..])
  }

  function Replaced(s: string, i: nat): string
    requires ReservedAt(s, i)
  {
    s[..i] + REPLACEMENT + s[i + 6..]
  }

  lemma {:induction false} CountFConcat(a: string, b: string)
    ensures CountF(a + b) == CountF(a) + CountF(b)
  {
    if a == "" {
      assert a + b == b;
    } else {
      assert (a + b)[1..] == a[1..] + b;
      CountFConcat(a[1..], b);
    }
  }

  lemma NoFInReplacement()
    ensures CountF(REPLACEMENT) == 0
  {
    assert forall i | 0 <= i < |REPLACEMENT| :: Lower(REPLACEMENT[i]) != 'f';
    NoF(REPLACEMENT);
  }

  lemma {:induction false} NoF(s: string)
    requires forall i | 0 <= i < |s| :: Lower(s[i]) != 'f'
    ensures CountF(s) == 0
  {
    if s != "" {
      NoF(s[1..]);
    }
  }

  /** The text may grow, but it loses an f with every replacement. */
  lemma ReplacementLosesF(s: string, i: nat)
    requires ReservedAt(s, i)
    ensures CountF(Replaced(s, i)) < CountF(s)
  {
    var a, w, b := s[..i], s[i..i + 6], s[i + 6..];
    assert s == a + (w + b) && Replaced(s, i) == a + (REPLACEMENT + b);
    CountFConcat(a, w + b);
    CountFConcat(w, b);
    CountFConcat(a, REPLACEMENT + b);
    CountFConcat(REPLACEMENT, b);
    NoFInReplacement();
    assert Lower(w[0]) == Lowered(w)[0] == RESERVED[0];
    hide Lower, Replaced;
    assert CountF(w) >= 1;
  }

  /** Replaces the first occurrence until there is none. */
  function Unreserved(s: string): (r: string)
    ensures ReservedFree(r)
    decreases CountF(s)
  {
    var i := FindReserved(s, 0);
    if i == |s| then s
    else
      ReplacementLosesF(s, i);
      Unreserved(Replaced(s, i))
  }

  predicate Allowed(c: char) {
    'a' <= c <= 'z' || 'A' <= c <= 'Z' || '0' <= c <= '9' || c == '_'
  }

  function OnlyAllowed(name: string): (r: string)
    ensures forall c | c in r :: Allowed(c)
  {
    if name == "" then ""
    else if Allowed(name[0]) then [name[0]] + OnlyAllowed(name[1..])
    else OnlyAllowed(name[1..])
  }

  const FALLBACK: string := "FoundryContract"

  function SanitizedName(name: string): string {
    var r := Unreserved(OnlyAllowed(name));
    if r == "" then FALLBACK else r
  }

  method SanitizeContractName(name: string) returns (sanitized: string)
    ensures sanitized == SanitizedName(name)
  {
    sanitized := OnlyAllowed(name);
    while true
      invariant Unreserved(sanitized) == Unreserved(OnlyAllowed(name))
      decreases CountF(sanitized)
    {
      var i := FindReserved(sanitized, 0);
      if i == |sanitized| {
        break;
      }
      ReplacementLosesF(sanitized, i);
      sanitized := Replaced(sanitized, i);
    }
    if sanitized == "" {
      sanitized := FALLBACK;
    }
  }

  // ----- one pass is enough

  /** All occurrences replaced in a single pass from left to right. */
  function OnePass(s: string): string {
    if s == "" then ""
    else if ReservedAt(s, 0) then REPLACEMENT + OnePass(s[6..])
    else [s[0]] + OnePass(s[1..])
  }

  lemma {:induction false} OnePassSkips(s: string, n: nat)
    requires n <= |s| && forall j | 0 <= j < n :: !ReservedAt(s, j)
    ensures OnePass(s) == s[..n] + OnePass(s[n..])
  {
    hide *;
    if n == 0 {
      assert s[0..] == s && s[..0] + OnePass(s) == OnePass(s);
    } else {
      var t := s[1..];
      forall j | 0 <= j < n - 1 ensures !ReservedAt(t, j) {
        Shifted(s, 1, j);
      }
      OnePassSkips(t, n - 1);
      OnePassSkipsOne(s);
      var tail := OnePass(s[n..]);
      assert t[n - 1..] == s[n..] && s[..n] == [s[0]] + t[..n - 1];
      assert [s[0]] + (t[..n - 1] + tail) == s[..n] + tail;
    }
  }

  lemma OnePassSkipsOne(s: string)
    requires s != "" && !ReservedAt(s, 0)
    ensures OnePass(s) == [s[0]] + OnePass(s[1..])
  {
    hide ReservedAt;
  }

  lemma Shifted(s: string, i: nat, j: nat)
    requires i <= |s|
    ensures ReservedAt(s[i..], j) <==> ReservedAt(s, i + j)
  {
    if i + j + 6 <= |s| {
      assert s[i..][j..j + 6] == s[i + j..i + j + 6];
    }
  }

  lemma ReplacedAt(s: string, i: nat, k: nat)
    requires ReservedAt(s, i)
    ensures i + 6 <= |s| && |Replaced(s, i)| == |s| + 2
    ensures k < i ==> Replaced(s, i)[k] == s[k]
    ensures i <= k < i + |REPLACEMENT| ==> Replaced(s, i)[k] == REPLACEMENT[k - i]
  {
    var a, b := s[..i], s[i + 6..];
    assert Replaced(s, i) == a + (REPLACEMENT + b);
  }

  lemma ReplacementLetters()
    ensures forall k | 0 <= k < |REPLACEMENT| :: Lower(REPLACEMENT[k]) != 'f'
    ensures forall k | 0 <= k < |RESERVED| :: RESERVED[k] != Lower(REPLACEMENT[0])
    ensures |RESERVED| == 6 && RESERVED[0] == 'f'
  {
  }

  lemma NotInside(s: string, i: nat, j: nat)
    requires ReservedAt(s, i) && i <= j < i + |REPLACEMENT|
    ensures !ReservedAt(Replaced(s, i), j)
  {
    var r := Replaced(s, i);
    ReplacedAt(s, i, j);
    ReplacementLetters();
    if j + 6 <= |r| {
      var w := r[j..j + 6];
      hide Replaced, Lower;
      assert w[0] == r[j] == REPLACEMENT[j - i];
      assert Lowered(w)[0] == Lower(w[0]);
    }
  }

  lemma NotAcross(s: string, i: nat, j: nat)
    requires ReservedAt(s, i) && j < i < j + 6
    ensures !ReservedAt(Replaced(s, i), j)
  {
    var r := Replaced(s, i);
    ReplacedAt(s, i, i);
    ReplacementLetters();
    if j + 6 <= |r| {
      var w := r[j..j + 6];
      hide Replaced, Lower;
      assert w[i - j] == r[i] == REPLACEMENT[0];
      assert Lowered(w)[i - j] == Lower(w[i - j]);
    }
  }

  lemma NotBefore(s: string, i: nat, j: nat)
    requires ReservedAt(s, i) && j + 6 <= i && !ReservedAt(s, j)
    ensures !ReservedAt(Replaced(s, i), j)
  {
    var r := Replaced(s, i);
    ReplacedAt(s, i, j);
    var v, w := s[j..j + 6], r[j..j + 6];
    forall k | 0 <= k < 6 ensures w[k] == v[k] {
      ReplacedAt(s, i, j + k);
      assert w[k] == r[j + k] && v[k] == s[j + k];
    }
    assert w == v;
  }

  /** A replacement makes no new occurrence: none reaches its first letter or starts inside it. */
  lemma NothingNew(s: string, i: nat, j: nat)
    requires ReservedAt(s, i) && j < i + |REPLACEMENT| && forall k | 0 <= k < i :: !ReservedAt(s, k)
    ensures !ReservedAt(Replaced(s, i), j)
  {
    hide *;
    if j >= i {
      NotInside(s, i, j);
    } else if j + 6 > i {
      NotAcross(s, i, j);
    } else {
      NotBefore(s, i, j);
    }
  }

  lemma NoneLeft(s: string)
    requires forall j | 0 <= j < |s| :: !ReservedAt(s, j)
    ensures OnePass(s) == s
  {
    OnePassSkips(s, |s|);
    assert s[..|s|] + OnePass(s[|s|..]) == s;
  }

  lemma OnePassReserved(s: string, i: nat)
    requires ReservedAt(s, i)
    ensures OnePass(s[i..]) == REPLACEMENT + OnePass(s[i + 6..])
  {
    var t := s[i..];
    Shifted(s, i, 0);
    assert |t| >= 6 && t[6..] == s[i + 6..];
    hide ReservedAt;
    assert OnePass(t) == REPLACEMENT + OnePass(t[6..]);
  }

  lemma ReplacedParts(s: string, i: nat)
    requires ReservedAt(s, i)
    ensures var r, k := Replaced(s, i), i + |REPLACEMENT|;
            i + 6 <= |s| && k <= |r| && r[..k] == s[..i] + REPLACEMENT && r[k..] == s[i + 6..]
  {
  }

  /** Both texts have the same single pass: up to the first occurrence nothing happens. */
  lemma OnePassOfReplaced(s: string, i: nat)
    requires ReservedAt(s, i) && forall k | 0 <= k < i :: !ReservedAt(s, k)
    ensures OnePass(Replaced(s, i)) == OnePass(s)
  {
    hide *;
    OnePassReserved(s, i);
    ReplacedParts(s, i);
    var r, k := Replaced(s, i), i + |REPLACEMENT|;
    forall j | 0 <= j < k ensures !ReservedAt(r, j) {
      NothingNew(s, i, j);
    }
    OnePassSkips(s, i);
    OnePassSkips(r, k);
    var tail := OnePass(s[i + 6..]);
    assert (s[..i] + REPLACEMENT) + tail == s[..i] + (REPLACEMENT + tail);
  }

  /** The loop of the source does no more than a single pass. */
  lemma {:induction false} LoopIsOnePass(s: string)
    ensures Unreserved(s) == OnePass(s)
    decreases CountF(s)
  {
    hide OnePass, ReservedAt, Replaced;
    var i := FindReserved(s, 0);
    if i == |s| {
      NoneLeft(s);
    } else {
      ReplacementLosesF(s, i);
      LoopIsOnePass(Replaced(s, i));
      OnePassOfReplaced(s, i);
    }
  }

  // ----- the names of an import

  ghost predicate NameOk(name: string) {
    name != "" && ReservedFree(name) && forall c | c in name :: Allowed(c)
  }

  lemma {:induction false} UnreservedAllowed(s: string)
    requires forall c | c in s :: Allowed(c)
    ensures forall c | c in Unreserved(s) :: Allowed(c)
    decreases CountF(s)
  {
    hide ReservedAt, CountF;
    var i := FindReserved(s, 0);
    if i < |s| {
      ReplacementLosesF(s, i);
      ReplacedAllowed(s, i);
      UnreservedAllowed(Replaced(s, i));
    }
  }

  lemma ReplacedAllowed(s: string, i: nat)
    requires ReservedAt(s, i) && forall c | c in s :: Allowed(c)
    ensures forall c | c in Replaced(s, i) :: Allowed(c)
  {
    hide ReservedAt;
    assert i + 6 <= |s| by { InRange(s, i); }
    forall c | c in Replaced(s, i) ensures Allowed(c) {
      if c in s[..i] || c in s[i + 6..] {
        assert c in s;
      } else {
        assert c in REPLACEMENT;
      }
    }
  }

  lemma InRange(s: string, i: nat)
    requires ReservedAt(s, i)
    ensures i + 6 <= |s|
  {
  }

  lemma FallbackOk()
    ensures NameOk(FALLBACK)
  {
    assert forall k | 0 <= k < |FALLBACK| :: Lower(FALLBACK[k]) != 'i';
    assert RESERVED[1] == 'i';
    forall i | 0 <= i < |FALLBACK| ensures !ReservedAt(FALLBACK, i) {
      if i + 6 <= |FALLBACK| {
        var w := FALLBACK[i..i + 6];
        assert w[1] == FALLBACK[i + 1] && Lowered(w)[1] == Lower(w[1]);
      }
    }
  }

  /** Whatever the deployed contract is called, its name is usable. */
  lemma {:induction false} SanitizedNameOk(name: string)
    ensures NameOk(SanitizedName(name))
  {
    UnreservedAllowed(OnlyAllowed(name));
    FallbackOk();
  }

  lemma {:induction false} DecimalDigits(n: nat)
    ensures forall c | c in Decimal(n) :: '0' <= c <= '9'
  {
    if n >= 10 {
      DecimalDigits(n / 10);
    }
  }

  lemma CandidateOk(base: string, index: nat)
    requires NameOk(base)
    ensures NameOk(Candidate(base, index))
  {
    var d := Decimal(index);
    var s := base + d;
    DecimalDigits(index);
    forall i | 0 <= i < |s| ensures !ReservedAt(s, i) {
      if i + 6 <= |s| {
        var w := s[i..i + 6];
        if i + 6 <= |base| {
          assert !ReservedAt(base, i);
          var v := base[i..i + 6];
          assert forall k | 0 <= k < 6 :: w[k] == v[k];
          assert w == v;
        } else {
          assert w[5] == d[i + 5 - |base|] && d[i + 5 - |base|] in d;
          assert Lowered(w)[5] != RESERVED[5];
        }
      }
    }
  }

  lemma UniqueNameOk(base: string, existing: set<string>)
    requires NameOk(base)
    ensures NameOk(UniqueName(base, existing))
  {
    hide NameOk, Candidate;
    if base in existing {
      CandidateOk(base, FreeIndex(base, existing, 2));
    }
  }

  /** Each name made unique among those before it. */
  function UniqueNames(names: seq<string>, seen: set<string>): (r: seq<string>)
    ensures |r| == |names|
  {
    if names == [] then []
    else
      var unique := UniqueName(names[0], seen);
      [unique] + UniqueNames(names[1..], seen + {unique})
  }

  lemma {:induction false} UniqueNamesMeaning(names: seq<string>, seen: set<string>)
    requires forall name | name in names :: NameOk(name)
    ensures var r := UniqueNames(names, seen);
            && (forall i, j | 0 <= i < j < |r| :: r[i] != r[j])
            && (forall i | 0 <= i < |r| :: r[i] !in seen && NameOk(r[i]) && names[i] <= r[i])
  {
    hide NameOk, UniqueName;
    if names != [] {
      assert names[0] in names;
      UniqueNameOk(names[0], seen);
      UniqueNamesMeaning(names[1..], seen + {UniqueName(names[0], seen)});
    }
  }

  /** A name is kept if and only if none before it was given it. */
  lemma {:induction false} UniqueNamesKept(names: seq<string>, seen: set<string>, i: nat)
    requires i < |names|
    ensures var r := UniqueNames(names, seen);
            && names[i] <= r[i]
            && (r[i] == names[i] <==> names[i] !in seen && forall j | 0 <= j < i :: r[j] != names[i])
  {
    hide UniqueName;
    if i > 0 {
      var unique := UniqueName(names[0], seen);
      UniqueNamesKept(names[1..], seen + {unique}, i - 1);
      var r, rest := UniqueNames(names, seen), UniqueNames(names[1..], seen + {unique});
      assert r == [unique] + rest && names[1..][i - 1] == names[i];
      hide UniqueNames;
      if forall j | 0 <= j < i :: r[j] != names[i] {
        assert r[0] != names[i];
        forall j | 0 <= j < i - 1 ensures rest[j] != names[i] {
          assert r[j + 1] == rest[j];
        }
      }
      if names[i] !in seen + {unique} && forall j | 0 <= j < i - 1 :: rest[j] != names[i] {
        forall j | 0 <= j < i ensures r[j] != names[i] {
          if j > 0 {
            assert r[j] == rest[j - 1];
          }
        }
      }
    }
  }

  function SanitizedNames(names: seq<string>): (r: seq<string>)
    ensures |r| == |names| && forall i | 0 <= i < |r| :: r[i] == SanitizedName(names[i])
  {
    hide SanitizedName;
    if names == [] then []
    else
      var rest := SanitizedNames(names[1..]);
      [SanitizedName(names[0])] + rest
  }

  /** The names that an import gives to any deployed contracts are not empty, hold only letters, digits and
      underscores, are free of the reserved word in any casing and differ from each other. */
  lemma {:induction false} ImportedNames(names: seq<string>)
    ensures var r := UniqueNames(SanitizedNames(names), {});
            && (forall i | 0 <= i < |r| :: NameOk(r[i]))
            && (forall i, j | 0 <= i < j < |r| :: r[i] != r[j])
  {
    hide *;
    forall name | name in SanitizedNames(names) ensures NameOk(name) {
      var i :| 0 <= i < |names| && SanitizedNames(names)[i] == name;
      SanitizedNameOk(names[i]);
    }
    UniqueNamesMeaning(SanitizedNames(names), {});
  }

  lemma UniqueNamesNext(names: seq<string>, seen: set<string>, i: nat)
    requires i < |names|
    ensures UniqueNames(names[i..], seen) ==
            [UniqueName(names[i], seen)] + UniqueNames(names[i + 1..], seen + {UniqueName(names[i], seen)})
  {
    assert names[i..][1..] == names[i + 1..];
    hide UniqueName;
  }

  lemma {:induction false} AllowedStays(name: string)
    requires forall c | c in name :: Allowed(c)
    ensures OnlyAllowed(name) == name
  {
    if name != "" {
      assert name[0] in name && forall c | c in name[1..] :: c in name;
      AllowedStays(name[1..]);
      assert [name[0]] + name[1..] == name;
    }
  }

  ghost predicate Letter(c: char, lower: char, upper: char) { c == lower || c == upper }

  /** The word is `filter`, each letter of it in either case. */
  lemma {:induction false} ReservedMeaning(s: string, i: nat)
    ensures ReservedAt(s, i) <==>
            && i + 6 <= |s|
            && Letter(s[i], 'f', 'F') && Letter(s[i + 1], 'i', 'I') && Letter(s[i + 2], 'l', 'L')
            && Letter(s[i + 3], 't', 'T') && Letter(s[i + 4], 'e', 'E') && Letter(s[i + 5], 'r', 'R')
  {
    if i + 6 <= |s| {
      var w := s[i..i + 6];
      assert RESERVED == ['f', 'i', 'l', 't', 'e', 'r'];
      assert w[0] == s[i] && w[1] == s[i + 1] && w[2] == s[i + 2] && w[3] == s[i + 3] && w[4] == s[i + 4] &&
        w[5] == s[i + 5];
      LowerIs(s[i], 'f', 'F');
      LowerIs(s[i + 1], 'i', 'I');
      LowerIs(s[i + 2], 'l', 'L');
      LowerIs(s[i + 3], 't', 'T');
      LowerIs(s[i + 4], 'e', 'E');
      LowerIs(s[i + 5], 'r', 'R');
      hide Lower, Letter;
      if Lowered(w) == RESERVED {
        assert forall k | 0 <= k < 6 :: Lowered(w)[k] == RESERVED[k];
      }
    }
  }

  lemma LowerIs(c: char, lower: char, upper: char)
    requires 'a' <= lower <= 'z' && 'A' <= upper <= 'Z' && upper - 'A' == lower - 'a'
    ensures Lower(c) == lower <==> Letter(c, lower, upper)
  {
  }

  /** A name of letters, digits and underscores that is not empty and free of the reserved word stays as it is. */
  lemma {:induction false} UsableStays(name: string)
    requires name != "" && ReservedFree(name)
    requires forall c | c in name :: 'a' <= c <= 'z' || 'A' <= c <= 'Z' || '0' <= c <= '9' || c == '_'
    ensures SanitizedName(name) == name && NameOk(name)
  {
    AllowedStays(name);
    assert FindReserved(name, 0) == |name|;
  }

  /** Other characters are dropped, in their places and nothing else. */
  lemma {:induction false} DropsForbidden(a: string, c: char, b: string)
    ensures OnlyAllowed(a + [c] + b) == OnlyAllowed(a) + (if Allowed(c) then [c] else "") + OnlyAllowed(b)
  {
    hide Allowed;
    if a == "" {
      assert (a + [c] + b)[1..] == b;
      assert "" + OnlyAllowed(b) == OnlyAllowed(b);
    } else {
      var rest := a[1..] + [c] + b;
      assert (a + [c] + b)[1..] == rest;
      DropsForbidden(a[1..], c, b);
    }
  }

  /** The reserved word becomes another one, and a name of which nothing is left a fixed one. */
  lemma {:induction false} ReservedReplaced(a: string, w: string)
    requires ReservedAt(w, 0) && |w| == 6 && ReservedFree(a) && (forall c | c in a :: Allowed(c)) &&
             ReservedFree(a + w[..5])
    ensures SanitizedName(a + w) == a + "Contract"
    ensures SanitizedName("") == "FoundryContract"
  {
    var s := a + w;
    NothingLeft();
    WordAllowed(w);
    forall c | c in s ensures Allowed(c) {
      assert c in a || c in w;
    }
    AllowedStays(s);
    forall j | 0 <= j < |a| ensures !ReservedAt(s, j) {
      if j + 6 <= |s| {
        assert s[j..j + 6] == (a + w[..5])[j..j + 6];
        assert !ReservedAt(a + w[..5], j);
      }
    }
    assert s[|a|..] == w && s[..|a|] == a && w[6..] == "";
    assert OnePass("") == "" && REPLACEMENT + "" == "Contract";
    assert OnePass(w) == "Contract";
    hide ReservedAt, Allowed, OnlyAllowed, OnePass, Unreserved;
    OnePassSkips(s, |a|);
    LoopIsOnePass(s);
    assert |a + "Contract"| >= 8;
  }

  lemma NothingLeft()
    ensures SanitizedName("") == "FoundryContract"
  {
    assert FindReserved("", 0) == 0;
  }

  lemma WordAllowed(w: string)
    requires ReservedAt(w, 0) && |w| == 6
    ensures forall c | c in w :: Allowed(c)
  {
    ReservedMeaning(w, 0);
    hide ReservedAt;
    forall c | c in w ensures Allowed(c) {
      var k :| 0 <= k < 6 && w[k] == c;
    }
  }
}
