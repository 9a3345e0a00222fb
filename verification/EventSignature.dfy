/** Event signatures: what is printed for hashing, and a parser that reads it back. */
module EventSignature {
  import opened Options

  datatype ABIInput = ABIInput(name: string, typeName: string, components: Components)

  /** The members of a tuple type, if they are given. */
  datatype Components = Missing | Components(inputs: seq<ABIInput>)

  datatype ABIItem = ABIItem(name: string, kind: string, inputs: seq<ABIInput>)

  datatype ParamTypeError = MissingComponents

  // ----- printing

  /** The number of leading characters that are not in `stops`. */
  function Until(s: string, stops: set<char>): (k: nat)
    ensures k <= |s|
    ensures forall i | 0 <= i < k :: s[i] !in stops
    ensures k < |s| ==> s[k] in stops
  {
    if s == "" || s[0] in stops then 0 else 1 + Until(s[1..], stops)
  }

  function BaseType(typeName: string): string { typeName[..Until(typeName, {'['})] }

  function ArraySuffix(typeName: string): string { typeName[Until(typeName, {'['})..] }

  function Join(parts: seq<string>): string {
    if parts == [] then ""
    else if |parts| == 1 then parts[0]
    else parts[0] + "," + Join(parts[1..])
  }

  function FormatParamType(input: ABIInput): Result<string, ParamTypeError> {
    var suffix := ArraySuffix(input.typeName);
    if BaseType(input.typeName) == "tuple" then
      match input.components
      case Missing => Err(MissingComponents)
      case Components(components) =>
        var inner := FormatAll(components);
        if inner.Err? then Err(inner.error) else Ok("(" + Join(inner.value) + ")" + suffix)
    else Ok(BaseType(input.typeName) + suffix)
  }

  function FormatAll(inputs: seq<ABIInput>): (r: Result<seq<string>, ParamTypeError>)
    ensures r.Ok? ==> |r.value| == |inputs|
  {
    if inputs == [] then Ok([])
    else
      var head := FormatParamType(inputs[0]);
      if head.Err? then Err(head.error)
      else
        var rest := FormatAll(inputs[1..]);
        if rest.Err? then rest else Ok([head.value] + rest.value)
  }

  function FormatEventSignature(item: ABIItem): Result<string, ParamTypeError> {
    var params := FormatAll(item.inputs);
    if params.Err? then Err(params.error) else Ok(item.name + "(" + Join(params.value) + ")")
  }

  /** The printer for a single parameter type: it expands a plain tuple, but no tuple array. */
  function FormatPlainType(input: ABIInput): Result<string, ParamTypeError> {
    if input.typeName == "tuple" then
      match input.components
      case Missing => Err(MissingComponents)
      case Components(components) =>
        var inner := FormatPlainAll(components);
        if inner.Err? then Err(inner.error) else Ok("(" + Join(inner.value) + ")")
    else Ok(input.typeName)
  }

  function FormatPlainAll(inputs: seq<ABIInput>): (r: Result<seq<string>, ParamTypeError>)
    ensures r.Ok? ==> |r.value| == |inputs|
  {
    if inputs == [] then Ok([])
    else
      var head := FormatPlainType(inputs[0]);
      if head.Err? then Err(head.error)
      else
        var rest := FormatPlainAll(inputs[1..]);
        if rest.Err? then rest else Ok([head.value] + rest.value)
  }

  // ----- shapes

  /** A type as a tree: an elementary or tuple type, with its array suffix. */
  datatype Shape = Elementary(base: string, suffix: string) | Tuple(members: seq<Shape>, suffix: string)

  function Print(x: Shape): string {
    match x
    case Elementary(base, suffix) => base + suffix
    case Tuple(members, suffix) => "(" + PrintList(members) + ")" + suffix
  }

  function PrintList(xs: seq<Shape>): string {
    if xs == [] then ""
    else if |xs| == 1 then Print(xs[0])
    else Print(xs[0]) + "," + PrintList(xs[1..])
  }

  const OUTER: set<char> := {',', '(', ')'}
  const STOPS: set<char> := {'[', ',', '(', ')'}

  predicate Free(s: string, stops: set<char>) {
    forall c | c in s :: c !in stops
  }

  predicate SuffixOk(suffix: string) {
    Free(suffix, OUTER) && (suffix != "" ==> suffix[0] == '[')
  }

  predicate ShapeOk(x: Shape) {
    match x
    case Elementary(base, suffix) => base != "" && Free(base, STOPS) && SuffixOk(suffix)
    case Tuple(members, suffix) => SuffixOk(suffix) && AllOk(members)
  }

  predicate AllOk(xs: seq<Shape>) {
    xs == [] || (ShapeOk(xs[0]) && AllOk(xs[1..]))
  }

  // ----- parsing

  function ParseType(s: string): (r: Option<(Shape, string)>)
    ensures r.Some? ==> |r.value.1| < |s|
    decreases |s|, 0
  {
    if s == "" then None
    else if s[0] == '(' then
      match ParseMembers(s[1..])
      case None => None
      case Some((members, rest)) =>
        var k := Until(rest, OUTER);
        if k > 0 && rest[0] != '[' then None else Some((Tuple(members, rest[..k]), rest[k..]))
    else
      var k := Until(s, STOPS);
      var l := Until(s[k..], OUTER);
      if k == 0 then None else Some((Elementary(s[..k], s[k..][..l]), s[k..][l..]))
  }

  /** Members up to and including the closing parenthesis. */
  function ParseMembers(s: string): (r: Option<(seq<Shape>, string)>)
    ensures r.Some? ==> |r.value.1| < |s|
    decreases |s|, 1
  {
    if s == "" then None
    else if s[0] == ')' then Some(([], s[1..]))
    else
      match ParseType(s)
      case None => None
      case Some((x, rest)) =>
        if rest == "" then None
        else if rest[0] == ')' then Some(([x], rest[1..]))
        else if rest[0] != ',' then None
        else
          match ParseMembers(rest[1..])
          case None => None
          case Some((xs, rest')) => if xs == [] then None else Some(([x] + xs, rest'))
  }

  function ParseSignature(s: string): Option<(string, seq<Shape>)> {
    var k := Until(s, {'('});
    if k == |s| then None
    else
      match ParseMembers(s[k + 1..])
      case None => None
      case Some((xs, rest)) => if rest == "" then Some((s[..k], xs)) else None
  }

  // ----- the parser inverts the printer

  lemma {:induction false} UntilEnds(a: string, b: string, stops: set<char>)
    requires Free(a, stops) && (b != "" ==> b[0] in stops)
    ensures Until(a + b, stops) == |a|
  {
    if a == "" {
      assert a + b == b;
    } else {
      assert a[0] in a && (a + b)[1..] == a[1..] + b;
      UntilEnds(a[1..], b, stops);
    }
  }

  predicate Closes(rest: string) {
    rest == "" || rest[0] == ',' || rest[0] == ')'
  }

  lemma ElementaryParses(base: string, suffix: string, rest: string)
    requires ShapeOk(Elementary(base, suffix)) && Closes(rest)
    ensures ParseType(base + (suffix + rest)) == Some((Elementary(base, suffix), rest))
  {
    var tail := suffix + rest;
    var s := base + tail;
    UntilEnds(base, tail, STOPS);
    UntilEnds(suffix, rest, OUTER);
    assert base[0] in base && s[0] == base[0];
    hide Until, ParseMembers, Free;
    assert s[|base|..] == tail && s[..|base|] == base;
    assert tail[..|suffix|] == suffix && tail[|suffix|..] == rest;
  }

  lemma TupleParses(inner: string, members: seq<Shape>, suffix: string, rest: string)
    requires SuffixOk(suffix) && Closes(rest) && ParseMembers(inner) == Some((members, suffix + rest))
    ensures ParseType("(" + inner) == Some((Tuple(members, suffix), rest))
  {
    var tail := suffix + rest;
    var s := "(" + inner;
    UntilEnds(suffix, rest, OUTER);
    hide Until, ParseMembers, Free;
    assert s[0] == '(' && s[1..] == inner;
    assert tail[..|suffix|] == suffix && tail[|suffix|..] == rest;
    assert suffix != "" ==> tail[0] == suffix[0];
  }

  lemma PrintParts(x: Shape, rest: string)
    ensures x.Elementary? ==> Print(x) + rest == x.base + (x.suffix + rest)
    ensures x.Tuple? ==> Print(x) + rest == "(" + (PrintList(x.members) + ")" + (x.suffix + rest))
  {
    hide PrintList;
  }

  lemma {:induction false} TypeRoundTrip(x: Shape, rest: string)
    requires ShapeOk(x) && Closes(rest)
    ensures ParseType(Print(x) + rest) == Some((x, rest))
    decreases x, 1
  {
    hide Print, PrintList, ParseType, ParseMembers, Closes;
    PrintParts(x, rest);
    match x
    case Elementary(base, suffix) => ElementaryParses(base, suffix, rest);
    case Tuple(members, suffix) =>
      MembersRoundTrip(members, suffix + rest);
      TupleParses(PrintList(members) + ")" + (suffix + rest), members, suffix, rest);
  }

  lemma PrintStarts(x: Shape, rest: string)
    requires ShapeOk(x)
    ensures Print(x) + rest != "" && (Print(x) + rest)[0] != ')'
  {
    PrintParts(x, rest);
    hide Print, PrintList;
    if x.Elementary? {
      assert x.base[0] in x.base;
    }
  }

  lemma NoMembers(rest: string)
    ensures ParseMembers(")" + rest) == Some(([], rest))
  {
    var s := ")" + rest;
    assert s[0] == ')' && s[1..] == rest;
  }

  lemma LastMember(s: string, x: Shape, rest: string)
    requires s != "" && s[0] != ')' && ParseType(s) == Some((x, ")" + rest))
    ensures ParseMembers(s) == Some(([x], rest))
  {
    hide ParseType;
    var r := ")" + rest;
    assert r[0] == ')' && r[1..] == rest;
  }

  lemma NextMember(s: string, x: Shape, tail: string, xs: seq<Shape>, rest: string)
    requires s != "" && s[0] != ')' && ParseType(s) == Some((x, "," + tail))
    requires xs != [] && ParseMembers(tail) == Some((xs, rest))
    ensures ParseMembers(s) == Some(([x] + xs, rest))
  {
    hide ParseType;
    var r := "," + tail;
    assert r[0] == ',' && r[1..] == tail;
  }

  lemma PrintNone(rest: string)
    ensures PrintList([]) + ")" + rest == ")" + rest
  {
  }

  lemma PrintOne(x: Shape, rest: string)
    ensures PrintList([x]) + ")" + rest == Print(x) + (")" + rest)
  {
    hide Print;
    assert PrintList([x]) == Print(x);
  }

  lemma PrintMore(x: Shape, xs: seq<Shape>, rest: string)
    requires xs != []
    ensures PrintList([x] + xs) + ")" + rest == Print(x) + ("," + (PrintList(xs) + ")" + rest))
  {
    var list := [x] + xs;
    assert list[1..] == xs;
    assert PrintList(list) == Print(x) + "," + PrintList(xs);
    hide Print, PrintList;
  }

  lemma CloseAt(c: char, rest: string)
    requires c == ',' || c == ')'
    ensures Closes([c] + rest)
  {
  }

  lemma OneRoundTrip(x: Shape, rest: string)
    requires ShapeOk(x) && ParseType(Print(x) + (")" + rest)) == Some((x, ")" + rest))
    ensures ParseMembers(PrintList([x]) + ")" + rest) == Some(([x], rest))
  {
    hide *;
    PrintOne(x, rest);
    PrintStarts(x, ")" + rest);
    LastMember(Print(x) + (")" + rest), x, rest);
  }

  lemma MoreRoundTrip(x: Shape, xs: seq<Shape>, rest: string, tail: string)
    requires ShapeOk(x) && xs != [] && tail == PrintList(xs) + ")" + rest
    requires ParseType(Print(x) + ("," + tail)) == Some((x, "," + tail)) && ParseMembers(tail) == Some((xs, rest))
    ensures ParseMembers(PrintList([x] + xs) + ")" + rest) == Some(([x] + xs, rest))
  {
    hide *;
    PrintMore(x, xs, rest);
    PrintStarts(x, "," + tail);
    NextMember(Print(x) + ("," + tail), x, tail, xs, rest);
  }

  lemma OkParts(xs: seq<Shape>)
    requires AllOk(xs) && xs != []
    ensures ShapeOk(xs[0]) && AllOk(xs[1..])
  {
  }

  lemma {:induction false} MembersRoundTrip(xs: seq<Shape>, rest: string)
    requires AllOk(xs)
    ensures ParseMembers(PrintList(xs) + ")" + rest) == Some((xs, rest))
    decreases xs, 0
  {
    hide *;
    if xs == [] {
      PrintNone(rest);
      NoMembers(rest);
    } else {
      OkParts(xs);
      var x, others := xs[0], xs[1..];
      if others == [] {
        assert xs == [x];
        CloseAt(')', rest);
        TypeRoundTrip(x, ")" + rest);
        OneRoundTrip(x, rest);
      } else {
        var tail := PrintList(others) + ")" + rest;
        CloseAt(',', tail);
        TypeRoundTrip(x, "," + tail);
        MembersRoundTrip(others, rest);
        MoreRoundTrip(x, others, rest, tail);
        assert xs == [x] + others;
      }
    }
  }

  // ----- what is printed for an ABI

  /** The type tree of an input whose tuples all have components. */
  function ShapeOf(input: ABIInput): Option<Shape> {
    var suffix := ArraySuffix(input.typeName);
    if BaseType(input.typeName) == "tuple" then
      match input.components
      case Missing => None
      case Components(components) =>
        var members := ShapesOf(components);
        if members.None? then None else Some(Tuple(members.value, suffix))
    else Some(Elementary(BaseType(input.typeName), suffix))
  }

  function ShapesOf(inputs: seq<ABIInput>): Option<seq<Shape>> {
    if inputs == [] then Some([])
    else
      var head, rest := ShapeOf(inputs[0]), ShapesOf(inputs[1..]);
      if head.None? || rest.None? then None else Some([head.value] + rest.value)
  }

  /** Type names with a base, and without the characters that structure a signature. */
  predicate NamesOk(input: ABIInput) {
    && Free(input.typeName, OUTER) && BaseType(input.typeName) != ""
    && (input.components.Components? ==> AllNamesOk(input.components.inputs))
  }

  predicate AllNamesOk(inputs: seq<ABIInput>) {
    inputs == [] || (NamesOk(inputs[0]) && AllNamesOk(inputs[1..]))
  }

  lemma TypeNameSplits(typeName: string)
    requires Free(typeName, OUTER) && BaseType(typeName) != ""
    ensures typeName == BaseType(typeName) + ArraySuffix(typeName)
    ensures Free(BaseType(typeName), STOPS) && SuffixOk(ArraySuffix(typeName))
  {
    var k := Until(typeName, {'['});
    forall c | c in typeName[..k] ensures c !in STOPS {
      var i :| 0 <= i < k && typeName[i] == c;
      assert typeName[i] !in {'['} && c in typeName;
    }
    forall c | c in typeName[k..] ensures c !in OUTER {
      assert c in typeName;
    }
  }

  lemma {:induction false} FormatsShape(input: ABIInput)
    requires NamesOk(input)
    ensures FormatParamType(input).Ok? <==> ShapeOf(input).Some?
    ensures ShapeOf(input).Some? ==>
              ShapeOk(ShapeOf(input).value) && FormatParamType(input).value == Print(ShapeOf(input).value)
    decreases input, 1
  {
    TypeNameSplits(input.typeName);
    if BaseType(input.typeName) == "tuple" && input.components.Components? {
      FormatsShapes(input.components.inputs);
    }
  }

  lemma {:induction false} FormatsShapes(inputs: seq<ABIInput>)
    requires AllNamesOk(inputs)
    ensures FormatAll(inputs).Ok? <==> ShapesOf(inputs).Some?
    ensures ShapesOf(inputs).Some? ==> |ShapesOf(inputs).value| == |inputs|
    ensures ShapesOf(inputs).Some? ==>
              AllOk(ShapesOf(inputs).value) && Join(FormatAll(inputs).value) == PrintList(ShapesOf(inputs).value)
    decreases inputs, 0
  {
    if inputs != [] {
      FormatsShape(inputs[0]);
      FormatsShapes(inputs[1..]);
      hide FormatParamType, ShapeOf, ShapeOk, Print, NamesOk;
      if ShapesOf(inputs).Some? {
        var f, x := FormatAll(inputs).value, ShapesOf(inputs).value;
        assert f[1..] == FormatAll(inputs[1..]).value && x[1..] == ShapesOf(inputs[1..]).value;
      }
    }
  }

  /** A signature can be read back: it determines the event's name and the tree of its types, array suffixes
      included. It is missing exactly when some tuple has no components. */
  lemma {:induction false} SignatureRoundTrip(item: ABIItem)
    requires Free(item.name, {'('}) && AllNamesOk(item.inputs)
    ensures FormatEventSignature(item).Ok? <==> ShapesOf(item.inputs).Some?
    ensures FormatEventSignature(item).Ok? ==>
              ParseSignature(FormatEventSignature(item).value) == Some((item.name, ShapesOf(item.inputs).value))
  {
    FormatsShapes(item.inputs);
    if ShapesOf(item.inputs).Some? {
      var xs := ShapesOf(item.inputs).value;
      MembersRoundTrip(xs, "");
      ListParses(item.name, PrintList(xs) + ")" + "", xs);
      hide *;
      SignatureParts(item, PrintList(xs));
    }
  }

  lemma SignatureParts(item: ABIItem, list: string)
    requires FormatAll(item.inputs).Ok? && Join(FormatAll(item.inputs).value) == list
    ensures FormatEventSignature(item) == Ok(item.name + ("(" + (list + ")" + "")))
  {
    var params := FormatAll(item.inputs).value;
    assert FormatEventSignature(item) == Ok(item.name + "(" + Join(params) + ")");
    hide *;
    assert item.name + "(" + list + ")" == item.name + ("(" + (list + ")" + ""));
  }

  lemma ListParses(name: string, tail: string, xs: seq<Shape>)
    requires Free(name, {'('}) && ParseMembers(tail) == Some((xs, ""))
    ensures ParseSignature(name + ("(" + tail)) == Some((name, xs))
  {
    var r := "(" + tail;
    var s := name + r;
    UntilEnds(name, r, {'('});
    hide Until, ParseMembers, Free;
    assert s[|name| + 1..] == tail && s[..|name|] == name;
  }

  /** Events have equal signatures exactly when they have the same name and the same types. */
  lemma {:induction false} SignatureInjective(a: ABIItem, b: ABIItem)
    requires Free(a.name, {'('}) && AllNamesOk(a.inputs) && Free(b.name, {'('}) && AllNamesOk(b.inputs)
    requires FormatEventSignature(a).Ok? && FormatEventSignature(b).Ok?
    ensures FormatEventSignature(a) == FormatEventSignature(b) <==>
            a.name == b.name && ShapesOf(a.inputs) == ShapesOf(b.inputs)
  {
    SignatureRoundTrip(a);
    SignatureRoundTrip(b);
    FormatsShapes(a.inputs);
    FormatsShapes(b.inputs);
    hide ParseSignature, AllNamesOk, ShapesOf, FormatAll, PrintList, AllOk;
  }

  // ----- the printer is onto what the parser accepts

  lemma UntilFree(s: string, stops: set<char>, k: nat)
    requires k <= Until(s, stops)
    ensures Free(s[..k], stops)
  {
    forall c | c in s[..k] ensures c !in stops {
      var i :| 0 <= i < k && s[i] == c;
    }
  }

  lemma {:induction false} ParsedType(s: string)
    requires ParseType(s).Some?
    ensures var (x, rest) := ParseType(s).value; ShapeOk(x) && Print(x) + rest == s
    decreases |s|, 0
  {
    if s[0] == '(' {
      assert ParseMembers(s[1..]).Some?;
      ParsedMembers(s[1..]);
      var (members, rest) := ParseMembers(s[1..]).value;
      ParsedTuple(s, members, rest);
    } else {
      ParsedElementary(s);
    }
  }

  lemma SuffixSplit(s: string)
    requires s != "" && Until(s, OUTER) > 0 ==> s[0] == '['
    ensures var k := Until(s, OUTER); SuffixOk(s[..k]) && s == s[..k] + s[k..]
  {
    hide *;
    var k := Until(s, OUTER);
    UntilFree(s, OUTER, k);
    SuffixFrom(s, k);
  }

  lemma SuffixFrom(s: string, k: nat)
    requires k <= |s| && Free(s[..k], OUTER) && (k > 0 ==> s[0] == '[')
    ensures SuffixOk(s[..k]) && s == s[..k] + s[k..]
  {
    hide Free;
  }

  lemma ParsedTuple(s: string, members: seq<Shape>, tail: string)
    requires ParseType(s).Some? && s[0] == '(' && ParseMembers(s[1..]) == Some((members, tail))
    requires AllOk(members) && s[1..] == PrintList(members) + ")" + tail
    ensures var (x, rest) := ParseType(s).value; ShapeOk(x) && Print(x) + rest == s
  {
    hide ParseMembers, Until, PrintList;
    var k := Until(tail, OUTER);
    var x, rest := Tuple(members, tail[..k]), tail[k..];
    assert ParseType(s) == Some((x, rest));
    SuffixSplit(tail);
    hide ParseType, Print, ShapeOk, SuffixOk;
    assert ShapeOk(x) by { TupleOk(members, tail[..k]); }
    PrintParts(x, rest);
    assert s == "(" + s[1..];
  }

  lemma TupleOk(members: seq<Shape>, suffix: string)
    requires AllOk(members) && SuffixOk(suffix)
    ensures ShapeOk(Tuple(members, suffix))
  {
  }

  lemma ParsedBase(s: string)
    requires s != "" && s[0] != '(' && ParseType(s).Some?
    ensures var k := Until(s, STOPS); var t := s[k..]; var l := Until(t, OUTER);
            k > 0 && ParseType(s) == Some((Elementary(s[..k], t[..l]), t[l..]))
  {
    hide Until, ParseMembers;
  }

  lemma SuffixStarts(s: string)
    ensures var t := s[Until(s, STOPS)..]; t != "" && Until(t, OUTER) > 0 ==> t[0] == '['
  {
    var k := Until(s, STOPS);
    assert k < |s| ==> s[k..][0] == s[k];
  }

  lemma ElementaryOk(base: string, suffix: string)
    requires base != "" && Free(base, STOPS) && SuffixOk(suffix)
    ensures ShapeOk(Elementary(base, suffix))
  {
  }

  lemma ParsedElementary(s: string)
    requires s != "" && s[0] != '(' && ParseType(s).Some?
    ensures var (x, rest) := ParseType(s).value; ShapeOk(x) && Print(x) + rest == s
  {
    hide *;
    ParsedBase(s);
    var k := Until(s, STOPS);
    var t := s[k..];
    SuffixStarts(s);
    UntilFree(s, STOPS, k);
    SuffixSplit(t);
    var l := Until(t, OUTER);
    ElementaryFrom(s, k, t, l);
  }

  lemma ElementaryFrom(s: string, k: nat, t: string, l: nat)
    requires 0 < k <= |s| && t == s[k..] && l <= |t|
    requires Free(s[..k], STOPS) && SuffixOk(t[..l]) && t == t[..l] + t[l..]
    ensures var x := Elementary(s[..k], t[..l]); ShapeOk(x) && Print(x) + t[l..] == s
  {
    hide *;
    ElementaryOk(s[..k], t[..l]);
    PrintParts(Elementary(s[..k], t[..l]), t[l..]);
    assert s == s[..k] + t;
  }

  lemma {:induction false} ParsedMembers(s: string)
    requires ParseMembers(s).Some?
    ensures var (xs, rest) := ParseMembers(s).value; AllOk(xs) && PrintList(xs) + ")" + rest == s
    decreases |s|, 1
  {
    hide ParseType, Print, ShapeOk;
    var (ys, rest) := ParseMembers(s).value;
    if s[0] == ')' {
      hide *;
      ParsedNone(s);
    } else {
      assert ParseType(s).Some?;
      ParsedType(s);
      var (x, r) := ParseType(s).value;
      if r[0] == ')' {
        ParsedLast(s, x, r);
      } else {
        assert ParseMembers(r[1..]).Some?;
        ParsedMembers(r[1..]);
        var (xs, r') := ParseMembers(r[1..]).value;
        ParsedNext(s, x, r, xs, r');
      }
    }
  }

  lemma ParsedNone(s: string)
    requires s != "" && s[0] == ')'
    ensures ParseMembers(s) == Some(([], s[1..])) && AllOk([]) && PrintList([]) + ")" + s[1..] == s
  {
    hide ParseType;
  }

  lemma ParsedLast(s: string, x: Shape, r: string)
    requires s != "" && s[0] != ')' && ParseType(s) == Some((x, r)) && r != "" && r[0] == ')'
    requires ShapeOk(x) && Print(x) + r == s
    ensures ParseMembers(s) == Some(([x], r[1..])) && AllOk([x]) && PrintList([x]) + ")" + r[1..] == s
  {
    hide ParseType, Print, ShapeOk;
    assert r == ")" + r[1..] && [x][1..] == [];
    PrintOne(x, r[1..]);
  }

  lemma ParsedNext(s: string, x: Shape, r: string, xs: seq<Shape>, rest: string)
    requires s != "" && s[0] != ')' && ParseType(s) == Some((x, r)) && r != "" && r[0] == ','
    requires ParseMembers(r[1..]) == Some((xs, rest)) && xs != []
    requires ShapeOk(x) && Print(x) + r == s
    requires AllOk(xs) && PrintList(xs) + ")" + rest == r[1..]
    ensures ParseMembers(s) == Some(([x] + xs, rest)) && AllOk([x] + xs) && PrintList([x] + xs) + ")" + rest == s
  {
    hide ParseType, Print, ShapeOk, PrintList;
    assert ([x] + xs)[1..] == xs;
    assert r == "," + r[1..];
    assert ParseMembers(s) == Some(([x] + xs, rest));
    hide *;
    PrintMore(x, xs, rest);
  }

  /** Every text that parses is printed for exactly the types that it parses to. */
  lemma {:induction false} ParsedSignature(s: string)
    requires ParseSignature(s).Some?
    ensures var (name, xs) := ParseSignature(s).value;
            AllOk(xs) && Free(name, {'('}) && s == name + "(" + PrintList(xs) + ")"
  {
    var k := Until(s, {'('});
    ParsedMembers(s[k + 1..]);
    UntilFree(s, {'('}, k);
    var (xs, rest) := ParseMembers(s[k + 1..]).value;
    hide *;
    Reassembled(s, k, PrintList(xs));
  }

  lemma Reassembled(s: string, k: nat, list: string)
    requires k < |s| && s[k] == '(' && s[k + 1..] == list + ")" + ""
    ensures s == s[..k] + "(" + list + ")"
  {
    assert s == s[..k] + ("(" + s[k + 1..]);
  }

  // ----- the two printers

  /** The tree that the single-parameter printer prints: a tuple array stays a name. */
  function PlainShapeOf(input: ABIInput): Option<Shape> {
    if input.typeName == "tuple" then
      match input.components
      case Missing => None
      case Components(components) =>
        var members := PlainShapesOf(components);
        if members.None? then None else Some(Tuple(members.value, ""))
    else Some(Elementary(BaseType(input.typeName), ArraySuffix(input.typeName)))
  }

  function PlainShapesOf(inputs: seq<ABIInput>): Option<seq<Shape>> {
    if inputs == [] then Some([])
    else
      var head, rest := PlainShapeOf(inputs[0]), PlainShapesOf(inputs[1..]);
      if head.None? || rest.None? then None else Some([head.value] + rest.value)
  }

  lemma {:induction false} FormatsPlainShape(input: ABIInput)
    requires NamesOk(input)
    ensures FormatPlainType(input).Ok? <==> PlainShapeOf(input).Some?
    ensures PlainShapeOf(input).Some? ==>
              ShapeOk(PlainShapeOf(input).value) && FormatPlainType(input).value == Print(PlainShapeOf(input).value)
    decreases input, 1
  {
    TypeNameSplits(input.typeName);
    if input.typeName == "tuple" && input.components.Components? {
      FormatsPlainShapes(input.components.inputs);
    }
  }

  lemma {:induction false} FormatsPlainShapes(inputs: seq<ABIInput>)
    requires AllNamesOk(inputs)
    ensures FormatPlainAll(inputs).Ok? <==> PlainShapesOf(inputs).Some?
    ensures PlainShapesOf(inputs).Some? ==> |PlainShapesOf(inputs).value| == |inputs|
    ensures PlainShapesOf(inputs).Some? ==>
              AllOk(PlainShapesOf(inputs).value) &&
                Join(FormatPlainAll(inputs).value) == PrintList(PlainShapesOf(inputs).value)
    decreases inputs, 0
  {
    if inputs != [] {
      FormatsPlainShape(inputs[0]);
      FormatsPlainShapes(inputs[1..]);
      hide FormatPlainType, PlainShapeOf, ShapeOk, Print, NamesOk;
      if PlainShapesOf(inputs).Some? {
        var f, x := FormatPlainAll(inputs).value, PlainShapesOf(inputs).value;
        assert f[1..] == FormatPlainAll(inputs[1..]).value && x[1..] == PlainShapesOf(inputs[1..]).value;
      }
    }
  }

  /** A tuple array among the type and, through plain tuples, its members. */
  predicate HasTupleArray(input: ABIInput) {
    if input.typeName == "tuple" then input.components.Components? && SomeTupleArray(input.components.inputs)
    else BaseType(input.typeName) == "tuple"
  }

  predicate SomeTupleArray(inputs: seq<ABIInput>) {
    inputs != [] && (HasTupleArray(inputs[0]) || SomeTupleArray(inputs[1..]))
  }

  lemma TupleBase()
    ensures BaseType("tuple") == "tuple" && ArraySuffix("tuple") == ""
  {
    UntilEnds("tuple", "", {'['});
    assert "tuple" + "" == "tuple";
  }

  lemma {:induction false} SameShape(input: ABIInput)
    requires ShapeOf(input).Some? && PlainShapeOf(input).Some?
    ensures ShapeOf(input) == PlainShapeOf(input) <==> !HasTupleArray(input)
    decreases input, 1
  {
    TupleBase();
    if input.typeName == "tuple" {
      SameShapes(input.components.inputs);
    }
  }

  lemma {:induction false} SameShapes(inputs: seq<ABIInput>)
    requires ShapesOf(inputs).Some? && PlainShapesOf(inputs).Some?
    ensures ShapesOf(inputs) == PlainShapesOf(inputs) <==> !SomeTupleArray(inputs)
    decreases inputs, 0
  {
    if inputs != [] {
      SameShape(inputs[0]);
      SameShapes(inputs[1..]);
      hide ShapeOf, PlainShapeOf, HasTupleArray;
      var x, y := ShapesOf(inputs).value, PlainShapesOf(inputs).value;
      assert x[1..] == ShapesOf(inputs[1..]).value && y[1..] == PlainShapesOf(inputs[1..]).value;
    }
  }

  /** The two printers of parameter types agree exactly where no tuple array occurs. */
  lemma {:induction false} PrintersAgreeExactly(input: ABIInput)
    requires NamesOk(input) && FormatParamType(input).Ok? && FormatPlainType(input).Ok?
    ensures FormatParamType(input) == FormatPlainType(input) <==> !HasTupleArray(input)
  {
    FormatsShape(input);
    FormatsPlainShape(input);
    SameShape(input);
    var x, y := ShapeOf(input).value, PlainShapeOf(input).value;
    hide ShapeOf, PlainShapeOf, HasTupleArray, FormatParamType, FormatPlainType, NamesOk, ParseType, Print, ShapeOk;
    TypeRoundTrip(x, "");
    TypeRoundTrip(y, "");
    assert Print(x) + "" == Print(x) && Print(y) + "" == Print(y);
  }

  /** An array of tuples is expanded by one printer and left as it is by the other. */
  lemma {:induction false} PrintersDiffer(member: ABIInput, input: ABIInput)
    requires member == ABIInput("x", "uint256", Missing) && input == ABIInput("xs", "tuple[]", Components([member]))
    ensures FormatParamType(input) == Ok("(uint256)[]") && FormatPlainType(input) == Ok("tuple[]")
  {
    hide *;
    PlainPrint(member);
    OnePrint(member);
    TupleArrayParts();
    ExpandedPrint(input, member, "uint256", "[]");
    ShownPrint();
    KeptPrint(input);
  }

  lemma TupleArrayParts()
    ensures BaseType("tuple[]") == "tuple" && ArraySuffix("tuple[]") == "[]"
  {
    UntilIs("tuple[]", {'['}, 5);
    hide Until;
  }

  lemma ShownPrint()
    ensures "(" + "uint256" + ")" + "[]" == "(uint256)[]"
  {
  }

  lemma KeptPrint(input: ABIInput)
    requires input.typeName == "tuple[]"
    ensures FormatPlainType(input) == Ok(input.typeName)
  {
    assert |"tuple[]"| != |"tuple"|;
  }

  lemma ExpandedPrint(input: ABIInput, member: ABIInput, inner: string, suffix: string)
    requires BaseType(input.typeName) == "tuple" && ArraySuffix(input.typeName) == suffix
    requires input.components == Components([member]) && FormatAll([member]) == Ok([inner])
    ensures FormatParamType(input) == Ok("(" + inner + ")" + suffix)
  {
    hide BaseType, ArraySuffix, FormatAll;
  }

  lemma OnePrint(member: ABIInput)
    requires FormatParamType(member) == Ok("uint256")
    ensures FormatAll([member]) == Ok(["uint256"])
  {
    hide FormatParamType;
    assert [member][1..] == [] && FormatAll([]) == Ok([]) && ["uint256"] + [] == ["uint256"];
  }

  lemma PlainPrint(member: ABIInput)
    requires member.typeName == "uint256"
    ensures FormatParamType(member) == Ok("uint256")
  {
    UntilIs("uint256", {'['}, 7);
    assert "uint256"[..7] + "uint256"[7..] == "uint256";
  }

  lemma UntilIs(s: string, stops: set<char>, k: nat)
    requires k <= |s| && (forall i | 0 <= i < k :: s[i] !in stops) && (k < |s| ==> s[k] in stops)
    ensures Until(s, stops) == k
  {
    hide Until;
  }
}
