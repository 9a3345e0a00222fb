/** Column names of flattened event parameters, derived from the ABI and from a parameter path. */
module ColumnNames {
  import opened Options
  import opened EventSignature

  /** How one name becomes a part of a column name. */
  datatype Naming = Naming(snake: string -> string)

  datatype PathStep = PathStep(name: string, typeName: string)

  /** A generated column; at the root of the event the path is empty. */
  datatype Property = Property(value: string, name: string, typeName: string, path: seq<PathStep>)

  // ----- columns from the ABI

  const TUPLE_ARRAY: string := "tuple["

  /** Tuples are flattened into their members; arrays of tuples are kept whole. */
  predicate Flattened(input: ABIInput) {
    input.components.Components? && !(TUPLE_ARRAY <= input.typeName)
  }

  function Underscored(parts: seq<string>): string {
    if parts == [] then ""
    else if |parts| == 1 then parts[0]
    else parts[0] + "_" + Underscored(parts[1..])
  }

  function Snakes(naming: Naming, path: seq<PathStep>): (r: seq<string>)
    ensures |r| == |path| && forall i | 0 <= i < |r| :: r[i] == naming.snake(path[i].name)
  {
    if path == [] then [] else [naming.snake(path[0].name)] + Snakes(naming, path[1..])
  }

  function ColumnName(naming: Naming, path: seq<PathStep>, name: string): string {
    (if path == [] then "" else Underscored(Snakes(naming, path)) + "_") + naming.snake(name)
  }

  function Properties(naming: Naming, inputs: seq<ABIInput>, path: seq<PathStep>): seq<Property> {
    if inputs == [] then []
    else
      var input := inputs[0];
      (if Flattened(input)
       then Properties(naming, input.components.inputs, path + [PathStep(input.name, input.typeName)])
       else [Property(ColumnName(naming, path, input.name), input.name, input.typeName, path)])
      + Properties(naming, inputs[1..], path)
  }

  // ----- columns from a path

  datatype LookupError = EventNotFound | ParameterNotFound(name: string) | NotNested(name: string) | EmptyPath

  function FindInput(inputs: seq<ABIInput>, name: string): (r: Option<ABIInput>)
    ensures r.Some? ==> r.value in inputs && r.value.name == name
    ensures r.None? ==> forall x | x in inputs :: x.name != name
  {
    if inputs == [] then None
    else if inputs[0].name == name then Some(inputs[0])
    else FindInput(inputs[1..], name)
  }

  ghost predicate IsEvent(item: ABIItem, name: string) { item.name == name && item.kind == "event" }

  /** The first event of that name. */
  function FindEvent(items: seq<ABIItem>, name: string): (r: Option<ABIItem>)
    ensures r.None? <==> forall i | 0 <= i < |items| :: !IsEvent(items[i], name)
    ensures r.Some? ==> exists i | 0 <= i < |items| ::
              items[i] == r.value && IsEvent(items[i], name) && forall j | 0 <= j < i :: !IsEvent(items[j], name)
  {
    if items == [] then None
    else if items[0].name == name && items[0].kind == "event" then Some(items[0])
    else FindEvent(items[1..], name)
  }

  /** No separator is written as long as nothing has been written before it. */
  function Pushed(column: string, part: string): string {
    (if column == "" then "" else column + "_") + part
  }

  /** The walk stops at the first name that equals the last one, whether it has arrived there or not. */
  function Resolve(naming: Naming, inputs: seq<ABIInput>, names: seq<string>, column: string)
    : Result<(ABIInput, string), LookupError>
    decreases |names|
  {
    if names == [] then Err(EmptyPath)
    else
      match FindInput(inputs, names[0])
      case None => Err(ParameterNotFound(names[0]))
      case Some(input) =>
        var column' := Pushed(column, naming.snake(input.name));
        if names[0] == names[|names| - 1] then Ok((input, column'))
        else if input.typeName == "tuple" && input.components.Components?
        then Resolve(naming, input.components.inputs, names[1..], column')
        else Err(NotNested(names[0]))
  }

  ghost predicate FirstEvent(items: seq<ABIItem>, name: string, i: int) {
    0 <= i < |items| && IsEvent(items[i], name) && forall j | 0 <= j < i :: !IsEvent(items[j], name)
  }

  /** The names are the full path of this leaf of the parameter tree. */
  ghost predicate LeafAt(inputs: seq<ABIInput>, path: seq<PathStep>, leaf: ABIInput, names: seq<string>) {
    && DistinctSiblings(inputs) && TupleComponents(inputs) && Reaches(inputs, path, leaf)
    && names == Full(path, leaf)
  }

  /** No name on the path is the leaf's, and the first part of the column name is not empty, or is the only one. */
  ghost predicate FindsItself(naming: Naming, path: seq<PathStep>, leaf: ABIInput) {
    (forall i | 0 <= i < |path| :: path[i].name != leaf.name) && (path == [] || naming.snake(path[0].name) != "")
  }

  lemma FirstIsFound(items: seq<ABIItem>, name: string, i: int)
    requires FirstEvent(items, name, i)
    ensures FindEvent(items, name) == Some(items[i])
  {
    hide IsEvent, FindEvent;
    var k :| 0 <= k < |items| && items[k] == FindEvent(items, name).value && IsEvent(items[k], name) &&
             forall j | 0 <= j < k :: !IsEvent(items[j], name);
    if i < k { } else if k < i { }
  }

  lemma LeafResolves(naming: Naming, inputs: seq<ABIInput>, path: seq<PathStep>, leaf: ABIInput, names: seq<string>)
    requires LeafAt(inputs, path, leaf, names)
    ensures Resolve(naming, inputs, names, "") == Ok((leaf, ColumnName(naming, path, leaf.name))) <==>
            FindsItself(naming, path, leaf)
  {
    hide Resolve, ColumnName, DistinctSiblings, TupleComponents, Reaches;
    DerivationsAgreeExactly(naming, inputs, path, leaf);
  }

  lemma {:induction false} NeverNotFound(naming: Naming, inputs: seq<ABIInput>, names: seq<string>, column: string)
    ensures Resolve(naming, inputs, names, column) != Err(EventNotFound)
    decreases |names|
  {
    if names != [] {
      var input := FindInput(inputs, names[0]);
      if input.Some? && input.value.components.Components? {
        NeverNotFound(naming, input.value.components.inputs, names[1..], Pushed(column, naming.snake(names[0])));
      }
    }
  }

  lemma FoundOrNot(naming: Naming, items: seq<ABIItem>, name: string, names: seq<string>)
    ensures FindEvent(items, name).Some? ==>
            Resolve(naming, FindEvent(items, name).value.inputs, names, "") != Err(EventNotFound)
  {
    hide FindEvent, Resolve;
    if FindEvent(items, name).Some? {
      NeverNotFound(naming, FindEvent(items, name).value.inputs, names, "");
    }
  }

  method GetAbiItemWithDbMap(naming: Naming, items: seq<ABIItem>, eventName: string, names: seq<string>)
    returns (r: Result<(ABIInput, string), LookupError>)
    ensures var event := FindEvent(items, eventName);
            r == if event.None? then Err(EventNotFound) else Resolve(naming, event.value.inputs, names, "")
    ensures r == Err(EventNotFound) <==> forall i | 0 <= i < |items| :: !IsEvent(items[i], eventName)
    ensures forall i, path, leaf | FirstEvent(items, eventName, i) && LeafAt(items[i].inputs, path, leaf, names) ::
              r == Ok((leaf, ColumnName(naming, path, leaf.name))) <==> FindsItself(naming, path, leaf)
  {
    forall i, path, leaf | FirstEvent(items, eventName, i) && LeafAt(items[i].inputs, path, leaf, names)
      ensures FindEvent(items, eventName) == Some(items[i])
      ensures Resolve(naming, items[i].inputs, names, "") == Ok((leaf, ColumnName(naming, path, leaf.name))) <==>
              FindsItself(naming, path, leaf)
    {
      FirstIsFound(items, eventName, i);
      LeafResolves(naming, items[i].inputs, path, leaf, names);
    }
    FoundOrNot(naming, items, eventName, names);
    hide LeafAt, FindsItself, ColumnName;
    var event := FindEvent(items, eventName);
    if event.None? {
      return Err(EventNotFound);
    }
    var inputs, column := event.value.inputs, "";
    var i := 0;
    while i < |names|
      invariant i <= |names|
      invariant Resolve(naming, inputs, names[i..], column) == Resolve(naming, event.value.inputs, names, "")
    {
      var input := FindInput(inputs, names[i]);
      assert names[i..][0] == names[i] && names[i..][|names| - i - 1] == names[|names| - 1];
      assert names[i..][1..] == names[i + 1..];
      if input.None? {
        return Err(ParameterNotFound(names[i]));
      }
      column := Pushed(column, naming.snake(input.value.name));
      if names[i] == names[|names| - 1] {
        return Ok((input.value, column));
      }
      if input.value.typeName != "tuple" || input.value.components.Missing? {
        return Err(NotNested(names[i]));
      }
      inputs := input.value.components.inputs;
      i := i + 1;
    }
    return Err(EmptyPath);
  }

  // ----- the leaves of the parameter tree

  /** `leaf` is a parameter that is not flattened, below the flattened parameters on `path`. */
  ghost predicate Reaches(inputs: seq<ABIInput>, path: seq<PathStep>, leaf: ABIInput)
    decreases |path|
  {
    if path == [] then leaf in inputs && !Flattened(leaf)
    else exists x | x in inputs ::
      Flattened(x) && PathStep(x.name, x.typeName) == path[0] && Reaches(x.components.inputs, path[1..], leaf)
  }

  /** Names of siblings differ, at every level. */
  ghost predicate DistinctSiblings(inputs: seq<ABIInput>) {
    && (forall i, j | 0 <= i < j < |inputs| :: inputs[i].name != inputs[j].name)
    && (forall x | x in inputs && x.components.Components? :: DistinctSiblings(x.components.inputs))
  }

  /** Only tuples and arrays of tuples have components. */
  ghost predicate TupleComponents(inputs: seq<ABIInput>) {
    forall x | x in inputs && x.components.Components? ::
      (x.typeName == "tuple" || TUPLE_ARRAY <= x.typeName) && TupleComponents(x.components.inputs)
  }

  ghost predicate IsProperty(naming: Naming, p: Property, path: seq<PathStep>, leaf: ABIInput) {
    p == Property(ColumnName(naming, path, leaf.name), leaf.name, leaf.typeName, path)
  }

  lemma {:induction false} ReachesCons(inputs: seq<ABIInput>, path: seq<PathStep>, leaf: ABIInput)
    requires inputs != []
    ensures Reaches(inputs, path, leaf) <==>
            || Reaches(inputs[1..], path, leaf)
            || (if Flattened(inputs[0])
                then path != [] && path[0] == PathStep(inputs[0].name, inputs[0].typeName) &&
                     Reaches(inputs[0].components.inputs, path[1..], leaf)
                else path == [] && leaf == inputs[0])
  {
    hide Flattened;
    assert forall x :: x in inputs <==> x == inputs[0] || x in inputs[1..];
  }

  ghost function Step(input: ABIInput): PathStep { PathStep(input.name, input.typeName) }

  /** The columns that the first of the inputs gives rise to. */
  ghost function FirstProperties(naming: Naming, inputs: seq<ABIInput>, path: seq<PathStep>): seq<Property>
    requires inputs != []
  {
    if Flattened(inputs[0]) then Properties(naming, inputs[0].components.inputs, path + [Step(inputs[0])])
    else [Property(ColumnName(naming, path, inputs[0].name), inputs[0].name, inputs[0].typeName, path)]
  }

  lemma PropertiesCons(naming: Naming, inputs: seq<ABIInput>, path: seq<PathStep>)
    requires inputs != []
    ensures Properties(naming, inputs, path) ==
            FirstProperties(naming, inputs, path) + Properties(naming, inputs[1..], path)
  {
    hide Flattened, ColumnName;
  }

  lemma LeafProperty(naming: Naming, inputs: seq<ABIInput>, path: seq<PathStep>)
    requires inputs != [] && !Flattened(inputs[0])
    ensures FirstProperties(naming, inputs, path) == [FirstProperties(naming, inputs, path)[0]]
    ensures IsProperty(naming, FirstProperties(naming, inputs, path)[0], path + [], inputs[0])
    ensures Reaches(inputs, [], inputs[0])
  {
    hide Flattened, ColumnName;
    assert path + [] == path;
  }

  lemma StepDown(inputs: seq<ABIInput>, path: seq<PathStep>, rest: seq<PathStep>, leaf: ABIInput)
    requires inputs != [] && Flattened(inputs[0]) && Reaches(inputs[0].components.inputs, rest, leaf)
    ensures Reaches(inputs, [Step(inputs[0])] + rest, leaf)
    ensures path + [Step(inputs[0])] + rest == path + ([Step(inputs[0])] + rest)
  {
    hide Flattened;
    var down := [Step(inputs[0])] + rest;
    assert down[1..] == rest && inputs[0] in inputs;
  }

  lemma NoProperties(naming: Naming, path: seq<PathStep>)
    ensures Properties(naming, [], path) == []
  {
  }

  lemma SkipFirst(inputs: seq<ABIInput>, path: seq<PathStep>, leaf: ABIInput)
    requires inputs != [] && Reaches(inputs[1..], path, leaf)
    ensures Reaches(inputs, path, leaf)
  {
    ReachesCons(inputs, path, leaf);
  }

  /** Every generated column belongs to a leaf. */
  lemma {:induction false} PropertyHasLeaf(naming: Naming, inputs: seq<ABIInput>, path: seq<PathStep>, k: nat)
    returns (rest: seq<PathStep>, leaf: ABIInput)
    requires k < |Properties(naming, inputs, path)|
    ensures Reaches(inputs, rest, leaf)
    ensures IsProperty(naming, Properties(naming, inputs, path)[k], path + rest, leaf)
    decreases inputs
  {
    hide *;
    NoProperties(naming, path);
    PropertiesCons(naming, inputs, path);
    var input, n := inputs[0], |FirstProperties(naming, inputs, path)|;
    if k >= n {
      rest, leaf := PropertyHasLeaf(naming, inputs[1..], path, k - n);
      SkipFirst(inputs, rest, leaf);
    } else if Flattened(input) {
      FirstFlattened(naming, inputs, path);
      rest, leaf := PropertyHasLeaf(naming, input.components.inputs, path + [Step(input)], k);
      StepDown(inputs, path, rest, leaf);
      rest := [Step(input)] + rest;
    } else {
      rest, leaf := [], input;
      LeafProperty(naming, inputs, path);
    }
  }

  lemma FirstFlattened(naming: Naming, inputs: seq<ABIInput>, path: seq<PathStep>)
    requires inputs != [] && Flattened(inputs[0])
    ensures inputs[0].components.Components?
    ensures FirstProperties(naming, inputs, path) ==
            Properties(naming, inputs[0].components.inputs, path + [Step(inputs[0])])
  {
  }

  lemma LeafCases(inputs: seq<ABIInput>, rest: seq<PathStep>, leaf: ABIInput)
    requires inputs != [] && Reaches(inputs, rest, leaf) && !Reaches(inputs[1..], rest, leaf)
    ensures if Flattened(inputs[0])
            then && rest != [] && [Step(inputs[0])] + rest[1..] == rest
                 && inputs[0].components.Components? && Reaches(inputs[0].components.inputs, rest[1..], leaf)
            else rest == [] && leaf == inputs[0]
  {
    ReachesCons(inputs, rest, leaf);
    hide Reaches;
    assert rest != [] ==> rest == [rest[0]] + rest[1..];
  }

  lemma ReachesSomething(inputs: seq<ABIInput>, path: seq<PathStep>, leaf: ABIInput)
    requires Reaches(inputs, path, leaf)
    ensures inputs != []
  {
  }

  /** Every leaf has a generated column. */
  lemma {:induction false} LeafHasProperty(naming: Naming, inputs: seq<ABIInput>, path: seq<PathStep>,
                                           rest: seq<PathStep>, leaf: ABIInput) returns (k: nat)
    requires Reaches(inputs, rest, leaf)
    ensures k < |Properties(naming, inputs, path)|
    ensures IsProperty(naming, Properties(naming, inputs, path)[k], path + rest, leaf)
    decreases inputs
  {
    hide *;
    ReachesSomething(inputs, rest, leaf);
    PropertiesCons(naming, inputs, path);
    var input, n := inputs[0], |FirstProperties(naming, inputs, path)|;
    if Reaches(inputs[1..], rest, leaf) {
      k := LeafHasProperty(naming, inputs[1..], path, rest, leaf);
      k := n + k;
    } else {
      LeafCases(inputs, rest, leaf);
      if Flattened(input) {
        FirstFlattened(naming, inputs, path);
        k := LeafHasProperty(naming, input.components.inputs, path + [Step(input)], rest[1..], leaf);
        assert path + [Step(input)] + rest[1..] == path + rest;
      } else {
        LeafProperty(naming, inputs, path);
        k := 0;
      }
    }
  }

  /** The path of names that leads to a column. */
  function Names(path: seq<PathStep>): (r: seq<string>)
    ensures |r| == |path| && forall i | 0 <= i < |r| :: r[i] == path[i].name
  {
    if path == [] then [] else [path[0].name] + Names(path[1..])
  }

  function FullPath(p: Property): seq<string> { Names(p.path) + [p.name] }

  // ----- every leaf once

  /** The full path starts with the path so far and the name of the input it comes through. */
  lemma FullPathStarts(naming: Naming, inputs: seq<ABIInput>, path: seq<PathStep>, k: nat) returns (i: nat)
    requires k < |Properties(naming, inputs, path)|
    ensures i < |inputs|
    ensures var f := FullPath(Properties(naming, inputs, path)[k]);
            |f| > |path| && f[|path|] == inputs[i].name
  {
    var rest, leaf := PropertyHasLeaf(naming, inputs, path, k);
    hide Properties, ColumnName;
    if rest == [] {
      assert path + [] == path;
      i :| 0 <= i < |inputs| && inputs[i] == leaf;
    } else {
      var x :| x in inputs && Flattened(x) && PathStep(x.name, x.typeName) == rest[0];
      i :| 0 <= i < |inputs| && inputs[i] == x;
      assert (path + rest)[|path|] == rest[0];
    }
  }

  lemma DistinctTail(inputs: seq<ABIInput>)
    requires inputs != [] && DistinctSiblings(inputs)
    ensures DistinctSiblings(inputs[1..])
    ensures inputs[0].components.Components? ==> DistinctSiblings(inputs[0].components.inputs)
    ensures forall i | 0 <= i < |inputs[1..]| :: inputs[1..][i].name != inputs[0].name
  {
    var tail := inputs[1..];
    assert forall i | 0 <= i < |tail| :: tail[i] == inputs[i + 1];
    assert forall x | x in tail :: x in inputs;
    assert inputs[0] in inputs;
  }

  /** With distinct sibling names no two columns have the same full path. */
  lemma {:induction false} ColumnsAreDistinct(naming: Naming, inputs: seq<ABIInput>, path: seq<PathStep>, i: nat,
                                              j: nat)
    requires DistinctSiblings(inputs) && i < j < |Properties(naming, inputs, path)|
    ensures FullPath(Properties(naming, inputs, path)[i]) != FullPath(Properties(naming, inputs, path)[j])
    decreases inputs
  {
    hide *;
    NoProperties(naming, path);
    PropertiesCons(naming, inputs, path);
    DistinctTail(inputs);
    var input, n := inputs[0], |FirstProperties(naming, inputs, path)|;
    if i >= n {
      ColumnsAreDistinct(naming, inputs[1..], path, i - n, j - n);
    } else if j >= n {
      FirstStarts(naming, inputs, path, i);
      var m := FullPathStarts(naming, inputs[1..], path, j - n);
    } else if Flattened(input) {
      FirstFlattened(naming, inputs, path);
      ColumnsAreDistinct(naming, input.components.inputs, path + [Step(input)], i, j);
    } else {
      LeafProperty(naming, inputs, path);
    }
  }

  lemma FirstStarts(naming: Naming, inputs: seq<ABIInput>, path: seq<PathStep>, k: nat)
    requires inputs != [] && k < |FirstProperties(naming, inputs, path)|
    ensures var f := FullPath(FirstProperties(naming, inputs, path)[k]);
            |f| > |path| && f[|path|] == inputs[0].name
  {
    if Flattened(inputs[0]) {
      FirstFlattened(naming, inputs, path);
      var rest, leaf := PropertyHasLeaf(naming, inputs[0].components.inputs, path + [Step(inputs[0])], k);
      hide Properties, ColumnName, Flattened, FirstProperties;
      var full := path + [Step(inputs[0])] + rest;
      assert full[|path|] == Step(inputs[0]);
    } else {
      LeafProperty(naming, inputs, path);
    }
  }

  // ----- order

  /** The first full path comes before the second: at the first level where they take different inputs, it
      takes the earlier one. */
  ghost predicate InOrder(inputs: seq<ABIInput>, p: seq<string>, q: seq<string>)
    decreases |p|
  {
    && p != [] && q != []
    && exists i, j | 0 <= i <= j < |inputs| ::
         && inputs[i].name == p[0] && inputs[j].name == q[0]
         && (i == j ==> Flattened(inputs[i]) && InOrder(inputs[i].components.inputs, p[1..], q[1..]))
  }

  lemma InOrderTail(inputs: seq<ABIInput>, p: seq<string>, q: seq<string>)
    requires inputs != [] && InOrder(inputs[1..], p, q)
    ensures InOrder(inputs, p, q)
  {
    var tail := inputs[1..];
    var i, j :| 0 <= i <= j < |tail| && tail[i].name == p[0] && tail[j].name == q[0] &&
                (i == j ==> Flattened(tail[i]) && InOrder(tail[i].components.inputs, p[1..], q[1..]));
    assert inputs[i + 1] == tail[i] && inputs[j + 1] == tail[j];
  }

  lemma InOrderAcross(inputs: seq<ABIInput>, m: nat, p: seq<string>, q: seq<string>)
    requires 0 < m < |inputs| && p != [] && q != [] && p[0] == inputs[0].name && q[0] == inputs[m].name
    ensures InOrder(inputs, p, q)
  {
    hide Flattened;
  }

  lemma InOrderBelow(inputs: seq<ABIInput>, p: seq<string>, q: seq<string>)
    requires inputs != [] && Flattened(inputs[0]) && p != [] && q != []
    requires p[0] == inputs[0].name && q[0] == inputs[0].name && InOrder(inputs[0].components.inputs, p[1..], q[1..])
    ensures InOrder(inputs, p, q)
  {
    hide Flattened;
  }

  /** The full path of a column, as seen from level `n` of the tree. */
  ghost function Below(naming: Naming, inputs: seq<ABIInput>, path: seq<PathStep>, k: nat, n: nat): (r: seq<string>)
    requires k < |Properties(naming, inputs, path)|
  {
    var full := FullPath(Properties(naming, inputs, path)[k]);
    if n <= |full| then full[n..] else []
  }

  /** Columns come in the order of the parameters, tuples read depth first. */
  lemma {:induction false} ColumnsComeInOrder(naming: Naming, inputs: seq<ABIInput>, path: seq<PathStep>, i: nat,
                                              j: nat)
    requires i < j < |Properties(naming, inputs, path)|
    ensures InOrder(inputs, Below(naming, inputs, path, i, |path|), Below(naming, inputs, path, j, |path|))
    decreases inputs
  {
    var all := Properties(naming, inputs, path);
    hide *;
    NoProperties(naming, path);
    PropertiesCons(naming, inputs, path);
    var input, n := inputs[0], |FirstProperties(naming, inputs, path)|;
    if i >= n {
      ColumnsComeInOrder(naming, inputs[1..], path, i - n, j - n);
      SameBelow(naming, inputs, path, i, inputs[1..], path, i - n, |path|);
      SameBelow(naming, inputs, path, j, inputs[1..], path, j - n, |path|);
      InOrderTail(inputs, Below(naming, inputs, path, i, |path|), Below(naming, inputs, path, j, |path|));
    } else if j >= n {
      FirstStarts(naming, inputs, path, i);
      var m := FullPathStarts(naming, inputs[1..], path, j - n);
      BelowStarts(naming, inputs, path, i);
      BelowStarts(naming, inputs, path, j);
      assert inputs[1..][m] == inputs[m + 1];
      InOrderAcross(inputs, m + 1, Below(naming, inputs, path, i, |path|), Below(naming, inputs, path, j, |path|));
    } else if Flattened(input) {
      FirstFlattened(naming, inputs, path);
      var path' := path + [Step(input)];
      ColumnsComeInOrder(naming, input.components.inputs, path', i, j);
      FirstStarts(naming, inputs, path, i);
      FirstStarts(naming, inputs, path, j);
      BelowStarts(naming, inputs, path, i);
      BelowStarts(naming, inputs, path, j);
      SameBelow(naming, inputs, path, i, input.components.inputs, path', i, |path'|);
      SameBelow(naming, inputs, path, j, input.components.inputs, path', j, |path'|);
      BelowTail(naming, inputs, path, i);
      BelowTail(naming, inputs, path, j);
      InOrderBelow(inputs, Below(naming, inputs, path, i, |path|), Below(naming, inputs, path, j, |path|));
    } else {
      LeafProperty(naming, inputs, path);
    }
  }

  lemma SameBelow(naming: Naming, a: seq<ABIInput>, p: seq<PathStep>, i: nat,
                  b: seq<ABIInput>, q: seq<PathStep>, j: nat, n: nat)
    requires i < |Properties(naming, a, p)| && j < |Properties(naming, b, q)|
    requires Properties(naming, a, p)[i] == Properties(naming, b, q)[j]
    ensures Below(naming, a, p, i, n) == Below(naming, b, q, j, n)
  {
    hide Properties, FullPath;
  }

  lemma BelowStarts(naming: Naming, inputs: seq<ABIInput>, path: seq<PathStep>, k: nat)
    requires k < |Properties(naming, inputs, path)|
    requires |FullPath(Properties(naming, inputs, path)[k])| > |path|
    ensures var below := Below(naming, inputs, path, k, |path|);
            below != [] && below[0] == FullPath(Properties(naming, inputs, path)[k])[|path|]
  {
    hide Properties, FullPath;
  }

  lemma BelowTail(naming: Naming, inputs: seq<ABIInput>, path: seq<PathStep>, k: nat)
    requires k < |Properties(naming, inputs, path)|
    requires |FullPath(Properties(naming, inputs, path)[k])| > |path|
    ensures Below(naming, inputs, path, k, |path|)[1..] == Below(naming, inputs, path, k, |path| + 1)
  {
    hide Properties, FullPath;
  }

  // ----- the two derivations

  lemma FindsDistinct(inputs: seq<ABIInput>, x: ABIInput)
    requires DistinctSiblings(inputs) && x in inputs
    ensures FindInput(inputs, x.name) == Some(x)
  {
    var found := FindInput(inputs, x.name);
    assert found.Some?;
    var i :| 0 <= i < |inputs| && inputs[i] == x;
    var j :| 0 <= j < |inputs| && inputs[j] == found.value;
    assert inputs[i].name == inputs[j].name;
    if i < j { } else if j < i { }
  }

  /** What the walk writes for a list of names. */
  function Written(naming: Naming, names: seq<string>, column: string): string {
    if names == [] then column else Written(naming, names[1..], Pushed(column, naming.snake(names[0])))
  }

  function Full(path: seq<PathStep>, leaf: ABIInput): seq<string> { Names(path) + [leaf.name] }

  lemma FullParts(path: seq<PathStep>, leaf: ABIInput)
    ensures var names := Full(path, leaf);
            && |names| == |path| + 1 && names[|path|] == leaf.name
            && (path == [] ==> names == [leaf.name])
            && (path != [] ==> names[0] == path[0].name && names[1..] == Full(path[1..], leaf))
            && (forall i | 0 <= i < |path| :: names[i] == path[i].name)
  {
  }

  lemma ResolveStep(naming: Naming, inputs: seq<ABIInput>, names: seq<string>, column: string, x: ABIInput)
    requires names != [] && FindInput(inputs, names[0]) == Some(x) && names[0] != names[|names| - 1]
    requires x.typeName == "tuple" && x.components.Components?
    ensures Resolve(naming, inputs, names, column) ==
            Resolve(naming, x.components.inputs, names[1..], Pushed(column, naming.snake(names[0])))
    ensures Written(naming, names, column) == Written(naming, names[1..], Pushed(column, naming.snake(names[0])))
  {
    hide Pushed;
  }

  lemma ResolveStop(naming: Naming, inputs: seq<ABIInput>, names: seq<string>, column: string, x: ABIInput)
    requires names != [] && FindInput(inputs, names[0]) == Some(x) && names[0] == names[|names| - 1]
    ensures Resolve(naming, inputs, names, column) == Ok((x, Pushed(column, naming.snake(names[0]))))
    ensures |names| == 1 ==> Written(naming, names, column) == Pushed(column, naming.snake(names[0]))
  {
    hide Pushed;
  }

  /** The first input on a path that reaches a leaf. */
  lemma FirstOnPath(inputs: seq<ABIInput>, path: seq<PathStep>, leaf: ABIInput) returns (x: ABIInput)
    requires DistinctSiblings(inputs) && TupleComponents(inputs) && Reaches(inputs, path, leaf)
    ensures FindInput(inputs, if path == [] then leaf.name else path[0].name) == Some(x)
    ensures if path == [] then x == leaf
            else && x.typeName == "tuple" && x.components.Components? && Flattened(x)
                 && DistinctSiblings(x.components.inputs) && TupleComponents(x.components.inputs)
                 && Reaches(x.components.inputs, path[1..], leaf)
  {
    if path == [] {
      x := leaf;
      FindsDistinct(inputs, leaf);
    } else {
      x :| x in inputs && Flattened(x) && Step(x) == path[0] && Reaches(x.components.inputs, path[1..], leaf);
      FindsDistinct(inputs, x);
      assert x.name == Step(x).name == path[0].name;
    }
  }

  /** Walking along a path whose last name does not occur before arrives at the leaf. */
  lemma {:induction false} WalkArrives(naming: Naming, inputs: seq<ABIInput>, path: seq<PathStep>, leaf: ABIInput,
                                       column: string)
    requires DistinctSiblings(inputs) && TupleComponents(inputs) && Reaches(inputs, path, leaf)
    requires forall i | 0 <= i < |path| :: path[i].name != leaf.name
    ensures Resolve(naming, inputs, Full(path, leaf), column) == Ok((leaf, Written(naming, Full(path, leaf), column)))
    decreases |path|
  {
    hide *;
    FullParts(path, leaf);
    var names := Full(path, leaf);
    var x := FirstOnPath(inputs, path, leaf);
    if path == [] {
      ResolveStop(naming, inputs, names, column, x);
    } else {
      ResolveStep(naming, inputs, names, column, x);
      forall i | 0 <= i < |path[1..]| ensures path[1..][i].name != leaf.name {
        assert path[1..][i] == path[i + 1];
      }
      WalkArrives(naming, x.components.inputs, path[1..], leaf, Pushed(column, naming.snake(names[0])));
    }
  }

  /** If the last name does occur before, the walk stops at that ancestor. */
  lemma {:induction false} WalkStopsEarly(naming: Naming, inputs: seq<ABIInput>, path: seq<PathStep>, leaf: ABIInput,
                                          column: string, i: nat)
    requires DistinctSiblings(inputs) && TupleComponents(inputs) && Reaches(inputs, path, leaf)
    requires i < |path| && path[i].name == leaf.name
    ensures var r := Resolve(naming, inputs, Full(path, leaf), column); r.Ok? && Flattened(r.value.0)
    decreases |path|
  {
    hide *;
    FullParts(path, leaf);
    var names := Full(path, leaf);
    var x := FirstOnPath(inputs, path, leaf);
    if path[0].name == leaf.name {
      ResolveStop(naming, inputs, names, column, x);
    } else {
      ResolveStep(naming, inputs, names, column, x);
      assert path[1..][i - 1] == path[i];
      WalkStopsEarly(naming, x.components.inputs, path[1..], leaf, Pushed(column, naming.snake(names[0])), i - 1);
    }
  }

  lemma {:induction false} LeafIsNotFlattened(inputs: seq<ABIInput>, path: seq<PathStep>, leaf: ABIInput)
    requires Reaches(inputs, path, leaf)
    ensures !Flattened(leaf)
    decreases |path|
  {
    if path != [] {
      var x :| x in inputs && Flattened(x) && PathStep(x.name, x.typeName) == path[0] &&
        Reaches(x.components.inputs, path[1..], leaf);
      LeafIsNotFlattened(x.components.inputs, path[1..], leaf);
    }
  }

  // ----- the texts

  /** The snake-case parts of a list of names. */
  function Parts(naming: Naming, names: seq<string>): seq<string> {
    if names == [] then [] else [naming.snake(names[0])] + Parts(naming, names[1..])
  }

  lemma {:induction false} PartsOf(naming: Naming, path: seq<PathStep>, name: string)
    ensures Parts(naming, Names(path) + [name]) == Snakes(naming, path) + [naming.snake(name)]
  {
    var names := Names(path) + [name];
    if path == [] {
      assert names == [name] && names[1..] == [];
    } else {
      assert names[1..] == Names(path[1..]) + [name];
      PartsOf(naming, path[1..], name);
    }
  }

  lemma {:induction false} UnderscoredLast(parts: seq<string>, last: string)
    ensures Underscored(parts + [last]) == (if parts == [] then "" else Underscored(parts) + "_") + last
  {
    var all := parts + [last];
    if |parts| > 0 {
      assert all[1..] == parts[1..] + [last];
      UnderscoredLast(parts[1..], last);
      if |parts| == 1 {
        assert Underscored(all) == parts[0] + "_" + last;
      } else {
        assert Underscored(all) == parts[0] + "_" + (Underscored(parts[1..]) + "_" + last);
      }
    } else {
      assert all == [last];
    }
  }

  lemma ColumnNameJoins(naming: Naming, path: seq<PathStep>, leaf: ABIInput)
    ensures ColumnName(naming, path, leaf.name) == Underscored(Parts(naming, Full(path, leaf)))
  {
    PartsOf(naming, path, leaf.name);
    UnderscoredLast(Snakes(naming, path), naming.snake(leaf.name));
    hide Underscored, Parts, Snakes, Names;
  }

  lemma UnderscoredCons(naming: Naming, names: seq<string>)
    requires |names| > 1
    ensures Underscored(Parts(naming, names)) ==
            naming.snake(names[0]) + "_" + Underscored(Parts(naming, names[1..]))
  {
    var parts := Parts(naming, names);
    assert parts[1..] == Parts(naming, names[1..]) && |parts| > 1;
    hide Parts;
  }

  // ----- names that collide

  /** The words of a text, cut at every underscore. */
  function SplitWords(s: string): (r: seq<string>)
    ensures r != []
  {
    if s == "" then [""]
    else
      var rest := SplitWords(s[1..]);
      if s[0] == '_' then [""] + rest else [[s[0]] + rest[0]] + rest[1..]
  }

  /** The words of all parts of a name, one part after the other. */
  function Words(parts: seq<string>): seq<string> {
    if parts == [] then [] else SplitWords(parts[0]) + Words(parts[1..])
  }

  lemma {:induction false} SplitAcross(a: string, b: string)
    ensures SplitWords(a + "_" + b) == SplitWords(a) + SplitWords(b)
  {
    hide *;
    if a == "" {
      SplitAtOnce(b);
    } else {
      SplitAcross(a[1..], b);
      SplitLater(a, b);
    }
  }

  lemma SplitAtOnce(b: string)
    ensures SplitWords("" + "_" + b) == SplitWords("") + SplitWords(b)
  {
    assert ("" + "_" + b)[1..] == b;
  }

  lemma SplitCons(c: char, s: string)
    ensures SplitWords([c] + s) ==
            if c == '_' then [""] + SplitWords(s) else [[c] + SplitWords(s)[0]] + SplitWords(s)[1..]
  {
    assert ([c] + s)[1..] == s;
  }

  lemma HeadOfBoth(l: seq<string>, r: seq<string>, c: char)
    requires l != []
    ensures [[c] + (l + r)[0]] + (l + r)[1..] == [[c] + l[0]] + l[1..] + r
    ensures [""] + (l + r) == [""] + l + r
  {
  }

  lemma SplitLater(a: string, b: string)
    requires a != "" && SplitWords(a[1..] + "_" + b) == SplitWords(a[1..]) + SplitWords(b)
    ensures SplitWords(a + "_" + b) == SplitWords(a) + SplitWords(b)
  {
    hide *;
    var c, tail := a[0], a[1..];
    assert a == [c] + tail && a + "_" + b == [c] + (tail + "_" + b);
    SplitCons(c, tail);
    SplitCons(c, tail + "_" + b);
    HeadOfBoth(SplitWords(tail), SplitWords(b), c);
  }

  lemma {:induction false} SplitOfJoined(parts: seq<string>)
    requires parts != []
    ensures SplitWords(Underscored(parts)) == Words(parts)
  {
    hide SplitWords;
    if |parts| == 1 {
      assert parts[1..] == [] && SplitWords(parts[0]) + [] == SplitWords(parts[0]);
      assert Words([]) == [];
    } else {
      SplitOfJoined(parts[1..]);
      SplitAcross(parts[0], Underscored(parts[1..]));
    }
  }

  lemma {:induction false} JoinOfSplit(s: string)
    ensures Underscored(SplitWords(s)) == s
  {
    if s != "" {
      JoinOfSplit(s[1..]);
      var rest := SplitWords(s[1..]);
      JoinHead(rest, s[0]);
      JoinEmpty(rest);
      hide Underscored;
      assert "_" + s[1..] == ['_'] + s[1..];
      assert s == [s[0]] + s[1..];
    }
  }

  lemma JoinHead(words: seq<string>, c: char)
    requires words != []
    ensures Underscored([[c] + words[0]] + words[1..]) == [c] + Underscored(words)
  {
    var more := [[c] + words[0]] + words[1..];
    assert more[1..] == words[1..];
    if |words| > 1 {
      assert ([c] + words[0]) + "_" + Underscored(words[1..]) == [c] + (words[0] + "_" + Underscored(words[1..]));
    }
  }

  lemma JoinEmpty(words: seq<string>)
    requires words != []
    ensures Underscored([""] + words) == "_" + Underscored(words)
  {
    assert ([""] + words)[1..] == words;
    assert "" + "_" + Underscored(words) == "_" + Underscored(words);
  }

  /** Two columns have the same name exactly when their parts, cut at every underscore, are the same words. */
  lemma {:induction false} NamesCollideExactly(naming: Naming, path: seq<PathStep>, leaf: ABIInput,
                                               path': seq<PathStep>, leaf': ABIInput)
    ensures ColumnName(naming, path, leaf.name) == ColumnName(naming, path', leaf'.name) <==>
            Words(Parts(naming, Full(path, leaf))) == Words(Parts(naming, Full(path', leaf')))
  {
    var p, q := Parts(naming, Full(path, leaf)), Parts(naming, Full(path', leaf'));
    FullParts(path, leaf);
    FullParts(path', leaf');
    assert p != [] && q != [];
    hide *;
    ColumnNameJoins(naming, path, leaf);
    ColumnNameJoins(naming, path', leaf');
    SplitOfJoined(p);
    SplitOfJoined(q);
    JoinOfSplit(Underscored(p));
    JoinOfSplit(Underscored(q));
  }

  lemma OneProperty(naming: Naming, input: ABIInput, path: seq<PathStep>)
    requires input.components.Missing?
    ensures Properties(naming, [input], path) ==
            [Property(ColumnName(naming, path, input.name), input.name, input.typeName, path)]
  {
    assert Properties(naming, [input][1..], path) == [];
  }

  /** A tuple with a single member has its member's column. */
  lemma TupleProperty(naming: Naming, name: string, member: ABIInput, rest: seq<ABIInput>)
    requires member.components.Missing?
    ensures var input, path := ABIInput(name, "tuple", Components([member])), [PathStep(name, "tuple")];
            Properties(naming, [input] + rest, []) ==
            [Property(naming.snake(name) + "_" + naming.snake(member.name), member.name, member.typeName, path)]
            + Properties(naming, rest, [])
  {
    var input, path := ABIInput(name, "tuple", Components([member])), [PathStep(name, "tuple")];
    OneProperty(naming, member, path);
    assert Snakes(naming, path) == [naming.snake(name)];
    assert ([input] + rest)[1..] == rest && [] + path == path;
    assert !("tuple[" <= "tuple");
  }

  lemma DistinctOne(member: ABIInput)
    requires member.components.Missing?
    ensures DistinctSiblings([member])
  {
  }

  /** An event with distinct names at every level can have two columns of one name: member `b_c` of tuple `a` and
      member `c` of tuple `a_b`. */
  lemma {:induction false} NamesCollide(naming: Naming, first: ABIInput, second: ABIInput)
    requires first.name == "b_c" && second.name == "c" && first.components.Missing? && second.components.Missing?
    requires forall name | name in ["a", "b_c", "a_b", "c"] :: naming.snake(name) == name
    ensures var inputs := [ABIInput("a", "tuple", Components([first])), ABIInput("a_b", "tuple", Components([second]))];
            var columns := Properties(naming, inputs, []);
            DistinctSiblings(inputs) && |columns| == 2 && columns[0].value == columns[1].value == "a_b_c"
  {
    var x, y := ABIInput("a", "tuple", Components([first])), ABIInput("a_b", "tuple", Components([second]));
    assert naming.snake("a") == "a" && naming.snake("b_c") == "b_c" && naming.snake("a_b") == "a_b" &&
      naming.snake("c") == "c";
    DistinctOne(first);
    DistinctOne(second);
    assert DistinctSiblings([x, y]);
    hide DistinctSiblings;
    TupleProperty(naming, "a", first, [y]);
    TupleProperty(naming, "a_b", second, []);
    assert [x, y] == [x] + [y] && [y] == [y] + [];
    assert Properties(naming, [], []) == [];
    hide Properties;
    assert "a" + "_" + "b_c" == "a_b" + "_" + "c" == "a_b_c";
  }

  /** Once something is written, every further part comes with its separator. */
  lemma {:induction false} WrittenAfter(naming: Naming, names: seq<string>, column: string)
    requires names != [] && column != ""
    ensures Written(naming, names, column) == column + "_" + Underscored(Parts(naming, names))
  {
    var column' := Pushed(column, naming.snake(names[0]));
    if |names| == 1 {
      assert names[1..] == [];
      assert Parts(naming, names) == [naming.snake(names[0])];
    } else {
      WrittenAfter(naming, names[1..], column');
      UnderscoredCons(naming, names);
      hide Underscored, Parts;
      assert column' + "_" + Underscored(Parts(naming, names[1..])) ==
             column + "_" + (naming.snake(names[0]) + "_" + Underscored(Parts(naming, names[1..])));
    }
  }

  lemma {:induction false} WrittenIsShorter(naming: Naming, names: seq<string>)
    requires names != []
    ensures |Written(naming, names, "")| <= |Underscored(Parts(naming, names))|
  {
    var first := naming.snake(names[0]);
    if |names| == 1 {
      assert names[1..] == [];
      assert Parts(naming, names) == [first];
    } else {
      assert Written(naming, names, "") == Written(naming, names[1..], first) by {
        assert Pushed("", first) == first;
      }
      UnderscoredCons(naming, names);
      if first == "" {
        WrittenIsShorter(naming, names[1..]);
      } else {
        WrittenAfter(naming, names[1..], first);
      }
    }
  }

  /** From nothing, the text is the joined one exactly when the first part is not empty or is the only one. */
  lemma WrittenIsJoined(naming: Naming, names: seq<string>)
    requires names != []
    ensures Written(naming, names, "") == Underscored(Parts(naming, names)) <==>
            |names| == 1 || naming.snake(names[0]) != ""
  {
    var first := naming.snake(names[0]);
    assert Pushed("", first) == first;
    assert Written(naming, names, "") == Written(naming, names[1..], first);
    if |names| == 1 {
      assert names[1..] == [] && Parts(naming, names) == [first];
    } else {
      UnderscoredCons(naming, names);
      hide Underscored, Parts, Written;
      if first == "" {
        WrittenIsShorter(naming, names[1..]);
      } else {
        WrittenAfter(naming, names[1..], first);
      }
    }
  }

  /** The path of a generated column leads back to its leaf and its name exactly when the leaf's name does not
      occur earlier on the path and the first part of the name is not empty, or is the only one. */
  lemma {:induction false} DerivationsAgreeExactly(naming: Naming, inputs: seq<ABIInput>, path: seq<PathStep>,
                                                   leaf: ABIInput)
    requires DistinctSiblings(inputs) && TupleComponents(inputs) && Reaches(inputs, path, leaf)
    ensures Resolve(naming, inputs, Full(path, leaf), "") == Ok((leaf, ColumnName(naming, path, leaf.name))) <==>
            && (forall i | 0 <= i < |path| :: path[i].name != leaf.name)
            && (path == [] || naming.snake(path[0].name) != "")
  {
    hide *;
    FullParts(path, leaf);
    if i :| 0 <= i < |path| && path[i].name == leaf.name {
      WalkStopsEarly(naming, inputs, path, leaf, "", i);
      LeafIsNotFlattened(inputs, path, leaf);
    } else {
      WalkArrives(naming, inputs, path, leaf, "");
      ColumnNameJoins(naming, path, leaf);
      WrittenIsJoined(naming, Full(path, leaf));
    }
  }

  /** The member of an unnamed tuple has the generated column `_x`, but its path leads to the name `x`. */
  lemma {:induction false} UnnamedTupleDiffers(naming: Naming, leaf: ABIInput)
    requires leaf.name == "x" && leaf.components.Missing? && naming.snake("") == "" && naming.snake("x") == "x"
    ensures var inputs := [ABIInput("", "tuple", Components([leaf]))];
            && Properties(naming, inputs, []) == [Property("_x", "x", leaf.typeName, [PathStep("", "tuple")])]
            && Resolve(naming, inputs, ["", "x"], "") == Ok((leaf, "x"))
  {
    var input := ABIInput("", "tuple", Components([leaf]));
    TupleProperty(naming, "", leaf, []);
    assert [input] + [] == [input] && Properties(naming, [], []) == [];
    assert "" + "_" + "x" == "_x";
    hide Properties;
    assert ["", "x"][1..] == ["x"] && "" + "" == "" && "" + "x" == "x";
    assert FindInput([leaf], "x") == Some(leaf) && FindInput([input], "") == Some(input);
    assert Resolve(naming, [leaf], ["x"], "") == Ok((leaf, "x"));
  }

  /** A member with the name of its own tuple is not reached: the walk ends at the tuple. */
  lemma {:induction false} RepeatedNameStops(naming: Naming, leaf: ABIInput)
    requires leaf.name == "x" && leaf.components.Missing? && naming.snake("x") == "x"
    ensures var inputs := [ABIInput("x", "tuple", Components([leaf]))];
            && Properties(naming, inputs, []) == [Property("x_x", "x", leaf.typeName, [PathStep("x", "tuple")])]
            && Resolve(naming, inputs, ["x", "x"], "") == Ok((inputs[0], "x"))
  {
    var input := ABIInput("x", "tuple", Components([leaf]));
    TupleProperty(naming, "x", leaf, []);
    assert [input] + [] == [input] && Properties(naming, [], []) == [];
    assert "x" + "_" + "x" == "x_x" && "" + "x" == "x";
    assert FindInput([input], "x") == Some(input);
  }

  /** Plain tuples with members are flattened, and only arrays of tuples are kept whole: a leaf with members is
      an array of tuples, and a tuple with members is no leaf but lies on the path of each of its own. */
  lemma {:induction false} TuplesAreFlattened(inputs: seq<ABIInput>, path: seq<PathStep>, leaf: ABIInput)
    requires Reaches(inputs, path, leaf)
    ensures leaf.components.Components? ==> leaf.typeName != "tuple" && TUPLE_ARRAY <= leaf.typeName
    ensures forall i | 0 <= i < |path| :: !(TUPLE_ARRAY <= path[i].typeName)
    decreases |path|
  {
    if path != [] {
      var x :| x in inputs && Flattened(x) && PathStep(x.name, x.typeName) == path[0] &&
               Reaches(x.components.inputs, path[1..], leaf);
      TuplesAreFlattened(x.components.inputs, path[1..], leaf);
    }
  }

  /** A plain tuple's members are reached through it. */
  lemma {:induction false} MembersAreReached(inputs: seq<ABIInput>, tuple: ABIInput, path: seq<PathStep>,
                                             leaf: ABIInput)
    requires tuple in inputs && tuple.typeName == "tuple" && tuple.components.Components?
    requires Reaches(tuple.components.inputs, path, leaf)
    ensures Reaches(inputs, [PathStep(tuple.name, "tuple")] + path, leaf)
    ensures !Reaches(inputs, [], tuple)
  {
    assert !(TUPLE_ARRAY <= "tuple");
    assert ([PathStep(tuple.name, "tuple")] + path)[1..] == path;
  }
}
