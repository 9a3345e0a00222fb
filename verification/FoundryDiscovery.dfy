/** Grouping the deployments that a Foundry project reports into contracts to import. */
module FoundryDiscovery {
  import opened Options
  import opened FreshNames
  import opened FoundryModel
  import opened FoundryReports
  import opened FoundryRuns
  import opened FoundrySync

  datatype RawDeployment = RawDeployment(
    chainId: nat,
    contractName: string,
    address: nat,
    startBlock: nat,
    transactionInput: Option<string>)

  datatype Artifact = Artifact(relativePath: string, abiJson: string, eventNames: seq<string>)

  datatype ArtifactSelection = Found(artifact: Artifact) | TestOnly | Missing

  datatype SkipReason = MissingArtifact | TestArtifact | NoEvents

  datatype Skipped = Skipped(deployment: RawDeployment, reason: SkipReason)

  /** Which artifact belongs to a deployment; how it is ranked is left open. */
  datatype Artifacts = Artifacts(find: RawDeployment -> ArtifactSelection)

  // ----- grouping

  function SkipFor(d: RawDeployment, artifacts: Artifacts): Option<SkipReason> {
    match artifacts.find(d)
    case TestOnly => Some(TestArtifact)
    case Missing => Some(MissingArtifact)
    case Found(artifact) => if artifact.eventNames == [] then Some(NoEvents) else None
  }

  function RawKey(d: RawDeployment, artifact: Artifact): string { KeyOf(d.contractName, artifact.relativePath) }

  function Deployed(d: RawDeployment): Deployment { Deployment(d.chainId, d.address, d.startBlock) }

  function FirstOf(d: RawDeployment, artifact: Artifact): DesiredContract {
    var name := SanitizedName(d.contractName);
    DesiredContract(RawKey(d, artifact), name, d.contractName, artifact.relativePath, AbiPath(name),
                    artifact.abiJson, artifact.eventNames, [Deployed(d)])
  }

  /** The order of keys: character by character. */
  predicate Before(a: string, b: string) {
    b != "" && (a == "" || a[0] < b[0] || (a[0] == b[0] && Before(a[1..], b[1..])))
  }

  /** Adds a deployment to its contract, or a new contract at its place in the order of keys. */
  function Upsert(grouped: seq<DesiredContract>, d: RawDeployment, artifact: Artifact): seq<DesiredContract> {
    var key := RawKey(d, artifact);
    if grouped == [] || Before(key, grouped[0].key) then [FirstOf(d, artifact)] + grouped
    else if grouped[0].key == key then
      [grouped[0].(deployments := grouped[0].deployments + [Deployed(d)])] + grouped[1..]
    else [grouped[0]] + Upsert(grouped[1..], d, artifact)
  }

  function Grouped(raw: seq<RawDeployment>, artifacts: Artifacts): seq<DesiredContract> {
    if raw == [] then []
    else
      var before, last := Grouped(raw[..|raw| - 1], artifacts), raw[|raw| - 1];
      if SkipFor(last, artifacts).Some? then before else Upsert(before, last, artifacts.find(last).artifact)
  }

  function AllSkipped(raw: seq<RawDeployment>, artifacts: Artifacts): seq<Skipped> {
    if raw == [] then []
    else
      var before, last := AllSkipped(raw[..|raw| - 1], artifacts), raw[|raw| - 1];
      var skip := SkipFor(last, artifacts);
      if skip.Some? then before + [Skipped(last, skip.value)] else before
  }

  function NamesOf(contracts: seq<DesiredContract>): (r: seq<string>)
    ensures |r| == |contracts| && forall i | 0 <= i < |r| :: r[i] == contracts[i].name
  {
    if contracts == [] then [] else [contracts[0].name] + NamesOf(contracts[1..])
  }

  function Renamed(contracts: seq<DesiredContract>, names: seq<string>): (r: seq<DesiredContract>)
    requires |names| == |contracts|
    ensures |r| == |contracts|
    ensures forall i | 0 <= i < |r| :: r[i] == contracts[i].(name := names[i], abiPath := AbiPath(names[i]))
  {
    if contracts == [] then []
    else [contracts[0].(name := names[0], abiPath := AbiPath(names[0]))] + Renamed(contracts[1..], names[1..])
  }

  function Desired(raw: seq<RawDeployment>, artifacts: Artifacts): (r: seq<DesiredContract>)
    ensures |r| == |Grouped(raw, artifacts)|
  {
    var grouped := Grouped(raw, artifacts);
    Renamed(grouped, UniqueNames(NamesOf(grouped), {}))
  }

  /** Makes the names unique in place, from the first contract to the last. */
  method EnsureUniqueDesiredNames(contracts: array<DesiredContract>)
    modifies contracts
    ensures var names := UniqueNames(NamesOf(old(contracts[..])), {});
            forall i | 0 <= i < contracts.Length :: contracts[i] == old(contracts[i]).(name := names[i])
  {
    ghost var names := NamesOf(contracts[..]);
    ghost var unique := UniqueNames(names, {});
    var seen: set<string> := {};
    assert names[0..] == names && unique[0..] == unique;
    hide NamesOf, UniqueName;
    for i := 0 to contracts.Length
      invariant unique[i..] == UniqueNames(names[i..], seen)
      invariant forall k | 0 <= k < i :: contracts[k] == old(contracts[k]).(name := unique[k])
      invariant forall k | i <= k < contracts.Length :: contracts[k] == old(contracts[k])
    {
      assert contracts[i].name == names[i];
      UniqueNamesNext(names, seen, i);
      var name := FindUniqueName(contracts[i].name, seen);
      assert unique[i] == unique[i..][0] == name && unique[i + 1..] == unique[i..][1..];
      seen := seen + {name};
      contracts[i] := contracts[i].(name := name);
    }
  }

  method BuildDesiredContracts(raw: seq<RawDeployment>, artifacts: Artifacts)
    returns (contracts: seq<DesiredContract>, skipped: seq<Skipped>)
    ensures contracts == Desired(raw, artifacts) && skipped == AllSkipped(raw, artifacts)
  {
    var grouped: seq<DesiredContract> := [];
    skipped := [];
    for i := 0 to |raw|
      invariant grouped == Grouped(raw[..i], artifacts) && skipped == AllSkipped(raw[..i], artifacts)
    {
      assert raw[..i + 1][..i] == raw[..i];
      match artifacts.find(raw[i])
      case TestOnly =>
        skipped := skipped + [Skipped(raw[i], TestArtifact)];
      case Missing =>
        skipped := skipped + [Skipped(raw[i], MissingArtifact)];
      case Found(artifact) =>
        if artifact.eventNames == [] {
          skipped := skipped + [Skipped(raw[i], NoEvents)];
        } else {
          grouped := Upsert(grouped, raw[i], artifact);
        }
    }
    assert raw[..|raw|] == raw;
    contracts := Name(grouped);
  }

  method Name(grouped: seq<DesiredContract>) returns (contracts: seq<DesiredContract>)
    ensures contracts == Renamed(grouped, UniqueNames(NamesOf(grouped), {}))
  {
    var list := new DesiredContract[|grouped|](i requires 0 <= i < |grouped| => grouped[i]);
    assert list[..] == grouped;
    EnsureUniqueDesiredNames(list);
    hide *;
    SetAbiPaths(list);
    contracts := list[..];
    SameContracts(contracts, Renamed(grouped, UniqueNames(NamesOf(grouped), {})));
  }

  method SetAbiPaths(contracts: array<DesiredContract>)
    modifies contracts
    ensures forall i | 0 <= i < contracts.Length ::
      contracts[i] == old(contracts[i]).(abiPath := AbiPath(old(contracts[i]).name))
  {
    for i := 0 to contracts.Length
      invariant forall k | 0 <= k < i :: contracts[k] == old(contracts[k]).(abiPath := AbiPath(old(contracts[k]).name))
      invariant forall k | i <= k < contracts.Length :: contracts[k] == old(contracts[k])
    {
      contracts[i] := contracts[i].(abiPath := AbiPath(contracts[i].name));
    }
  }

  lemma SameContracts(a: seq<DesiredContract>, b: seq<DesiredContract>)
    requires |a| == |b| && forall i | 0 <= i < |a| :: a[i] == b[i]
    ensures a == b
  {
  }

  // ----- keys

  lemma {:induction false} BeforeIrreflexive(a: string)
    ensures !Before(a, a)
  {
    if a != "" {
      BeforeIrreflexive(a[1..]);
    }
  }

  lemma {:induction false} BeforeTransitive(a: string, b: string, c: string)
    requires Before(a, b) && Before(b, c)
    ensures Before(a, c)
  {
    if a != "" && a[0] == b[0] && b[0] == c[0] {
      BeforeTransitive(a[1..], b[1..], c[1..]);
    }
  }

  lemma {:induction false} BeforeTotal(a: string, b: string)
    ensures Before(a, b) || a == b || Before(b, a)
  {
    if a != "" && b != "" && a[0] == b[0] {
      BeforeTotal(a[1..], b[1..]);
      assert a == [a[0]] + a[1..] && b == [b[0]] + b[1..];
    }
  }

  /** The texts agree up to place `k`, where the first one ends or has the lesser character. */
  ghost predicate PartAt(a: string, b: string, k: nat) {
    k <= |a| && k < |b| && a[..k] == b[..k] && (k < |a| ==> a[k] < b[k])
  }

  lemma SameHeads(a: string, b: string)
    ensures forall k | 0 < k <= |a| && k <= |b| && a[..k] == b[..k] :: a[0] == b[0]
  {
    forall k | 0 < k <= |a| && k <= |b| && a[..k] == b[..k] ensures a[0] == b[0] {
      assert a[..k][0] == a[0] && b[..k][0] == b[0];
    }
  }

  lemma PartLater(a: string, b: string, k: nat)
    requires a != "" && b != "" && a[0] == b[0]
    ensures PartAt(a, b, k + 1) <==> PartAt(a[1..], b[1..], k)
  {
    if k < |a| && k + 1 < |b| {
      assert a[..k + 1] == [a[0]] + a[1..][..k] && b[..k + 1] == [b[0]] + b[1..][..k];
      assert a[..k + 1][1..] == a[1..][..k] && b[..k + 1][1..] == b[1..][..k];
    }
  }

  /** One text comes before another if it is the beginning of it, or has the lesser character where they part. */
  lemma {:induction false} BeforeMeaning(a: string, b: string)
    ensures Before(a, b) <==> exists k: nat :: PartAt(a, b, k)
  {
    SameHeads(a, b);
    if a != "" && b != "" && a[0] == b[0] {
      BeforeMeaning(a[1..], b[1..]);
      hide Before, PartAt;
      if k: nat :| PartAt(a, b, k) {
        NotAtOnce(a, b);
        PartLater(a, b, k - 1);
      }
      if k: nat :| PartAt(a[1..], b[1..], k) {
        PartLater(a, b, k);
      }
      SameTails(a, b);
    } else if b != "" {
      assert a[..0] == b[..0];
      assert (a == "" || a[0] < b[0]) <==> PartAt(a, b, 0);
    }
  }

  lemma NotAtOnce(a: string, b: string)
    requires a != "" && b != "" && a[0] == b[0]
    ensures !PartAt(a, b, 0)
  {
  }

  lemma SameTails(a: string, b: string)
    requires a != "" && b != "" && a[0] == b[0]
    ensures Before(a, b) <==> Before(a[1..], b[1..])
  {
  }

  ghost predicate Ordered(contracts: seq<DesiredContract>) {
    forall i, j | 0 <= i < j < |contracts| :: Before(contracts[i].key, contracts[j].key)
  }

  ghost predicate GroupOk(c: DesiredContract) {
    && c.key == KeyOf(c.foundryName, c.artifactPath)
    && c.name == SanitizedName(c.foundryName)
    && c.deployments != []
  }

  ghost predicate AllGroupsOk(contracts: seq<DesiredContract>) {
    forall c | c in contracts :: GroupOk(c)
  }

  lemma {:induction false} UpsertOrdered(grouped: seq<DesiredContract>, d: RawDeployment, artifact: Artifact)
    requires Ordered(grouped) && AllGroupsOk(grouped)
    ensures var r := Upsert(grouped, d, artifact);
            && Ordered(r) && AllGroupsOk(r)
            && (forall c | c in r :: c.key == RawKey(d, artifact) || exists x | x in grouped :: x.key == c.key)
  {
    var key := RawKey(d, artifact);
    var r := Upsert(grouped, d, artifact);
    hide SanitizedName, KeyOf, Before;
    if grouped == [] || Before(key, grouped[0].key) {
      forall j | 0 <= j < |grouped| ensures Before(key, grouped[j].key) {
        if j > 0 {
          BeforeTransitive(key, grouped[0].key, grouped[j].key);
        }
      }
    } else if grouped[0].key != key {
      BeforeTotal(key, grouped[0].key);
      UpsertOrdered(grouped[1..], d, artifact);
      var rest := Upsert(grouped[1..], d, artifact);
      forall c | c in rest ensures Before(grouped[0].key, c.key) &&
        (c.key == key || exists x | x in grouped :: x.key == c.key) {
        if c.key != key {
          var x :| x in grouped[1..] && x.key == c.key;
          assert x in grouped;
        }
      }
      assert r == [grouped[0]] + rest && grouped[0] in grouped;
      assert forall c | c in r :: c == grouped[0] || c in rest;
      hide GroupOk;
      assert AllGroupsOk(r);
    } else {
      assert grouped[0] in grouped;
      assert GroupOk(r[0]);
      assert forall c | c in r :: c == r[0] || c in grouped;
      forall c | c in r ensures GroupOk(c) && (c.key == key || exists x | x in grouped :: x.key == c.key) {
      }
    }
  }

  lemma {:induction false} GroupedOrdered(raw: seq<RawDeployment>, artifacts: Artifacts)
    ensures Ordered(Grouped(raw, artifacts)) && AllGroupsOk(Grouped(raw, artifacts))
  {
    hide Ordered, AllGroupsOk, Upsert, SkipFor;
    if raw == [] {
      NothingGrouped(artifacts);
    } else {
      var before, last := raw[..|raw| - 1], raw[|raw| - 1];
      GroupedOrdered(before, artifacts);
      if SkipFor(last, artifacts).None? {
        NotSkipped(last, artifacts);
        UpsertOrdered(Grouped(before, artifacts), last, artifacts.find(last).artifact);
      }
    }
  }

  lemma NotSkipped(d: RawDeployment, artifacts: Artifacts)
    requires SkipFor(d, artifacts).None?
    ensures artifacts.find(d).Found?
  {
  }

  lemma NothingGrouped(artifacts: Artifacts)
    ensures Ordered(Grouped([], artifacts)) && AllGroupsOk(Grouped([], artifacts))
  {
  }

  lemma NamesUsable(grouped: seq<DesiredContract>)
    requires AllGroupsOk(grouped)
    ensures forall name | name in NamesOf(grouped) :: NameOk(name)
  {
    hide NameOk, SanitizedName;
    forall name | name in NamesOf(grouped) ensures NameOk(name) {
      var i :| 0 <= i < |grouped| && NamesOf(grouped)[i] == name;
      assert GroupOk(grouped[i]);
      SanitizedNameOk(grouped[i].foundryName);
    }
  }

  lemma RenamedIsDiscovered(grouped: seq<DesiredContract>, names: seq<string>)
    requires Ordered(grouped) && AllGroupsOk(grouped) && |names| == |grouped|
    ensures Discovered(Renamed(grouped, names))
  {
    hide Before, SanitizedName, KeyOf;
    var desired := Renamed(grouped, names);
    forall i | 0 <= i < |desired| ensures desired[i].key == KeyOf(desired[i].foundryName, desired[i].artifactPath) {
      assert GroupOk(grouped[i]);
    }
    forall i, j | 0 <= i < j < |desired| ensures desired[i].key != desired[j].key {
      assert Before(grouped[i].key, grouped[j].key);
      BeforeIrreflexive(grouped[i].key);
    }
  }

  /** Whatever is deployed, a discovery has one contract a key, and usable names that all differ. */
  lemma {:induction false} DesiredIsDiscovered(raw: seq<RawDeployment>, artifacts: Artifacts)
    ensures var desired := Desired(raw, artifacts);
            && Discovered(desired)
            && (forall i, j | 0 <= i < j < |desired| :: desired[i].name != desired[j].name)
            && (forall i | 0 <= i < |desired| ::
                  NameOk(desired[i].name) && desired[i].abiPath == "abis/" + desired[i].name + ".abi.json")
  {
    var grouped := Grouped(raw, artifacts);
    var names := UniqueNames(NamesOf(grouped), {});
    assert Desired(raw, artifacts) == Renamed(grouped, names);
    hide *;
    GroupedOrdered(raw, artifacts);
    NamesUsable(grouped);
    UniqueNamesMeaning(NamesOf(grouped), {});
    RenamedIsDiscovered(grouped, names);
  }

  // ----- no deployment is lost

  /** The deployments of contracts, each with its contract's key. */
  ghost function Placements(contracts: seq<DesiredContract>): multiset<(string, Deployment)> {
    if contracts == [] then multiset{}
    else Keyed(contracts[0].key, contracts[0].deployments) + Placements(contracts[1..])
  }

  ghost function Keyed(key: string, deployments: seq<Deployment>): multiset<(string, Deployment)> {
    if deployments == [] then multiset{}
    else Keyed(key, deployments[..|deployments| - 1]) + multiset{(key, deployments[|deployments| - 1])}
  }

  /** The deployments that are not skipped, each with the key it belongs to. */
  ghost function Accepted(raw: seq<RawDeployment>, artifacts: Artifacts): multiset<(string, Deployment)> {
    if raw == [] then multiset{}
    else
      var before, last := Accepted(raw[..|raw| - 1], artifacts), raw[|raw| - 1];
      if SkipFor(last, artifacts).Some? then before
      else before + multiset{(RawKey(last, artifacts.find(last).artifact), Deployed(last))}
  }

  lemma {:induction false} UpsertPlaces(grouped: seq<DesiredContract>, d: RawDeployment, artifact: Artifact)
    ensures Placements(Upsert(grouped, d, artifact)) ==
            Placements(grouped) + multiset{(RawKey(d, artifact), Deployed(d))}
  {
    var key := RawKey(d, artifact);
    hide RawKey, SanitizedName;
    if grouped == [] || Before(key, grouped[0].key) {
      var first := FirstOf(d, artifact);
      assert ([first] + grouped)[1..] == grouped;
      assert first.deployments[..0] == [];
      assert Keyed(key, []) == multiset{};
      assert Keyed(key, [Deployed(d)]) == multiset{(key, Deployed(d))};
    } else if grouped[0].key == key {
      var more := grouped[0].deployments + [Deployed(d)];
      assert more[..|more| - 1] == grouped[0].deployments;
      var c := grouped[0].(deployments := more);
      assert ([c] + grouped[1..])[1..] == grouped[1..];
    } else {
      UpsertPlaces(grouped[1..], d, artifact);
      var rest := Upsert(grouped[1..], d, artifact);
      assert ([grouped[0]] + rest)[1..] == rest;
    }
  }

  /** Every deployment is either skipped or stands in the contract of its key, exactly as often as it occurs. */
  lemma {:induction false} DeploymentsConserved(raw: seq<RawDeployment>, artifacts: Artifacts)
    ensures Placements(Grouped(raw, artifacts)) == Accepted(raw, artifacts)
    ensures |Accepted(raw, artifacts)| + |AllSkipped(raw, artifacts)| == |raw|
  {
    hide Upsert, SkipFor, RawKey, Placements;
    if raw == [] {
      NothingPlaced(artifacts);
    } else {
      var before, last := raw[..|raw| - 1], raw[|raw| - 1];
      DeploymentsConserved(before, artifacts);
      if SkipFor(last, artifacts).None? {
        NotSkipped(last, artifacts);
        UpsertPlaces(Grouped(before, artifacts), last, artifacts.find(last).artifact);
      }
    }
  }

  lemma NothingPlaced(artifacts: Artifacts)
    ensures Placements(Grouped([], artifacts)) == multiset{}
  {
  }

  /** Renaming moves no deployment. */
  lemma {:induction false} RenamedPlaces(contracts: seq<DesiredContract>, names: seq<string>)
    requires |names| == |contracts|
    ensures Placements(Renamed(contracts, names)) == Placements(contracts)
  {
    if contracts != [] {
      RenamedPlaces(contracts[1..], names[1..]);
      var r := Renamed(contracts, names);
      assert r[1..] == Renamed(contracts[1..], names[1..]);
    }
  }

  lemma {:induction false} DesiredConservesDeployments(raw: seq<RawDeployment>, artifacts: Artifacts)
    ensures Placements(Desired(raw, artifacts)) == Accepted(raw, artifacts)
  {
    var grouped := Grouped(raw, artifacts);
    DeploymentsConserved(raw, artifacts);
    RenamedPlaces(grouped, UniqueNames(NamesOf(grouped), {}));
  }

  // ----- where a contract comes from

  /** The deployment has an artifact, not just in tests, with events. */
  ghost predicate Accepts(d: RawDeployment, artifacts: Artifacts) {
    artifacts.find(d).Found? && artifacts.find(d).artifact.eventNames != []
  }

  ghost predicate IsReason(found: ArtifactSelection, reason: SkipReason) {
    match reason
    case TestArtifact => found.TestOnly?
    case MissingArtifact => found.Missing?
    case NoEvents => found.Found? && found.artifact.eventNames == []
  }

  lemma SkipIs(d: RawDeployment, artifacts: Artifacts)
    ensures SkipFor(d, artifacts).None? <==> Accepts(d, artifacts)
    ensures forall r :: SkipFor(d, artifacts) == Some(r) <==> IsReason(artifacts.find(d), r)
  {
  }

  /** A deployment is reported as skipped for a reason exactly when it was deployed and that is the reason. */
  lemma {:induction false} SkippedExactly(raw: seq<RawDeployment>, artifacts: Artifacts, d: RawDeployment,
                                          reason: SkipReason)
    ensures Skipped(d, reason) in AllSkipped(raw, artifacts) <==> d in raw && IsReason(artifacts.find(d), reason)
  {
    hide SkipFor, IsReason;
    if raw != [] {
      var before, last := raw[..|raw| - 1], raw[|raw| - 1];
      assert raw == before + [last];
      SkippedExactly(before, artifacts, d, reason);
      SkipIs(last, artifacts);
    }
  }

  /** Contract name and artifact path of a deployment, as one text. */
  ghost function SourceKey(d: RawDeployment, artifacts: Artifacts): string
    requires Accepts(d, artifacts)
  {
    d.contractName + ":" + artifacts.find(d).artifact.relativePath
  }

  /** The deployments of one key, in the order in which they are reported. */
  ghost function OfKey(raw: seq<RawDeployment>, artifacts: Artifacts, key: string): seq<Deployment> {
    if raw == [] then []
    else
      var before, last := OfKey(raw[..|raw| - 1], artifacts, key), raw[|raw| - 1];
      before + if Accepts(last, artifacts) && SourceKey(last, artifacts) == key
               then [Deployment(last.chainId, last.address, last.startBlock)] else []
  }

  ghost predicate ComesFrom(c: DesiredContract, d: RawDeployment, artifacts: Artifacts) {
    && Accepts(d, artifacts) && c.key == SourceKey(d, artifacts)
    && c.foundryName == d.contractName
    && c.artifactPath == artifacts.find(d).artifact.relativePath
    && c.abiJson == artifacts.find(d).artifact.abiJson
    && c.eventNames == artifacts.find(d).artifact.eventNames
  }

  /** The contract has name, artifact, ABI and events of the first deployment of its key, and all of that key's
      deployments in their order. */
  ghost predicate Collects(c: DesiredContract, raw: seq<RawDeployment>, artifacts: Artifacts) {
    && c.deployments == OfKey(raw, artifacts, c.key)
    && exists i | 0 <= i < |raw| :: ComesFrom(c, raw[i], artifacts) && NoneBefore(raw, artifacts, c.key, i)
  }

  ghost predicate NoneBefore(raw: seq<RawDeployment>, artifacts: Artifacts, key: string, i: int)
    requires i <= |raw|
  {
    forall j | 0 <= j < i :: Accepts(raw[j], artifacts) ==> SourceKey(raw[j], artifacts) != key
  }

  /** What a deployment does to the contracts collected so far. */
  lemma {:induction false} UpsertMember(grouped: seq<DesiredContract>, d: RawDeployment, artifact: Artifact,
                                        c: DesiredContract)
    requires Ordered(grouped) && c in Upsert(grouped, d, artifact)
    ensures var key := RawKey(d, artifact);
            || (c in grouped && c.key != key)
            || (exists x | x in grouped :: x.key == key && c == x.(deployments := x.deployments + [Deployed(d)]))
            || (c == FirstOf(d, artifact) && forall x | x in grouped :: x.key != key)
  {
    var key := RawKey(d, artifact);
    hide Before, RawKey, FirstOf, Deployed;
    if grouped == [] || Before(key, grouped[0].key) {
      AllLater(grouped, key);
    } else if grouped[0].key == key {
      SameKeyOnce(grouped);
      assert grouped[0] in grouped;
    } else if c != grouped[0] {
      UpsertMember(grouped[1..], d, artifact, c);
      assert forall x :: x in grouped <==> x == grouped[0] || x in grouped[1..];
    }
  }

  lemma AllLater(grouped: seq<DesiredContract>, key: string)
    requires Ordered(grouped) && (grouped == [] || Before(key, grouped[0].key))
    ensures forall x | x in grouped :: x.key != key
  {
    hide Before;
    forall x | x in grouped ensures x.key != key {
      var i :| 0 <= i < |grouped| && grouped[i] == x;
      if i > 0 {
        BeforeTransitive(key, grouped[0].key, x.key);
      }
      BeforeIrreflexive(key);
    }
  }

  lemma SameKeyOnce(grouped: seq<DesiredContract>)
    requires grouped != [] && Ordered(grouped)
    ensures forall x | x in grouped[1..] :: x in grouped && x.key != grouped[0].key
  {
    hide Before;
    forall x | x in grouped[1..] ensures x.key != grouped[0].key {
      var i :| 0 <= i < |grouped[1..]| && grouped[1..][i] == x;
      assert Before(grouped[0].key, grouped[i + 1].key);
      BeforeIrreflexive(x.key);
    }
  }

  lemma UpsertKeys(grouped: seq<DesiredContract>, d: RawDeployment, artifact: Artifact)
    ensures exists c | c in Upsert(grouped, d, artifact) :: c.key == RawKey(d, artifact)
    ensures forall x | x in grouped :: exists c | c in Upsert(grouped, d, artifact) :: c.key == x.key
    decreases grouped
  {
    var key, r := RawKey(d, artifact), Upsert(grouped, d, artifact);
    hide Before, RawKey;
    if grouped == [] || Before(key, grouped[0].key) {
      assert r[0] in r && r[0].key == key;
    } else if grouped[0].key == key {
      assert r[0] in r && r[0].key == key;
      assert forall x | x in grouped :: x == grouped[0] || x in r;
    } else {
      UpsertKeys(grouped[1..], d, artifact);
      var rest := Upsert(grouped[1..], d, artifact);
      assert forall c :: c in r <==> c == grouped[0] || c in rest;
      assert forall x | x in grouped :: x == grouped[0] || x in grouped[1..];
    }
  }

  /** Every contract so far collects, and every accepted deployment has one. */
  ghost predicate AllCollect(grouped: seq<DesiredContract>, raw: seq<RawDeployment>, artifacts: Artifacts) {
    && (forall c | c in grouped :: Collects(c, raw, artifacts))
    && (forall d | d in raw && Accepts(d, artifacts) :: exists c | c in grouped :: c.key == SourceKey(d, artifacts))
  }

  lemma OfKeyNext(raw: seq<RawDeployment>, artifacts: Artifacts, last: RawDeployment, key: string)
    ensures OfKey(raw + [last], artifacts, key) ==
            OfKey(raw, artifacts, key) + (if Accepts(last, artifacts) && SourceKey(last, artifacts) == key
                                          then [Deployment(last.chainId, last.address, last.startBlock)] else [])
  {
    assert (raw + [last])[..|raw|] == raw;
  }

  /** A contract collects on, with the new deployment if it is of its key. */
  lemma CollectsOn(c: DesiredContract, raw: seq<RawDeployment>, artifacts: Artifacts, last: RawDeployment)
    requires Collects(c, raw, artifacts)
    ensures !Accepts(last, artifacts) || SourceKey(last, artifacts) != c.key ==> Collects(c, raw + [last], artifacts)
    ensures Accepts(last, artifacts) && SourceKey(last, artifacts) == c.key ==>
              Collects(c.(deployments := c.deployments + [Deployment(last.chainId, last.address, last.startBlock)]),
                       raw + [last], artifacts)
  {
    OfKeyNext(raw, artifacts, last, c.key);
    var more := raw + [last];
    var i :| 0 <= i < |raw| && ComesFrom(c, raw[i], artifacts) && NoneBefore(raw, artifacts, c.key, i);
    assert more[i] == raw[i] && NoneBefore(more, artifacts, c.key, i);
    var c' := c.(deployments := c.deployments + [Deployment(last.chainId, last.address, last.startBlock)]);
    assert ComesFrom(c', more[i], artifacts) && NoneBefore(more, artifacts, c'.key, i);
    hide OfKey;
  }

  lemma CollectsFirst(raw: seq<RawDeployment>, artifacts: Artifacts, last: RawDeployment)
    requires Accepts(last, artifacts)
    requires forall d | d in raw && Accepts(d, artifacts) :: SourceKey(d, artifacts) != SourceKey(last, artifacts)
    ensures Collects(FirstOf(last, artifacts.find(last).artifact), raw + [last], artifacts)
  {
    var c, more := FirstOf(last, artifacts.find(last).artifact), raw + [last];
    var key := SourceKey(last, artifacts);
    NoneOfKey(raw, artifacts, key);
    OfKeyNext(raw, artifacts, last, key);
    assert more[|raw|] == last && ComesFrom(c, more[|raw|], artifacts);
    forall j | 0 <= j < |raw| ensures Accepts(more[j], artifacts) ==> SourceKey(more[j], artifacts) != key {
      assert more[j] == raw[j] && raw[j] in raw;
    }
    assert NoneBefore(more, artifacts, c.key, |raw|);
    hide OfKey, SanitizedName;
  }

  lemma {:induction false} NoneOfKey(raw: seq<RawDeployment>, artifacts: Artifacts, key: string)
    requires forall d | d in raw && Accepts(d, artifacts) :: SourceKey(d, artifacts) != key
    ensures OfKey(raw, artifacts, key) == []
  {
    if raw != [] {
      var before, last := raw[..|raw| - 1], raw[|raw| - 1];
      assert last in raw && forall d | d in before :: d in raw;
      NoneOfKey(before, artifacts, key);
    }
  }

  lemma {:induction false} GroupedCollects(raw: seq<RawDeployment>, artifacts: Artifacts)
    ensures AllCollect(Grouped(raw, artifacts), raw, artifacts)
  {
    if raw == [] {
      assert Grouped(raw, artifacts) == [];
    } else {
      var before, last := raw[..|raw| - 1], raw[|raw| - 1];
      GroupedCollects(before, artifacts);
      GroupedOrdered(before, artifacts);
      SkipIs(last, artifacts);
      var grouped := Grouped(before, artifacts);
      assert raw == before + [last];
      assert Grouped(raw, artifacts) ==
             if SkipFor(last, artifacts).Some? then grouped else Upsert(grouped, last, artifacts.find(last).artifact);
      hide *;
      if Accepts(last, artifacts) {
        CollectNext(grouped, before, artifacts, last);
      } else {
        CollectSame(grouped, before, artifacts, last);
      }
    }
  }

  lemma CollectSame(grouped: seq<DesiredContract>, raw: seq<RawDeployment>, artifacts: Artifacts, last: RawDeployment)
    requires AllCollect(grouped, raw, artifacts) && !Accepts(last, artifacts)
    ensures AllCollect(grouped, raw + [last], artifacts)
  {
    hide Collects, Accepts, SourceKey;
    forall c | c in grouped ensures Collects(c, raw + [last], artifacts) {
      CollectsOn(c, raw, artifacts, last);
    }
  }

  lemma CollectNext(grouped: seq<DesiredContract>, raw: seq<RawDeployment>, artifacts: Artifacts, last: RawDeployment)
    requires AllCollect(grouped, raw, artifacts) && Accepts(last, artifacts) && Ordered(grouped)
    ensures artifacts.find(last).Found?
    ensures AllCollect(Upsert(grouped, last, artifacts.find(last).artifact), raw + [last], artifacts)
  {
    var artifact, key := artifacts.find(last).artifact, SourceKey(last, artifacts);
    assert RawKey(last, artifact) == key && Deployed(last) == Deployment(last.chainId, last.address, last.startBlock);
    var r := Upsert(grouped, last, artifact);
    hide Upsert, Collects, Accepts, SourceKey, RawKey, Deployed, FirstOf, Ordered;
    forall c | c in r ensures Collects(c, raw + [last], artifacts) {
      UpsertMember(grouped, last, artifact, c);
      if c in grouped && c.key != key {
        CollectsOn(c, raw, artifacts, last);
      } else if x :| x in grouped && x.key == key && c == x.(deployments := x.deployments + [Deployed(last)]) {
        CollectsOn(x, raw, artifacts, last);
      } else {
        CollectsFirst(raw, artifacts, last);
      }
    }
    UpsertKeys(grouped, last, artifact);
    forall d | d in raw + [last] && Accepts(d, artifacts)
      ensures exists c | c in r :: c.key == SourceKey(d, artifacts)
    {
      if d in raw {
        var x :| x in grouped && x.key == SourceKey(d, artifacts);
      }
    }
  }

  /** A discovered contract has name, artifact, ABI and events of the first deployment of its key, all deployments of
      the key in their order, and its sanitised name, or one that starts with it if an earlier contract has that.
      Every deployment with an artifact and events is in a contract, in the order of keys. */
  lemma {:induction false} DesiredCollects(raw: seq<RawDeployment>, artifacts: Artifacts, j: nat)
    requires j < |Desired(raw, artifacts)|
    ensures var desired := Desired(raw, artifacts);
            && Collects(desired[j], raw, artifacts)
            && (forall i | 0 <= i < j :: Before(desired[i].key, desired[j].key))
            && SanitizedName(desired[j].foundryName) <= desired[j].name
            && (desired[j].name == SanitizedName(desired[j].foundryName) <==>
                forall i | 0 <= i < j :: desired[i].name != SanitizedName(desired[j].foundryName))
    ensures forall d | d in raw && Accepts(d, artifacts) ::
              exists i | 0 <= i < |Desired(raw, artifacts)| :: Desired(raw, artifacts)[i].key == SourceKey(d, artifacts)
  {
    hide *;
    var grouped, desired := Grouped(raw, artifacts), Desired(raw, artifacts);
    GroupedCollects(raw, artifacts);
    OneCollects(raw, artifacts, j);
    KeysInPlace(raw, artifacts, j);
    NamesInPlace(raw, artifacts, j);
    forall d | d in raw && Accepts(d, artifacts)
      ensures exists i | 0 <= i < |desired| :: desired[i].key == SourceKey(d, artifacts)
    {
      HasContract(raw, artifacts, d);
    }
  }

  lemma DesiredAt(raw: seq<RawDeployment>, artifacts: Artifacts, j: nat)
    requires j < |Desired(raw, artifacts)|
    ensures var grouped := Grouped(raw, artifacts);
            var names := UniqueNames(NamesOf(grouped), {});
            |names| == |grouped| == |Desired(raw, artifacts)|
            && Desired(raw, artifacts)[j] == grouped[j].(name := names[j], abiPath := AbiPath(names[j]))
  {
    hide Grouped, UniqueNames, NamesOf, AbiPath;
  }

  lemma OneCollects(raw: seq<RawDeployment>, artifacts: Artifacts, j: nat)
    requires j < |Desired(raw, artifacts)| && AllCollect(Grouped(raw, artifacts), raw, artifacts)
    ensures Collects(Desired(raw, artifacts)[j], raw, artifacts)
  {
    DesiredAt(raw, artifacts, j);
    hide Desired, Grouped, UniqueNames, NamesOf, AbiPath, Collects;
    CollectsRenamed(Grouped(raw, artifacts)[j], Desired(raw, artifacts)[j], raw, artifacts);
  }

  lemma KeysInPlace(raw: seq<RawDeployment>, artifacts: Artifacts, j: nat)
    requires j < |Desired(raw, artifacts)|
    ensures forall i | 0 <= i < j :: Before(Desired(raw, artifacts)[i].key, Desired(raw, artifacts)[j].key)
  {
    GroupedOrdered(raw, artifacts);
    hide Desired, Grouped, UniqueNames, NamesOf, AbiPath, Before;
    DesiredAt(raw, artifacts, j);
    forall i | 0 <= i < j ensures Before(Desired(raw, artifacts)[i].key, Desired(raw, artifacts)[j].key) {
      DesiredAt(raw, artifacts, i);
    }
  }

  lemma NamesInPlace(raw: seq<RawDeployment>, artifacts: Artifacts, j: nat)
    requires j < |Desired(raw, artifacts)|
    ensures var desired := Desired(raw, artifacts);
            && SanitizedName(desired[j].foundryName) <= desired[j].name
            && (desired[j].name == SanitizedName(desired[j].foundryName) <==>
                forall i | 0 <= i < j :: desired[i].name != SanitizedName(desired[j].foundryName))
  {
    var grouped, desired := Grouped(raw, artifacts), Desired(raw, artifacts);
    var names := UniqueNames(NamesOf(grouped), {});
    GroupedOrdered(raw, artifacts);
    DesiredAt(raw, artifacts, j);
    assert GroupOk(grouped[j]);
    UniqueNamesKept(NamesOf(grouped), {}, j);
    hide Desired, Grouped, UniqueNames, NamesOf, AbiPath, Before, SanitizedName;
    forall i | 0 <= i < j ensures desired[i].name == names[i] {
      DesiredAt(raw, artifacts, i);
    }
  }

  lemma HasContract(raw: seq<RawDeployment>, artifacts: Artifacts, d: RawDeployment)
    requires AllCollect(Grouped(raw, artifacts), raw, artifacts) && d in raw && Accepts(d, artifacts)
    ensures exists i | 0 <= i < |Desired(raw, artifacts)| :: Desired(raw, artifacts)[i].key == SourceKey(d, artifacts)
  {
    var grouped := Grouped(raw, artifacts);
    hide Desired, Grouped, UniqueNames, NamesOf, AbiPath, Accepts, SourceKey, Collects;
    var c :| c in grouped && c.key == SourceKey(d, artifacts);
    var i :| 0 <= i < |grouped| && grouped[i] == c;
    DesiredAt(raw, artifacts, i);
  }

  lemma CollectsRenamed(c: DesiredContract, c': DesiredContract, raw: seq<RawDeployment>, artifacts: Artifacts)
    requires Collects(c, raw, artifacts) && c' == c.(name := c'.name, abiPath := c'.abiPath)
    ensures Collects(c', raw, artifacts)
  {
    var i :| 0 <= i < |raw| && ComesFrom(c, raw[i], artifacts) && NoneBefore(raw, artifacts, c.key, i);
    assert ComesFrom(c', raw[i], artifacts) && NoneBefore(raw, artifacts, c'.key, i);
  }

  // ----- from import to any number of syncs

  function DesiredAll(rounds: seq<seq<RawDeployment>>, artifacts: Artifacts): (r: seq<seq<DesiredContract>>)
    ensures |r| == |rounds| && forall i | 0 <= i < |r| :: r[i] == Desired(rounds[i], artifacts)
  {
    if rounds == [] then [] else [Desired(rounds[0], artifacts)] + DesiredAll(rounds[1..], artifacts)
  }

  /** From a new import on, over any list of later deployments: managed names never clash, all managed
      contracts stand in the manifest, and each one's file, under a path made from its name, holds its own
      newest ABI. */
  lemma {:induction false} ProjectsStaySettled(first: seq<RawDeployment>, rounds: seq<seq<RawDeployment>>,
                                               artifacts: Artifacts)
    ensures var (m, managed) := Imported(Desired(first, artifacts));
            var (m', managed') := SyncedAll(m, managed, DesiredAll(rounds, artifacts));
            && Settled(managed', m'.contracts) && PlainPaths(managed')
            && HoldsAbis(m', managed', Newest(Desired(first, artifacts), DesiredAll(rounds, artifacts)))
  {
    hide Desired, Imported, SyncedAll, Discovered, Settled, PlainPaths, HoldsAbis, NameOk;
    DesiredIsDiscovered(first, artifacts);
    ImportSettles(Desired(first, artifacts));
    var (m, managed) := Imported(Desired(first, artifacts));
    var discoveries := DesiredAll(rounds, artifacts);
    forall desired | desired in discoveries ensures Discovered(desired) {
      var i :| 0 <= i < |discoveries| && discoveries[i] == desired;
      DesiredIsDiscovered(rounds[i], artifacts);
    }
    EveryRunKeepsAbis(m, managed, Desired(first, artifacts), discoveries);
  }

  // ----- a discovery that takes a name twice

  lemma {:induction false} BeforeAfter(p: string, a: string, b: string)
    ensures Before(p + a, p + b) == Before(a, b)
  {
    if p == "" {
      assert p + a == a && p + b == b;
    } else {
      assert (p + a)[1..] == p[1..] + a && (p + b)[1..] == p[1..] + b;
      BeforeAfter(p[1..], a, b);
    }
  }

  lemma KeysInOrder(name: string, a: string, b: string)
    requires Before(a, b)
    ensures Before(KeyOf(name, a), KeyOf(name, b)) && !Before(KeyOf(name, b), KeyOf(name, a)) &&
            KeyOf(name, a) != KeyOf(name, b)
  {
    var p := name + ":";
    assert KeyOf(name, a) == p + a && KeyOf(name, b) == p + b;
    BeforeAfter(p, a, b);
    BeforeAfter(p, b, a);
    BeforeIrreflexive(p + a);
    if Before(b, a) {
      BeforeTransitive(a, b, a);
      BeforeIrreflexive(a);
    }
  }

  lemma OneDeployment(d: RawDeployment, artifacts: Artifacts)
    requires SkipFor(d, artifacts).None?
    ensures var first := FirstOf(d, artifacts.find(d).artifact);
            Grouped([d], artifacts) == [first] && Desired([d], artifacts) == [first]
  {
    NotSkipped(d, artifacts);
    var first := FirstOf(d, artifacts.find(d).artifact);
    assert [d][..0] == [] && Grouped([], artifacts) == [];
    assert Grouped([d], artifacts) == [first];
    assert NamesOf([first]) == [first.name];
    assert UniqueNames([first.name], {}) == [first.name];
    hide UniqueNames, NamesOf, Grouped;
    assert Renamed([first], [first.name]) == [first];
  }

  lemma TwoDeployments(z: RawDeployment, a: RawDeployment, artifacts: Artifacts)
    requires SkipFor(z, artifacts).None? && SkipFor(a, artifacts).None? && z.contractName == a.contractName
    requires Before(artifacts.find(a).artifact.relativePath, artifacts.find(z).artifact.relativePath)
    ensures var desired := Desired([z, a], artifacts);
            && |desired| == 2
            && desired[0].name == SanitizedName(a.contractName)
            && desired[0].key == RawKey(a, artifacts.find(a).artifact)
            && desired[1].key == RawKey(z, artifacts.find(z).artifact)
            && desired[0].key != desired[1].key
  {
    NotSkipped(a, artifacts);
    NotSkipped(z, artifacts);
    var first, second := FirstOf(a, artifacts.find(a).artifact), FirstOf(z, artifacts.find(z).artifact);
    KeysInOrder(a.contractName, artifacts.find(a).artifact.relativePath, artifacts.find(z).artifact.relativePath);
    OneDeployment(z, artifacts);
    hide SanitizedName, KeyOf, Before, Desired;
    assert [z, a][..1] == [z];
    assert Grouped([z, a], artifacts) == [first] + [second];
    TwoNames(first, second);
    RenamedTwo([z, a], artifacts, first, second);
  }

  lemma TwoNames(first: DesiredContract, second: DesiredContract)
    ensures var names := UniqueNames(NamesOf([first] + [second]), {}); |names| == 2 && names[0] == first.name
  {
    hide SanitizedName;
    assert NamesOf([first] + [second])[0] == first.name;
  }

  lemma RenamedTwo(raw: seq<RawDeployment>, artifacts: Artifacts, first: DesiredContract, second: DesiredContract)
    requires Grouped(raw, artifacts) == [first] + [second]
    ensures var desired, names := Desired(raw, artifacts), UniqueNames(NamesOf([first] + [second]), {});
            |desired| == 2 && desired[0].name == names[0] && desired[0].key == first.key && desired[1].key == second.key
  {
    hide Grouped, UniqueNames, NamesOf;
  }

  /** A project imports contract `z`; its entry is then removed from the manifest by hand. When a contract of
      the same name from an artifact that comes before is deployed too, the next sync gives both the same
      name, and the entry of the new one is overwritten by that of the old one. */
  lemma {:induction false} DiscoveryTakesNameTwice(m: Manifest, z: RawDeployment, a: RawDeployment,
                                                   artifacts: Artifacts)
    requires SkipFor(z, artifacts).None? && SkipFor(a, artifacts).None? && z.contractName == a.contractName
    requires Before(artifacts.find(a).artifact.relativePath, artifacts.find(z).artifact.relativePath)
    requires SanitizedName(z.contractName) !in ContractNames(m.contracts)
    ensures var name, managed, desired := SanitizedName(z.contractName), Imported(Desired([z], artifacts)).1,
            Desired([z, a], artifacts);
            var r := SyncReport(m, managed, desired, false);
            && |desired| == 2 && desired[0].key != desired[1].key
            && desired[0].key in r.identities && r.identities[desired[0].key].name == name
            && desired[1].key in r.identities && r.identities[desired[1].key].name == name
            && SyncReport(m, managed, desired, true).added == [name, name] && r.added == [name] && r.updated == [name]
            && |Synced(m, managed, desired, false).contracts| == |m.contracts| + 1
            && Synced(m, managed, desired, false).contracts[|m.contracts|].details ==
               ContractToManifest(desired[1], SyncNames(m, desired), None, None).details
  {
    var name, desired := SanitizedName(z.contractName), Desired([z, a], artifacts);
    var managed := Imported(Desired([z], artifacts)).1;
    OneManagedAfterImport(z, artifacts);
    TwoDeployments(z, a, artifacts);
    hide *;
    var c := managed[0];
    assert managed == [c] && desired == [desired[0], desired[1]];
    RemovedNameIsTakenTwice(m, c, desired[0], desired[1]);
    SameDetails(desired[1], SyncNames(m, desired), Identity(c.name, c.abiPath));
  }

  lemma SameDetails(d: DesiredContract, names: map<nat, string>, id: Identity)
    ensures ContractToManifest(d, names, Some(EMPTY_EXTENSIONS), Some(id)).details ==
            ContractToManifest(d, names, None, None).details
  {
  }

  lemma OneManagedAfterImport(z: RawDeployment, artifacts: Artifacts)
    requires SkipFor(z, artifacts).None?
    ensures var managed := Imported(Desired([z], artifacts)).1;
            |managed| == 1 && managed[0].name == SanitizedName(z.contractName)
            && ManagedKey(managed[0]) == RawKey(z, artifacts.find(z).artifact)
  {
    NotSkipped(z, artifacts);
    OneDeployment(z, artifacts);
    hide Desired, SanitizedName, WithNetworks, ChainNetworkNames, ManagedDeployments, WrittenBy;
  }

  /** A project imports contract `z`. After one sync of a discovery without it, the next sync that finds it again
      gives it another name. */
  lemma {:induction false} ReturnsRenamed(z: RawDeployment, without: seq<RawDeployment>, artifacts: Artifacts)
    requires SkipFor(z, artifacts).None?
    requires RawKey(z, artifacts.find(z).artifact) !in Keys(Desired(without, artifacts))
    ensures var (m, managed) := Imported(Desired([z], artifacts));
            var (m', managed') := SyncedAll(m, managed, [Desired(without, artifacts), Desired([z], artifacts)]);
            |managed'| == 1 && ManagedKey(managed'[0]) == RawKey(z, artifacts.find(z).artifact)
            && managed'[0].name != SanitizedName(z.contractName)
  {
    var one, other, k := Desired([z], artifacts), Desired(without, artifacts), RawKey(z, artifacts.find(z).artifact);
    var (m, managed) := Imported(one);
    var discoveries := [other, one];
    OneManagedAfterImport(z, artifacts);
    NotSkipped(z, artifacts);
    OneDeployment(z, artifacts);
    assert |one| == 1 && one[0].key == k;
    hide Desired, Imported, SyncedAll, Discovered, Settled, SanitizedName, NameOk, ByKey, ManagedKey, NextOrigin,
      Synced, AlwaysThere,
      PlainPaths, HoldsAbis;
    DesiredIsDiscovered([z], artifacts);
    DesiredIsDiscovered(without, artifacts);
    ImportSettles(one);
    assert discoveries[0] == other && discoveries[1] == one;
    assert managed[0] in managed && one[0] in one;
    NameIsKeptExactly(m, managed, discoveries, k);
    AlwaysParts(discoveries, k);
    LastOriginIs(m, managed, other, one);
  }

  lemma LastOriginIs(m: Manifest, managed: seq<ManagedContract>, other: seq<DesiredContract>, one: seq<DesiredContract>)
    requires Discovered(one) && |one| == 1
    ensures var managed' := SyncedAll(m, managed, [other, one]).1;
            |managed'| == 1 && ManagedKey(managed'[0]) == one[0].key &&
              ByKey(managed') == map[one[0].key := managed'[0]]
  {
    var m1, managed1 := Synced(m, managed, other, false), NextOrigin(m, managed, other);
    hide Synced, NextOrigin, Discovered, ManagedKey, ByKey;
    var m2, managed2 := Synced(m1, managed1, one, false), NextOrigin(m1, managed1, one);
    assert [other, one][1..] == [one] && [one][1..] == [];
    assert SyncedAll(m2, managed2, []) == (m2, managed2);
    assert SyncedAll(m1, managed1, [one]) == (m2, managed2);
    assert SyncedAll(m, managed, [other, one]) == SyncedAll(m1, managed1, [one]);
    NextOriginIs(m1, managed1, one);
    assert managed2 == [managed2[0]];
    OneManaged(managed2[0]);
  }
}
