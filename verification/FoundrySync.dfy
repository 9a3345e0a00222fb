/** Syncing a Foundry discovery into a manifest that users edit. */
module FoundrySync {
  import opened Basics
  import opened Options
  import opened FreshNames
  import opened FoundryModel

  /** What a sync has done so far. */
  datatype Progress = Progress(
    contracts: seq<Contract>,
    namesInUse: set<string>,
    files: map<string, string>,
    added: seq<string>,
    updated: seq<string>,
    abiUpdated: seq<string>,
    identities: map<string, Identity>)

  datatype Report = Report(
    added: seq<string>,
    updated: seq<string>,
    stale: seq<string>,
    abiUpdated: seq<string>,
    identities: map<string, Identity>)

  // ----- one contract

  /** Managed contracts by key; the last of a key wins. */
  function ByKey(managed: seq<ManagedContract>): (r: map<string, ManagedContract>)
    ensures forall k :: k in r <==> exists c | c in managed :: ManagedKey(c) == k
    ensures forall k | k in r :: r[k] in managed && ManagedKey(r[k]) == k
  {
    if managed == [] then map[]
    else
      var init, last := managed[..|managed| - 1], managed[|managed| - 1];
      assert managed == init + [last];
      ByKey(init)[ManagedKey(last) := last]
  }

  /** A contract that was managed before keeps its name and ABI path; a new one gets a free name. */
  function IdentityFor(previous: map<string, ManagedContract>, namesInUse: set<string>,
                       desired: DesiredContract): Identity {
    if desired.key in previous then Identity(previous[desired.key].name, previous[desired.key].abiPath)
    else
      var name := UniqueName(desired.name, namesInUse);
      Identity(name, AbiPath(name))
  }

  function Position(contracts: seq<Contract>, name: string): (r: Option<nat>)
    ensures r.None? <==> name !in ContractNames(contracts)
    ensures r.Some? ==> r.value < |contracts| && contracts[r.value].name == name
    ensures r.Some? ==> forall i | 0 <= i < r.value :: contracts[i].name != name
  {
    if contracts == [] then None
    else
      assert forall c :: c in contracts <==> c == contracts[0] || c in contracts[1..];
      if contracts[0].name == name then
        assert name in ContractNames(contracts);
        Some(0)
      else
        var rest := Position(contracts[1..], name);
        assert name in ContractNames(contracts[1..]) <==> name in ContractNames(contracts);
        if rest.None? then None else Some(rest.value + 1)
  }

  function AbiChanged(files: map<string, string>, path: string, abi: string): bool {
    path !in files || files[path] != abi
  }

  /** The manifest entry for a desired contract; an entry that is there keeps its extensions. */
  function NextContract(contracts: seq<Contract>, names: map<nat, string>, desired: DesiredContract,
                        id: Identity): Contract {
    var p := Position(contracts, id.name);
    ContractToManifest(desired, names, if p.Some? then Some(contracts[p.value].extensions) else None, Some(id))
  }

  function Placed(contracts: seq<Contract>, names: map<nat, string>, desired: DesiredContract,
                  id: Identity): seq<Contract> {
    var p, next := Position(contracts, id.name), NextContract(contracts, names, desired, id);
    if p.Some? then contracts[p.value := next] else contracts + [next]
  }

  function Step(st: Progress, previous: map<string, ManagedContract>, names: map<nat, string>, dryRun: bool,
                desired: DesiredContract): Progress
  {
    var id := IdentityFor(previous, st.namesInUse, desired);
    var present := Position(st.contracts, id.name).Some?;
    Progress(
      if dryRun then st.contracts else Placed(st.contracts, names, desired, id),
      st.namesInUse + {id.name},
      if dryRun then st.files else st.files[id.abiPath := desired.abiJson],
      if present then st.added else st.added + [id.name],
      if present then st.updated + [id.name] else st.updated,
      if present && AbiChanged(st.files, id.abiPath, desired.abiJson) then st.abiUpdated + [id.name] else st.abiUpdated,
      st.identities[desired.key := id])
  }

  function Steps(st: Progress, previous: map<string, ManagedContract>, names: map<nat, string>, dryRun: bool,
                 desired: seq<DesiredContract>): Progress
  {
    if desired == [] then st
    else Step(Steps(st, previous, names, dryRun, desired[..|desired| - 1]), previous, names, dryRun,
              desired[|desired| - 1])
  }

  // ----- a sync

  function Start(m: Manifest): Progress {
    Progress(m.contracts, ContractNames(m.contracts), m.files, [], [], [], map[])
  }

  function Keys(desired: seq<DesiredContract>): set<string> {
    set d | d in desired :: d.key
  }

  /** Managed contracts that are not deployed any more but still stand in the manifest. */
  function Stale(managed: seq<ManagedContract>, keys: set<string>, names: set<string>): (r: seq<string>)
    ensures forall n :: n in r <==> n in names && exists c | c in managed :: c.name == n && ManagedKey(c) !in keys
  {
    if managed == [] then []
    else
      assert forall c :: c in managed <==> c == managed[0] || c in managed[1..];
      (if ManagedKey(managed[0]) !in keys && managed[0].name in names then [managed[0].name] else [])
      + Stale(managed[1..], keys, names)
  }

  function SyncNames(m: Manifest, desired: seq<DesiredContract>): map<nat, string> {
    ChainNetworkNames(WithNetworks(m.networks, desired))
  }

  function Run(m: Manifest, managed: seq<ManagedContract>, desired: seq<DesiredContract>, dryRun: bool): Progress {
    Steps(Start(m), ByKey(managed), SyncNames(m, desired), dryRun, desired)
  }

  function Synced(m: Manifest, managed: seq<ManagedContract>, desired: seq<DesiredContract>, dryRun: bool): Manifest {
    var st := Run(m, managed, desired, dryRun);
    Manifest(WithNetworks(m.networks, desired), st.contracts, st.files)
  }

  function SyncReport(m: Manifest, managed: seq<ManagedContract>, desired: seq<DesiredContract>, dryRun: bool): Report {
    var st := Run(m, managed, desired, dryRun);
    Report(st.added, st.updated, Stale(managed, Keys(desired), ContractNames(m.contracts)), st.abiUpdated,
           st.identities)
  }

  /** The manifest in memory and the files beside it. */
  class Project {
    var networks: seq<Network>
    var contracts: seq<Contract>
    var files: map<string, string>

    constructor (m: Manifest)
      ensures Value() == m
    {
      networks, contracts, files := m.networks, m.contracts, m.files;
    }

    function Value(): Manifest reads this { Manifest(networks, contracts, files) }

    method SyncManifestAndAbis(managed: seq<ManagedContract>, desired: seq<DesiredContract>, dryRun: bool)
      returns (report: Report)
      modifies this
      ensures Value() == Synced(old(Value()), managed, desired, dryRun)
      ensures report == SyncReport(old(Value()), managed, desired, dryRun)
    {
      ghost var m := Value();
      var previous := ByKey(managed);
      networks := BuildDefaultNetworks(desired, Some(networks));
      var names := ChainNetworkNames(networks);
      var manifestNames := ContractNames(contracts);
      var namesInUse := manifestNames;
      var added, updated, abiUpdated, identities := [], [], [], map[];
      hide WithNetworks, ChainNetworkNames, ByKey, ContractNames, NextContract, UniqueName, ContractToManifest;
      for i := 0 to |desired|
        invariant networks == WithNetworks(m.networks, desired)
        invariant Progress(contracts, namesInUse, files, added, updated, abiUpdated, identities) ==
                  Steps(Start(m), previous, names, dryRun, desired[..i])
      {
        assert desired[..i + 1][..i] == desired[..i];
        var id := IdentityFor(previous, namesInUse, desired[i]);
        namesInUse := namesInUse + {id.name};
        var position := Position(contracts, id.name);
        var next := NextContract(contracts, names, desired[i], id);
        if position.Some? {
          updated := updated + [id.name];
          if AbiChanged(files, id.abiPath, desired[i].abiJson) {
            abiUpdated := abiUpdated + [id.name];
          }
          if !dryRun {
            contracts := contracts[position.value := next];
          }
        } else {
          added := added + [id.name];
          if !dryRun {
            contracts := contracts + [next];
          }
        }
        if !dryRun {
          files := files[id.abiPath := desired[i].abiJson];
        }
        identities := identities[desired[i].key := id];
      }
      assert desired[..|desired|] == desired;
      report := Report(added, updated, Stale(managed, Keys(desired), manifestNames), abiUpdated, identities);
    }
  }

  // ----- the origin

  function ManagedDeployments(deployments: seq<Deployment>, names: map<nat, string>): seq<ManagedDeployment> {
    if deployments == [] then []
    else
      var d := deployments[0];
      [ManagedDeployment(d.chainId, NetworkName(names, d.chainId), d.address, d.startBlock)]
      + ManagedDeployments(deployments[1..], names)
  }

  function ToManaged(d: DesiredContract, names: map<nat, string>,
                     identities: Option<map<string, Identity>>): ManagedContract {
    var id := if identities.Some? && d.key in identities.value then identities.value[d.key]
              else Identity(d.name, d.abiPath);
    ManagedContract(id.name, d.foundryName, d.artifactPath, id.abiPath, ManagedDeployments(d.deployments, names))
  }

  /** The managed contracts of the origin that is written after a sync or a new import. */
  function BuildOrigin(desired: seq<DesiredContract>, names: map<nat, string>,
                       identities: Option<map<string, Identity>>): (r: seq<ManagedContract>)
    ensures |r| == |desired| && forall i | 0 <= i < |r| :: r[i] == ToManaged(desired[i], names, identities)
  {
    if desired == [] then []
    else [ToManaged(desired[0], names, identities)] + BuildOrigin(desired[1..], names, identities)
  }

  function NextOrigin(m: Manifest, managed: seq<ManagedContract>, desired: seq<DesiredContract>): seq<ManagedContract> {
    BuildOrigin(desired, SyncNames(m, desired), Some(Run(m, managed, desired, false).identities))
  }

  // ----- what is assumed of a discovery and of an origin

  /** Discovered contracts are grouped by key. */
  ghost predicate Discovered(desired: seq<DesiredContract>) {
    && (forall d | d in desired :: d.key == KeyOf(d.foundryName, d.artifactPath))
    && (forall i, j | 0 <= i < j < |desired| :: desired[i].key != desired[j].key)
  }

  /** The managed contracts have names of their own, and every one still stands in the manifest. */
  ghost predicate Settled(managed: seq<ManagedContract>, contracts: seq<Contract>) {
    && (forall i, j | 0 <= i < j < |managed| :: managed[i].name != managed[j].name)
    && (forall c | c in managed :: c.name in ContractNames(contracts))
  }

  ghost predicate SettledKeys(previous: map<string, ManagedContract>, names: set<string>) {
    && (forall k | k in previous :: previous[k].name in names)
    && (forall k, l | k in previous && l in previous && previous[k].name == previous[l].name :: k == l)
  }

  lemma SettledByKey(managed: seq<ManagedContract>, contracts: seq<Contract>)
    requires Settled(managed, contracts)
    ensures SettledKeys(ByKey(managed), ContractNames(contracts))
  {
    var previous := ByKey(managed);
    forall k, l | k in previous && l in previous && previous[k].name == previous[l].name ensures k == l {
      var i :| 0 <= i < |managed| && managed[i] == previous[k];
      var j :| 0 <= j < |managed| && managed[j] == previous[l];
      if i < j { } else if j < i { }
      assert ManagedKey(previous[k]) == k && ManagedKey(previous[l]) == l;
    }
  }

  // ----- contracts that the sync does not own

  /** Contracts stay where they are with their names and extensions; only updated ones change, new ones come last. */
  ghost predicate KeepsContracts(initial: seq<Contract>, contracts: seq<Contract>, added: seq<string>,
                                 updated: seq<string>) {
    && |contracts| == |initial| + |added|
    && (forall i | 0 <= i < |initial| ::
          && contracts[i].name == initial[i].name && contracts[i].extensions == initial[i].extensions
          && (initial[i].name !in updated ==> contracts[i] == initial[i]))
    && (forall i | |initial| <= i < |contracts| ::
          contracts[i].name == added[i - |initial|] && contracts[i].extensions == EMPTY_EXTENSIONS)
  }

  lemma AppendKeeps(initial: seq<Contract>, contracts: seq<Contract>, added: seq<string>, updated: seq<string>,
                    next: Contract)
    requires KeepsContracts(initial, contracts, added, updated) && next.extensions == EMPTY_EXTENSIONS
    ensures KeepsContracts(initial, contracts + [next], added + [next.name], updated)
  {
  }

  lemma UpdateKeeps(initial: seq<Contract>, contracts: seq<Contract>, added: seq<string>, updated: seq<string>,
                    k: nat, next: Contract)
    requires KeepsContracts(initial, contracts, added, updated) && k < |contracts|
    requires next.name == contracts[k].name && next.extensions == contracts[k].extensions
    ensures KeepsContracts(initial, contracts[k := next], added, updated + [next.name])
  {
  }

  lemma StepKeeps(initial: seq<Contract>, st: Progress, previous: map<string, ManagedContract>, names: map<nat, string>,
                  desired: DesiredContract)
    requires KeepsContracts(initial, st.contracts, st.added, st.updated)
    ensures var r := Step(st, previous, names, false, desired);
            KeepsContracts(initial, r.contracts, r.added, r.updated)
  {
    var id := IdentityFor(previous, st.namesInUse, desired);
    NextParts(st.contracts, names, desired, id);
    hide IdentityFor, AbiChanged, ContractNames, NextContract, KeepsContracts;
    var p, next := Position(st.contracts, id.name), NextContract(st.contracts, names, desired, id);
    if p.Some? {
      UpdateKeeps(initial, st.contracts, st.added, st.updated, p.value, next);
    } else {
      AppendKeeps(initial, st.contracts, st.added, st.updated, next);
    }
  }

  lemma NextParts(contracts: seq<Contract>, names: map<nat, string>, desired: DesiredContract, id: Identity)
    ensures var p, next := Position(contracts, id.name), NextContract(contracts, names, desired, id);
            && next.name == id.name
            && next.extensions == if p.Some? then contracts[p.value].extensions else EMPTY_EXTENSIONS
  {
  }

  lemma {:induction false} StepsKeep(initial: seq<Contract>, st: Progress, previous: map<string, ManagedContract>,
                                     names: map<nat, string>, desired: seq<DesiredContract>)
    requires KeepsContracts(initial, st.contracts, st.added, st.updated)
    ensures var r := Steps(st, previous, names, false, desired);
            KeepsContracts(initial, r.contracts, r.added, r.updated)
    decreases |desired|
  {
    hide KeepsContracts, Step;
    if desired != [] {
      var init := desired[..|desired| - 1];
      StepsKeep(initial, st, previous, names, init);
      StepKeeps(initial, Steps(st, previous, names, false, init), previous, names, desired[|desired| - 1]);
    }
  }

  /** For any manifest, origin and discovery: a contract whose name is not reported as updated is untouched,
      every contract keeps its place, name and extensions, and only added contracts are new. */
  lemma {:induction false} SyncDoesNotInterfere(m: Manifest, managed: seq<ManagedContract>,
                                                desired: seq<DesiredContract>)
    ensures var r := SyncReport(m, managed, desired, false);
            KeepsContracts(m.contracts, Synced(m, managed, desired, false).contracts, r.added, r.updated)
  {
    hide Steps, ByKey, SyncNames, ContractNames, Stale, WithNetworks;
    assert KeepsContracts(m.contracts, m.contracts, [], []);
    hide KeepsContracts;
    StepsKeep(m.contracts, Start(m), ByKey(managed), SyncNames(m, desired), desired);
  }

  // ----- names in the manifest

  lemma PlacedNames(contracts: seq<Contract>, names: map<nat, string>, desired: DesiredContract, id: Identity)
    ensures ContractNames(Placed(contracts, names, desired, id)) == ContractNames(contracts) + {id.name}
  {
    var p, next := Position(contracts, id.name), NextContract(contracts, names, desired, id);
    assert next.name == id.name;
    hide ContractToManifest, NextContract;
    var r := Placed(contracts, names, desired, id);
    forall i | 0 <= i < |contracts| ensures r[i].name == contracts[i].name && r[i] in r && contracts[i] in contracts {
    }
    if p.None? {
      assert r[|contracts|] == next && next in r;
      assert forall c :: c in r <==> c in contracts || c == next;
    } else {
      SameNames(contracts, r);
    }
  }

  lemma SameNames(a: seq<Contract>, b: seq<Contract>)
    requires |a| == |b| && forall i | 0 <= i < |a| :: a[i].name == b[i].name
    ensures ContractNames(a) == ContractNames(b)
  {
    forall n | n in ContractNames(a) ensures n in ContractNames(b) {
      var i :| 0 <= i < |a| && a[i].name == n;
      assert b[i] in b;
    }
    forall n | n in ContractNames(b) ensures n in ContractNames(a) {
      var i :| 0 <= i < |b| && b[i].name == n;
      assert a[i] in a;
    }
  }

  // ----- running again

  /** The contract already stands in the manifest just as a sync would write it. */
  ghost predicate Stable(contracts: seq<Contract>, names: map<nat, string>, desired: DesiredContract, id: Identity) {
    Position(contracts, id.name).Some? && Placed(contracts, names, desired, id) == contracts
  }

  lemma PositionIs(contracts: seq<Contract>, name: string, k: nat)
    requires k < |contracts| && contracts[k].name == name && forall i | 0 <= i < k :: contracts[i].name != name
    ensures Position(contracts, name) == Some(k)
  {
    assert contracts[k] in contracts;
    assert name in ContractNames(contracts);
  }

  lemma PlacedIsStable(contracts: seq<Contract>, names: map<nat, string>, desired: DesiredContract, id: Identity)
    ensures Stable(Placed(contracts, names, desired, id), names, desired, id)
  {
    var p, next := Position(contracts, id.name), NextContract(contracts, names, desired, id);
    var r := Placed(contracts, names, desired, id);
    var k := if p.Some? then p.value else |contracts|;
    if p.None? {
      forall i | 0 <= i < |contracts| ensures contracts[i].name != id.name {
        assert contracts[i] in contracts;
        assert contracts[i].name in ContractNames(contracts);
      }
    }
    assert r[k] == next && next.name == id.name;
    PositionIs(r, id.name, k);
    assert NextContract(r, names, desired, id) == next;
    hide NextContract, Position;
    assert r[k := next] == r;
  }

  lemma OtherStaysStable(contracts: seq<Contract>, names: map<nat, string>, desired: DesiredContract, id: Identity,
                         other: DesiredContract, id': Identity)
    requires Stable(contracts, names, desired, id) && id.name != id'.name
    ensures Stable(Placed(contracts, names, other, id'), names, desired, id)
  {
    var k := Position(contracts, id.name).value;
    var next := NextContract(contracts, names, desired, id);
    assert contracts[k] == next;
    var p, r := Position(contracts, id'.name), Placed(contracts, names, other, id');
    assert NextContract(contracts, names, other, id').name == id'.name;
    assert r[k] == contracts[k];
    PositionIs(r, id.name, k);
    assert NextContract(r, names, desired, id) == next;
    hide NextContract, Position;
    assert r[k := next] == r;
  }

  // ----- reports

  lemma ReportedIdentities(m: Manifest, managed: seq<ManagedContract>, desired: seq<DesiredContract>)
    ensures SyncReport(m, managed, desired, false).identities == Run(m, managed, desired, false).identities
  {
    hide Run;
  }

  lemma NothingStale(desired: seq<DesiredContract>, chainNames: map<nat, string>, identities: map<string, Identity>,
                     names: set<string>)
    requires Discovered(desired)
    ensures Stale(BuildOrigin(desired, chainNames, Some(identities)), Keys(desired), names) == []
  {
    var origin := BuildOrigin(desired, chainNames, Some(identities));
    forall c | c in origin ensures ManagedKey(c) in Keys(desired) {
      var i :| 0 <= i < |origin| && origin[i] == c;
      assert desired[i] in desired;
    }
    HasFirst(Stale(origin, Keys(desired), names));
  }
}
