/** What a run of syncs keeps: names, identities, ABI files and rerun stability. */
module FoundryRuns {
  import opened Basics
  import opened Options
  import opened FreshNames
  import opened FoundryModel
  import opened FoundrySync
  import opened FoundryReports

  // ----- running again

  /** Contracts that share an ABI path have the same ABI. */
  ghost predicate SharedPathsAgree(desired: seq<DesiredContract>, ids: seq<Identity>)
    requires |ids| == |desired|
  {
    forall i, j | 0 <= i < j < |ids| && ids[i].abiPath == ids[j].abiPath :: desired[i].abiJson == desired[j].abiJson
  }

  lemma {:induction false} NothingChanges(files: map<string, string>, names: set<string>,
                                          desired: seq<DesiredContract>, ids: seq<Identity>)
    requires |ids| == |desired|
    ensures ChangedAbis(files, names, desired, ids, false) == [] <==>
            forall j | 0 <= j < |ids| :: !Changes(files, names, desired, ids, j, false)
  {
    hide Changes;
    if desired != [] {
      var n := |desired| - 1;
      NothingChanges(files, names, desired[..n], ids[..n]);
      forall j | 0 <= j < n
        ensures Changes(files, names, desired[..n], ids[..n], j, false) == Changes(files, names, desired, ids, j, false)
      {
        ChangesPrefix(files, names, desired, ids, n, j, false);
      }
      var init := ChangedAbis(files, names, desired[..n], ids[..n], false);
      assert ChangedAbis(files, names, desired, ids, false) ==
             init + if Changes(files, names, desired, ids, n, false) then [ids[n].name] else [];
      hide ChangedAbis;
    }
  }

  /** The file that contract `j` finds when everything has been written once before. */
  ghost function Found(files: map<string, string>, desired: seq<DesiredContract>, ids: seq<Identity>,
                       j: nat): map<string, string>
    requires |ids| == |desired| && j <= |ids|
  {
    files + WrittenBy(desired, ids) + WrittenBy(desired[..j], ids[..j])
  }

  lemma FoundAt(files: map<string, string>, desired: seq<DesiredContract>, ids: seq<Identity>, j: nat)
    requires |ids| == |desired| && j < |ids|
    ensures var found, path := Found(files, desired, ids, j), ids[j].abiPath;
            && path in found
            && (exists i | 0 <= i < |ids| :: ids[i].abiPath == path && found[path] == desired[i].abiJson)
            && ((exists i | 0 <= i < j :: ids[i].abiPath == path) ==>
                exists i | 0 <= i < j :: ids[i].abiPath == path && found[path] == desired[i].abiJson)
  {
    var path := ids[j].abiPath;
    WrittenAt(desired, ids, path);
    WrittenAt(desired[..j], ids[..j], path);
    var all, before := WrittenBy(desired, ids), WrittenBy(desired[..j], ids[..j]);
    hide WrittenBy;
    assert forall i | 0 <= i < j :: ids[..j][i] == ids[i] && desired[..j][i] == desired[i];
    assert (exists i | 0 <= i < j :: ids[i].abiPath == path) ==> path in before by {
      if k :| 0 <= k < j && ids[k].abiPath == path {
        assert ids[..j][k].abiPath == path;
      }
    }
    if path in before {
      var i :| 0 <= i < j && ids[..j][i].abiPath == path && before[path] == desired[..j][i].abiJson;
      assert ids[i].abiPath == path && Found(files, desired, ids, j)[path] == desired[i].abiJson;
    } else {
      var i :| 0 <= i < |ids| && ids[i].abiPath == path && all[path] == desired[i].abiJson;
    }
  }

  /** When each contract finds its own ABI, those with one path have one ABI, up to contract `j`. */
  lemma {:induction false} FoundAgree(files: map<string, string>, desired: seq<DesiredContract>, ids: seq<Identity>,
                                      i: nat, j: nat)
    requires |ids| == |desired| && i < j < |ids| && ids[i].abiPath == ids[j].abiPath
    requires forall k | 0 <= k < |ids| :: ids[k].abiPath in Found(files, desired, ids, k) &&
               Found(files, desired, ids, k)[ids[k].abiPath] == desired[k].abiJson
    ensures desired[i].abiJson == desired[j].abiJson
    decreases j
  {
    FoundAt(files, desired, ids, j);
    hide Found;
    var k :| 0 <= k < j && ids[k].abiPath == ids[j].abiPath &&
             Found(files, desired, ids, j)[ids[j].abiPath] == desired[k].abiJson;
    if i < k {
      FoundAgree(files, desired, ids, i, k);
    } else if k < i {
      FoundAgree(files, desired, ids, k, i);
    }
  }

  lemma SecondChanges(files: map<string, string>, names: set<string>, desired: seq<DesiredContract>,
                      ids: seq<Identity>, j: nat)
    requires |ids| == |desired| && j < |ids| && ids[j].name in names
    ensures ids[j].abiPath in Found(files, desired, ids, j)
    ensures Changes(files + WrittenBy(desired, ids), names, desired, ids, j, false) <==>
            Found(files, desired, ids, j)[ids[j].abiPath] != desired[j].abiJson
  {
    FoundAt(files, desired, ids, j);
    hide WrittenBy;
  }

  lemma SecondReports(files: map<string, string>, names: set<string>, desired: seq<DesiredContract>, ids: seq<Identity>)
    requires |ids| == |desired| && NamesIn(ids) <= names
    ensures ChangedAbis(files + WrittenBy(desired, ids), names, desired, ids, false) == [] <==>
            SharedPathsAgree(desired, ids)
  {
    var files' := files + WrittenBy(desired, ids);
    NothingChanges(files', names, desired, ids);
    forall j | 0 <= j < |ids|
      ensures ids[j].abiPath in Found(files, desired, ids, j)
      ensures Changes(files', names, desired, ids, j, false) <==>
              Found(files, desired, ids, j)[ids[j].abiPath] != desired[j].abiJson
    {
      assert ids[j] in ids && ids[j].name in NamesIn(ids);
      SecondChanges(files, names, desired, ids, j);
    }
    hide Changes, ChangedAbis, Found, WrittenBy, NamesIn;
    if SharedPathsAgree(desired, ids) {
      forall j | 0 <= j < |ids| ensures Found(files, desired, ids, j)[ids[j].abiPath] == desired[j].abiJson {
        FoundAt(files, desired, ids, j);
        var i :| 0 <= i < |ids| && ids[i].abiPath == ids[j].abiPath &&
                 Found(files, desired, ids, j)[ids[j].abiPath] == desired[i].abiJson;
        if i < j { } else if j < i { }
      }
    } else {
      var i, j :| 0 <= i < j < |ids| && ids[i].abiPath == ids[j].abiPath && desired[i].abiJson != desired[j].abiJson;
      if forall k | 0 <= k < |ids| :: Found(files, desired, ids, k)[ids[k].abiPath] == desired[k].abiJson {
        FoundAgree(files, desired, ids, i, j);
      }
    }
  }

  lemma OverlayTwice(a: map<string, string>, b: map<string, string>)
    ensures (a + b) + b == a + b
  {
  }

  /** The manifest after a sync, in terms of the identities. */
  lemma SyncedParts(m: Manifest, managed: seq<ManagedContract>, desired: seq<DesiredContract>)
    ensures var m', ids := Synced(m, managed, desired, false), SyncIds(m, managed, desired);
            && m'.networks == WithNetworks(m.networks, desired)
            && m'.files == m.files + WrittenBy(desired, ids)
            && ContractNames(m'.contracts) == ContractNames(m.contracts) + NamesIn(ids)
  {
    RunMatches(m, managed, desired, false);
    hide Run, SyncIds, Assignments, Added, Updated, ChangedAbis, WrittenBy, WithNetworks, ContractNames, NamesIn;
  }

  // ----- the entries of a sync

  /** The manifest's contracts after each discovered one has been placed. */
  function PlacedAll(contracts: seq<Contract>, names: map<nat, string>, desired: seq<DesiredContract>,
                     ids: seq<Identity>): seq<Contract>
    requires |ids| == |desired|
  {
    if desired == [] then contracts
    else
      var n := |desired| - 1;
      Placed(PlacedAll(contracts, names, desired[..n], ids[..n]), names, desired[n], ids[n])
  }

  lemma StepContracts(st: Progress, previous: map<string, ManagedContract>, chainNames: map<nat, string>,
                      d: DesiredContract)
    ensures Step(st, previous, chainNames, false, d).contracts ==
            Placed(st.contracts, chainNames, d, IdentityFor(previous, st.namesInUse, d))
  {
    hide Placed, IdentityFor, AbiChanged, Position;
  }

  lemma {:induction false} StepsPlace(m: Manifest, previous: map<string, ManagedContract>, chainNames: map<nat, string>,
                                      desired: seq<DesiredContract>)
    ensures Steps(Start(m), previous, chainNames, false, desired).contracts ==
            PlacedAll(m.contracts, chainNames, desired, Ids(previous, ContractNames(m.contracts), desired))
    decreases |desired|
  {
    if desired != [] {
      var n := |desired| - 1;
      var init, names := desired[..n], ContractNames(m.contracts);
      var st, ids := Steps(Start(m), previous, chainNames, false, init), Ids(previous, names, desired);
      hide IdentityFor, Step, Placed, Start, ContractNames;
      StepsPlace(m, previous, chainNames, init);
      StepsMatch(m, previous, chainNames, init, false);
      StepContracts(st, previous, chainNames, desired[n]);
      assert ids[..n] == Ids(previous, names, init) &&
        ids[n] == IdentityFor(previous, names + NamesIn(ids[..n]), desired[n]);
    }
  }

  lemma SyncedContractsAre(m: Manifest, managed: seq<ManagedContract>, desired: seq<DesiredContract>)
    ensures Synced(m, managed, desired, false).contracts ==
            PlacedAll(m.contracts, SyncNames(m, desired), desired, SyncIds(m, managed, desired))
  {
    hide Steps, Ids, ByKey, SyncNames, ContractNames, PlacedAll, WithNetworks, Start;
    StepsPlace(m, ByKey(managed), SyncNames(m, desired), desired);
  }

  /** Entries keep their place, name and extensions; without new names there are no new entries. */
  ghost predicate Kept(before: seq<Contract>, after: seq<Contract>) {
    |before| <= |after| && forall i | 0 <= i < |before| ::
      after[i].name == before[i].name && after[i].extensions == before[i].extensions
  }

  lemma PlacedKeeps(contracts: seq<Contract>, names: map<nat, string>, d: DesiredContract, id: Identity)
    ensures Kept(contracts, Placed(contracts, names, d, id))
    ensures id.name in ContractNames(contracts) ==> |Placed(contracts, names, d, id)| == |contracts|
  {
    NextParts(contracts, names, d, id);
    hide NextContract, ContractNames;
  }

  lemma KeptTwice(a: seq<Contract>, b: seq<Contract>, c: seq<Contract>)
    requires Kept(a, b) && Kept(b, c)
    ensures Kept(a, c)
  {
  }

  /** The last contract is placed after the others. */
  lemma PlacedLast(contracts: seq<Contract>, names: map<nat, string>, desired: seq<DesiredContract>,
                   ids: seq<Identity>)
    requires |ids| == |desired| && desired != []
    ensures var n := |desired| - 1;
            && PlacedAll(contracts, names, desired, ids) ==
               Placed(PlacedAll(contracts, names, desired[..n], ids[..n]), names, desired[n], ids[n])
            && NamesIn(ids) == NamesIn(ids[..n]) + {ids[n].name}
  {
    hide Placed, NamesIn;
    var n := |ids| - 1;
    NamesSnoc(ids[..n], ids[n]);
    assert ids == ids[..n] + [ids[n]];
  }

  lemma NoEntries(contracts: seq<Contract>, names: map<nat, string>)
    ensures PlacedAll(contracts, names, [], []) == contracts && Kept(contracts, contracts) && NamesIn([]) == {}
  {
  }

  lemma {:induction false} PlacedAllKeeps(contracts: seq<Contract>, names: map<nat, string>,
                                          desired: seq<DesiredContract>, ids: seq<Identity>)
    requires |ids| == |desired|
    ensures var r := PlacedAll(contracts, names, desired, ids);
            && Kept(contracts, r) && ContractNames(r) == ContractNames(contracts) + NamesIn(ids)
            && (NamesIn(ids) <= ContractNames(contracts) ==> |r| == |contracts|)
    decreases |desired|
  {
    hide *;
    if desired == [] {
      assert ids == [];
      NoEntries(contracts, names);
    } else {
      var n := |desired| - 1;
      var init := PlacedAll(contracts, names, desired[..n], ids[..n]);
      PlacedLast(contracts, names, desired, ids);
      PlacedAllKeeps(contracts, names, desired[..n], ids[..n]);
      PlacedKeeps(init, names, desired[n], ids[n]);
      KeptTwice(contracts, init, Placed(init, names, desired[n], ids[n]));
      PlacedNames(init, names, desired[n], ids[n]);
    }
  }

  /** No contract after `j` has its name. */
  ghost predicate LastOfName(ids: seq<Identity>, j: nat)
    requires j < |ids|
  {
    forall i | j < i < |ids| :: ids[i].name != ids[j].name
  }

  lemma LastWith(ids: seq<Identity>, j: nat) returns (l: nat)
    requires j < |ids|
    ensures j <= l < |ids| && ids[l].name == ids[j].name && LastOfName(ids, l)
    decreases |ids| - j
  {
    if i :| j < i < |ids| && ids[i].name == ids[j].name {
      l := LastWith(ids, i);
    } else {
      l := j;
    }
  }

  /** What stands under a name is what the last contract of that name writes. */
  lemma {:induction false} LastsAreStable(contracts: seq<Contract>, names: map<nat, string>,
                                          desired: seq<DesiredContract>,
                                          ids: seq<Identity>, j: nat)
    requires |ids| == |desired| && j < |ids| && LastOfName(ids, j)
    ensures Stable(PlacedAll(contracts, names, desired, ids), names, desired[j], ids[j])
    decreases |desired|
  {
    var n := |desired| - 1;
    var init := PlacedAll(contracts, names, desired[..n], ids[..n]);
    assert PlacedAll(contracts, names, desired, ids) == Placed(init, names, desired[n], ids[n]);
    if j == n {
      hide *;
      PlacedIsStable(init, names, desired[n], ids[n]);
    } else {
      assert ids[..n][j] == ids[j] && desired[..n][j] == desired[j] && ids[n].name != ids[j].name;
      assert LastOfName(ids[..n], j);
      hide *;
      LastsAreStable(contracts, names, desired[..n], ids[..n], j);
      OtherStaysStable(init, names, desired[j], ids[j], desired[n], ids[n]);
    }
  }

  lemma SamePosition(before: seq<Contract>, after: seq<Contract>, name: string)
    requires Kept(before, after) && Position(before, name).Some?
    ensures Position(after, name) == Position(before, name)
  {
    PositionIs(after, name, Position(before, name).value);
    hide Position;
  }

  lemma PlacedElsewhere(contracts: seq<Contract>, names: map<nat, string>, d: DesiredContract, id: Identity, q: nat)
    requires q < |contracts| && Position(contracts, id.name) != Some(q)
    ensures q < |Placed(contracts, names, d, id)| && Placed(contracts, names, d, id)[q] == contracts[q]
  {
    hide NextContract, Position;
  }

  /** Only the entries of discovered names are written. */
  lemma {:induction false} OthersStay(contracts: seq<Contract>, names: map<nat, string>, desired: seq<DesiredContract>,
                                      ids: seq<Identity>, q: nat)
    requires |ids| == |desired| && NamesIn(ids) <= ContractNames(contracts) && q < |contracts|
    requires forall j | 0 <= j < |ids| :: Position(contracts, ids[j].name) != Some(q)
    ensures var r := PlacedAll(contracts, names, desired, ids); q < |r| && r[q] == contracts[q]
    decreases |desired|
  {
    hide *;
    if desired == [] {
      assert ids == [];
      NoEntries(contracts, names);
    } else {
      var n := |desired| - 1;
      var init := PlacedAll(contracts, names, desired[..n], ids[..n]);
      PlacedLast(contracts, names, desired, ids);
      assert ids[n].name in ContractNames(contracts) && NamesIn(ids[..n]) <= ContractNames(contracts);
      forall j | 0 <= j < n ensures Position(contracts, ids[..n][j].name) != Some(q) {
        assert ids[..n][j] == ids[j];
      }
      OthersStay(contracts, names, desired[..n], ids[..n], q);
      PlacedAllKeeps(contracts, names, desired[..n], ids[..n]);
      SamePosition(contracts, init, ids[n].name);
      PlacedElsewhere(init, names, desired[n], ids[n], q);
    }
  }

  lemma StableEntry(contracts: seq<Contract>, names: map<nat, string>, d: DesiredContract, id: Identity, q: nat)
    requires Stable(contracts, names, d, id) && Position(contracts, id.name) == Some(q)
    ensures contracts[q] == ContractToManifest(d, names, Some(contracts[q].extensions), Some(id))
  {
    hide ContractToManifest, Position;
    assert contracts[q := NextContract(contracts, names, d, id)] == contracts;
  }

  /** Placing everything once more changes nothing, also where several contracts share a name. */
  lemma {:induction false} PlacedTwice(contracts: seq<Contract>, names: map<nat, string>,
                                       desired: seq<DesiredContract>, ids: seq<Identity>)
    requires |ids| == |desired|
    ensures var r := PlacedAll(contracts, names, desired, ids); PlacedAll(r, names, desired, ids) == r
  {
    var r := PlacedAll(contracts, names, desired, ids);
    var r' := PlacedAll(r, names, desired, ids);
    PlacedAllKeeps(contracts, names, desired, ids);
    PlacedAllKeeps(r, names, desired, ids);
    assert |r'| == |r|;
    forall q | 0 <= q < |r| ensures r'[q] == r[q] {
      SameEntry(contracts, names, desired, ids, q);
    }
    hide *;
  }

  lemma SameEntry(contracts: seq<Contract>, names: map<nat, string>, desired: seq<DesiredContract>, ids: seq<Identity>,
                  q: nat)
    requires |ids| == |desired| && q < |PlacedAll(contracts, names, desired, ids)|
    ensures var r := PlacedAll(contracts, names, desired, ids);
            var r' := PlacedAll(r, names, desired, ids);
            q < |r'| && r'[q] == r[q]
  {
    var r := PlacedAll(contracts, names, desired, ids);
    var r' := PlacedAll(r, names, desired, ids);
    hide PlacedAll, Position, Stable, ContractNames, NamesIn, ContractToManifest, LastOfName;
    PlacedAllKeeps(contracts, names, desired, ids);
    PlacedAllKeeps(r, names, desired, ids);
    if j: nat :| j < |ids| && Position(r, ids[j].name) == Some(q) {
      var l := LastWith(ids, j);
      LastsAreStable(contracts, names, desired, ids, l);
      LastsAreStable(r, names, desired, ids, l);
      SamePosition(r, r', ids[l].name);
      StableEntry(r, names, desired[l], ids[l], q);
      StableEntry(r', names, desired[l], ids[l], q);
    } else {
      OthersStay(r, names, desired, ids, q);
    }
  }

  // ----- what a sync writes

  lemma NetworksServe(m: Manifest, managed: seq<ManagedContract>, desired: seq<DesiredContract>, j: nat)
    requires j < |desired|
    ensures var networks := Synced(m, managed, desired, false).networks;
            SyncNames(m, desired) == ChainNetworkNames(networks)
            && forall d | d in desired[j].deployments :: HasChain(networks, d.chainId)
  {
    AllChainsKnown(m.networks, desired);
    hide WithNetworks, Run, HasChain, ChainNetworkNames;
    assert desired[j] in desired;
  }

  lemma {:induction false} PlacedStands(contracts: seq<Contract>, names: map<nat, string>,
                                        desired: seq<DesiredContract>, ids: seq<Identity>, j: nat)
    requires |ids| == |desired| && j < |ids| && LastOfName(ids, j)
    ensures var r := PlacedAll(contracts, names, desired, ids);
            exists q | 0 <= q < |r| ::
              && r[q] == ContractToManifest(desired[j], names, Some(r[q].extensions), Some(ids[j]))
              && r[q].name == ids[j].name && forall i | 0 <= i < q :: r[i].name != ids[j].name
  {
    var r := PlacedAll(contracts, names, desired, ids);
    LastsAreStable(contracts, names, desired, ids, j);
    var p := Position(r, ids[j].name);
    assert p.Some?;
    hide *;
    StableEntry(r, names, desired[j], ids[j], p.value);
  }

  /** For any manifest, origin and discovery: under the name that a contract is assigned, unless a later one is
      assigned it too, the first entry of the synced manifest describes just that contract, with the networks of
      the same manifest. */
  lemma {:induction false} SyncedEntryDescribes(m: Manifest, managed: seq<ManagedContract>,
                                                desired: seq<DesiredContract>, j: nat)
    requires j < |desired| && LastOfName(SyncIds(m, managed, desired), j)
    ensures var m', id := Synced(m, managed, desired, false), SyncIds(m, managed, desired)[j];
            exists q | 0 <= q < |m'.contracts| ::
              && Describes(m'.contracts[q], desired[j], id, m'.networks)
              && forall i | 0 <= i < q :: m'.contracts[i].name != id.name
  {
    hide *;
    var m', ids := Synced(m, managed, desired, false), SyncIds(m, managed, desired);
    SyncedContractsAre(m, managed, desired);
    NetworksServe(m, managed, desired, j);
    PlacedStands(m.contracts, SyncNames(m, desired), desired, ids, j);
    var q :| 0 <= q < |m'.contracts|
             && m'.contracts[q] == ContractToManifest(desired[j], SyncNames(m, desired),
                  Some(m'.contracts[q].extensions),
                                                      Some(ids[j]))
             && forall i | 0 <= i < q :: m'.contracts[i].name != ids[j].name;
    EntryDescribes(desired[j], m'.networks, Some(m'.contracts[q].extensions), ids[j]);
  }

  /** The managed contract remembers where it comes from and where it is deployed, under the names of the networks. */
  ghost predicate Remembers(c: ManagedContract, d: DesiredContract, networks: seq<Network>) {
    && c.foundryName == d.foundryName && c.artifactPath == d.artifactPath
    && |c.deployments| == |d.deployments|
    && forall k | 0 <= k < |c.deployments| ::
         && c.deployments[k].chainId == d.deployments[k].chainId
         && c.deployments[k].address == d.deployments[k].address
         && c.deployments[k].startBlock == d.deployments[k].startBlock
         && NetworkOf(networks, d.deployments[k].chainId, c.deployments[k].network)
  }

  lemma {:induction false} DeploymentsRemembered(deployments: seq<Deployment>, networks: seq<Network>)
    requires forall d | d in deployments :: HasChain(networks, d.chainId)
    ensures var r := ManagedDeployments(deployments, ChainNetworkNames(networks));
            && |r| == |deployments|
            && forall k | 0 <= k < |r| ::
                 && r[k].chainId == deployments[k].chainId && r[k].address == deployments[k].address
                 && r[k].startBlock == deployments[k].startBlock
                 && NetworkOf(networks, deployments[k].chainId, r[k].network)
  {
    hide ChainNetworkNames, NetworkOf, HasChain, DefaultNetworkName;
    if deployments != [] {
      assert deployments[0] in deployments && forall d | d in deployments[1..] :: d in deployments;
      DeploymentsRemembered(deployments[1..], networks);
      ChainNetworkNamesMeaning(networks, deployments[0].chainId);
    }
  }

  /** The origin that is written after a sync remembers every discovered contract, with the networks of the synced
      manifest. */
  lemma {:induction false} OriginRemembers(m: Manifest, managed: seq<ManagedContract>, desired: seq<DesiredContract>,
                                           j: nat)
    requires j < |desired|
    ensures Remembers(NextOrigin(m, managed, desired)[j], desired[j], Synced(m, managed, desired, false).networks)
  {
    var networks := Synced(m, managed, desired, false).networks;
    NetworksServe(m, managed, desired, j);
    DeploymentsRemembered(desired[j].deployments, networks);
    hide Run, SyncNames, Synced, ManagedDeployments, NetworkOf, HasChain, ChainNetworkNames;
  }

  // ----- the second sync

  /** The rebuilt origin assigns the same identities again. */
  lemma SameIdsAgain(m: Manifest, managed: seq<ManagedContract>, desired: seq<DesiredContract>, m': Manifest)
    requires Discovered(desired)
    ensures SyncIds(m', NextOrigin(m, managed, desired), desired) == SyncIds(m, managed, desired)
  {
    var managed', ids := NextOrigin(m, managed, desired), SyncIds(m, managed, desired);
    var previous', ids' := ByKey(managed'), SyncIds(m', managed', desired);
    NextOriginIs(m, managed, desired);
    SyncIdsAre(m', managed', desired);
    hide NextOrigin, SyncIds, ManagedKey, Ids, NamesIn, UniqueName, ContractNames, AbiPath, ByKey, Keys;
    forall j | 0 <= j < |ids| ensures ids'[j] == ids[j] {
      KnownAs(managed', desired, ids, j);
      IdsAt(previous', ContractNames(m'.contracts), desired, j);
    }
  }

  lemma InKeys(desired: seq<DesiredContract>, j: nat)
    requires j < |desired|
    ensures desired[j].key in Keys(desired)
  {
    assert desired[j] in desired;
  }

  lemma {:induction false} NothingAdded(names: set<string>, ids: seq<Identity>)
    requires NamesIn(ids) <= names
    ensures Added(names, ids, false) == []
    decreases |ids|
  {
    if ids != [] {
      var n := |ids| - 1;
      assert ids[n] in ids && ids[n].name in NamesIn(ids);
      NothingAdded(names, ids[..n]);
    }
  }

  lemma ReportedAddedAre(m: Manifest, managed: seq<ManagedContract>, desired: seq<DesiredContract>, dryRun: bool)
    ensures var r := SyncReport(m, managed, desired, dryRun);
            && r.added == Added(ContractNames(m.contracts), SyncIds(m, managed, desired), dryRun)
            && r.stale == Stale(managed, Keys(desired), ContractNames(m.contracts))
  {
    RunMatches(m, managed, desired, dryRun);
    hide Run, SyncIds, Assignments, Added, Updated, ChangedAbis, WrittenBy, Stale;
  }

  lemma OriginIsFresh(m: Manifest, managed: seq<ManagedContract>, desired: seq<DesiredContract>, names: set<string>)
    requires Discovered(desired)
    ensures Stale(NextOrigin(m, managed, desired), Keys(desired), names) == []
  {
    NothingStale(desired, SyncNames(m, desired), Run(m, managed, desired, false).identities, names);
    hide Run, SyncNames, Stale, Keys;
  }

  lemma SameChainNames(m: Manifest, managed: seq<ManagedContract>, desired: seq<DesiredContract>)
    ensures var m' := Synced(m, managed, desired, false);
            WithNetworks(m'.networks, desired) == m'.networks && SyncNames(m', desired) == SyncNames(m, desired)
  {
    NetworksSettle(m.networks, desired);
    hide WithNetworks, Run, ChainNetworkNames;
  }

  lemma WholeManifest(m: Manifest, m': Manifest)
    requires m.networks == m'.networks && m.contracts == m'.contracts && m.files == m'.files
    ensures m == m'
  {
  }

  /** For any manifest, origin and discovery, a second sync with the rebuilt origin leaves networks, contracts and
      files as they are, and every contract with the identity it has, also where contracts share a name. It reports
      no changed ABI if and only if the contracts that share an ABI path have the same ABI. */
  lemma {:induction false} SecondSyncChangesNothing(m: Manifest, managed: seq<ManagedContract>,
                                                    desired: seq<DesiredContract>)
    requires Discovered(desired)
    ensures var m', managed' := Synced(m, managed, desired, false), NextOrigin(m, managed, desired);
            var r, r' := SyncReport(m, managed, desired, false), SyncReport(m', managed', desired, false);
            && Synced(m', managed', desired, false) == m'
            && r'.identities == r.identities && r'.added == [] && r'.stale == []
            && (r'.abiUpdated == [] <==> SharedPathsAgree(desired, SyncIds(m, managed, desired)))
  {
    hide *;
    var m', managed' := Synced(m, managed, desired, false), NextOrigin(m, managed, desired);
    var ids, names := SyncIds(m, managed, desired), SyncNames(m, desired);
    SameIdsAgain(m, managed, desired, m');
    ReportedIdentitiesAre(m, managed, desired, false);
    ReportedIdentitiesAre(m', managed', desired, false);
    SameChainNames(m, managed, desired);
    SyncedContractsAre(m, managed, desired);
    SyncedContractsAre(m', managed', desired);
    PlacedTwice(m.contracts, names, desired, ids);
    SyncedParts(m, managed, desired);
    SyncedParts(m', managed', desired);
    OverlayTwice(m.files, WrittenBy(desired, ids));
    WholeManifest(Synced(m', managed', desired, false), m');
    ReportedAddedAre(m', managed', desired, false);
    NothingAdded(ContractNames(m'.contracts), ids);
    OriginIsFresh(m, managed, desired, ContractNames(m'.contracts));
    ReportedAbisAre(m', managed', desired, false);
    SecondReports(m.files, ContractNames(m'.contracts), desired, ids);
  }

  /** The origin that is written after a removed name was taken twice is such an input: run again, the dry run
      reports one changed ABI and the real run two. */
  lemma {:induction false} TakenTwiceSplits(m: Manifest, c: ManagedContract, a: DesiredContract, b: DesiredContract)
    requires c.name !in ContractNames(m.contracts) && ManagedKey(c) == b.key && c.abiPath == AbiPath(c.name)
    requires UniqueName(a.name, ContractNames(m.contracts)) == c.name
    requires Discovered([a, b]) && a.abiJson != b.abiJson
    ensures var m', managed' := Synced(m, [c], [a, b], false), NextOrigin(m, [c], [a, b]);
            && SyncReport(m', managed', [a, b], true).abiUpdated == [c.name]
            && SyncReport(m', managed', [a, b], false).abiUpdated == [c.name, c.name]
  {
    var m', managed', desired := Synced(m, [c], [a, b], false), NextOrigin(m, [c], [a, b]), [a, b];
    var id, ids := Identity(c.name, AbiPath(c.name)), SyncIds(m, [c], [a, b]);
    assert desired[0].key != desired[1].key;
    OneManaged(c);
    FirstTakes(ByKey([c]), ContractNames(m.contracts), a, b, id);
    SyncIdsAre(m, [c], desired);
    assert ids == [id, id];
    hide *;
    NextOriginIs(m, [c], desired);
    SyncedParts(m, [c], desired);
    KnownAs(managed', desired, ids, 0);
    KnownAs(managed', desired, ids, 1);
    LastWritten(a, b, id);
    NamesOfTwo(id);
    SharedNameSplits(m', managed', a, b, id);
  }

  lemma FirstTakes(previous: map<string, ManagedContract>, names: set<string>, a: DesiredContract, b: DesiredContract,
                   id: Identity)
    requires a.key !in previous && b.key in previous && UniqueName(a.name, names) == id.name &&
             id.abiPath == AbiPath(id.name)
    requires previous[b.key].name == id.name && previous[b.key].abiPath == id.abiPath
    ensures Ids(previous, names, [a, b]) == [id, id]
  {
    assert [a, b][..1] == [a] && [a][..0] == [];
    assert Ids(previous, names, []) == [];
    assert names + NamesIn([]) == names;
    hide UniqueName, AbiPath;
    assert Ids(previous, names, [a]) == [id];
  }

  lemma KnownAs(origin: seq<ManagedContract>, desired: seq<DesiredContract>, ids: seq<Identity>, j: nat)
    requires |origin| == |desired| == |ids| && j < |desired|
    requires forall i, k | 0 <= i < k < |desired| :: desired[i].key != desired[k].key
    requires forall i | 0 <= i < |origin| ::
               origin[i].name == ids[i].name && origin[i].abiPath == ids[i].abiPath &&
                 ManagedKey(origin[i]) == desired[i].key
    ensures desired[j].key in ByKey(origin)
    ensures ByKey(origin)[desired[j].key].name == ids[j].name && ByKey(origin)[desired[j].key].abiPath == ids[j].abiPath
  {
    hide ManagedKey, ByKey, Keys;
    InKeys(desired, j);
    SameKeys(origin, desired, desired[j].key);
    var k :| 0 <= k < |origin| && origin[k] == ByKey(origin)[desired[j].key] && desired[k].key == desired[j].key;
    if k < j { } else if j < k { }
  }

  lemma LastWritten(a: DesiredContract, b: DesiredContract, id: Identity)
    ensures id.abiPath in WrittenBy([a, b], [id, id]) && WrittenBy([a, b], [id, id])[id.abiPath] == b.abiJson
  {
  }

  lemma NamesOfTwo(id: Identity)
    ensures id.name in NamesIn([id, id])
  {
    assert id in [id, id];
  }

  // ----- a new import

  /** The identities that a new import writes. */
  function OwnIds(desired: seq<DesiredContract>): (r: seq<Identity>)
    ensures |r| == |desired| && forall i | 0 <= i < |r| :: r[i] == Identity(desired[i].name, desired[i].abiPath)
  {
    if desired == [] then [] else [Identity(desired[0].name, desired[0].abiPath)] + OwnIds(desired[1..])
  }

  /** The manifest and ABI files of a new import, and its origin. */
  function Imported(desired: seq<DesiredContract>): (Manifest, seq<ManagedContract>) {
    var networks := WithNetworks([], desired);
    var names := ChainNetworkNames(networks);
    (Manifest(networks, NewContracts(desired, names), WrittenBy(desired, OwnIds(desired))),
     BuildOrigin(desired, names, None))
  }

  function NewContracts(desired: seq<DesiredContract>, names: map<nat, string>): (r: seq<Contract>)
    ensures |r| == |desired| && forall i | 0 <= i < |r| :: r[i] == ContractToManifest(desired[i], names, None, None)
  {
    hide ContractToManifest;
    if desired == [] then []
    else [ContractToManifest(desired[0], names, None, None)] + NewContracts(desired[1..], names)
  }

  // ----- ABI paths and files

  /** Every managed contract's ABI path is made from its name. */
  ghost predicate PlainPaths(managed: seq<ManagedContract>) {
    forall c | c in managed :: c.abiPath == AbiPath(c.name)
  }

  /** The file of each managed contract holds the ABI of its discovery. */
  ghost predicate HoldsAbis(m: Manifest, managed: seq<ManagedContract>, desired: seq<DesiredContract>) {
    && |managed| == |desired|
    && forall i | 0 <= i < |managed| ::
         managed[i].abiPath in m.files && m.files[managed[i].abiPath] == desired[i].abiJson
  }

  lemma AbiPathInjective(a: string, b: string)
    ensures AbiPath(a) == AbiPath(b) ==> a == b
  {
    var p, q := AbiPath(a), AbiPath(b);
    if p == q {
      assert |p| == |a| + 14 && |q| == |b| + 14;
      assert p[5..5 + |a|] == a && q[5..5 + |b|] == b;
    }
  }

  ghost predicate PlainIds(ids: seq<Identity>) {
    forall i | 0 <= i < |ids| :: ids[i].abiPath == AbiPath(ids[i].name)
  }

  lemma PlainIsDistinct(ids: seq<Identity>)
    requires PlainIds(ids) && DistinctNames(ids)
    ensures DistinctPaths(ids)
  {
    hide AbiPath;
    forall i, j | 0 <= i < j < |ids| ensures ids[i].abiPath != ids[j].abiPath {
      AbiPathInjective(ids[i].name, ids[j].name);
    }
  }

  lemma SyncIdsPlain(m: Manifest, managed: seq<ManagedContract>, desired: seq<DesiredContract>)
    requires PlainPaths(managed)
    ensures PlainIds(SyncIds(m, managed, desired))
  {
    var ids, previous, names := SyncIds(m, managed, desired), ByKey(managed), ContractNames(m.contracts);
    hide Ids, ByKey, ContractNames, AbiPath, UniqueName, NamesIn;
    forall j | 0 <= j < |ids| ensures ids[j].abiPath == AbiPath(ids[j].name) {
      IdsAt(previous, names, desired, j);
      if desired[j].key in previous {
        assert previous[desired[j].key] in managed;
      }
    }
  }

  lemma SyncIdsDistinct(m: Manifest, managed: seq<ManagedContract>, desired: seq<DesiredContract>)
    requires Settled(managed, m.contracts) && Discovered(desired)
    ensures DistinctNames(SyncIds(m, managed, desired)) && !Reused(ByKey(managed), ContractNames(m.contracts), desired)
  {
    var previous, names := ByKey(managed), ContractNames(m.contracts);
    SettledByKey(managed, m.contracts);
    KeysOfDiscovery(desired);
    hide ByKey, ContractNames, Settled, Ids, NamesIn, SyncIds, Reused;
    SyncIdsAre(m, managed, desired);
    ReusedIsTaken(previous, names, desired);
    DistinctIsNotReused(previous, names, desired);
  }

  /** A sync leaves the next one a settled origin. */
  lemma {:induction false} SyncSettles(m: Manifest, managed: seq<ManagedContract>, desired: seq<DesiredContract>)
    requires Settled(managed, m.contracts) && Discovered(desired)
    ensures Settled(NextOrigin(m, managed, desired), Synced(m, managed, desired, false).contracts)
  {
    var origin, ids := NextOrigin(m, managed, desired), SyncIds(m, managed, desired);
    SyncIdsDistinct(m, managed, desired);
    NextOriginIs(m, managed, desired);
    SyncedParts(m, managed, desired);
    hide NextOrigin, SyncIds, Synced, ManagedKey, ContractNames, WithNetworks, WrittenBy, Discovered;
    forall i | 0 <= i < |origin| ensures origin[i].name in NamesIn(ids) {
      assert ids[i] in ids;
    }
  }

  /** The next origin holds the identities of the sync, in the order of the discovery. */
  lemma NextOriginIs(m: Manifest, managed: seq<ManagedContract>, desired: seq<DesiredContract>)
    requires Discovered(desired)
    ensures var origin, ids := NextOrigin(m, managed, desired), SyncIds(m, managed, desired);
            |origin| == |desired| && forall i | 0 <= i < |origin| ::
              origin[i].name == ids[i].name && origin[i].abiPath == ids[i].abiPath &&
                ManagedKey(origin[i]) == desired[i].key
  {
    var origin, ids := NextOrigin(m, managed, desired), SyncIds(m, managed, desired);
    ReportedIdentitiesAre(m, managed, desired, false);
    ReportedIdentities(m, managed, desired);
    AssignmentsAt(desired, ids);
    hide Run, SyncIds, Assignments, SyncReport, KeyOf, SyncNames, ManagedDeployments;
    forall i | 0 <= i < |origin|
      ensures origin[i].name == ids[i].name && origin[i].abiPath == ids[i].abiPath &&
              ManagedKey(origin[i]) == desired[i].key
    {
      assert desired[i] in desired;
    }
  }

  lemma OwnFile(desired: seq<DesiredContract>, ids: seq<Identity>, i: nat)
    requires |ids| == |desired| && i < |ids| && DistinctPaths(ids)
    ensures ids[i].abiPath in WrittenBy(desired, ids) && WrittenBy(desired, ids)[ids[i].abiPath] == desired[i].abiJson
  {
    WrittenAt(desired, ids, ids[i].abiPath);
    hide WrittenBy;
    var k :| 0 <= k < |ids| && ids[k].abiPath == ids[i].abiPath &&
      WrittenBy(desired, ids)[ids[i].abiPath] == desired[k].abiJson;
    if k < i { } else if i < k { }
  }

  /** A sync from an origin with plain paths leaves one with plain paths, and writes each contract its own file. */
  lemma SyncKeepsPaths(m: Manifest, managed: seq<ManagedContract>, desired: seq<DesiredContract>)
    requires Settled(managed, m.contracts) && Discovered(desired) && PlainPaths(managed)
    ensures var m', managed' := Synced(m, managed, desired, false), NextOrigin(m, managed, desired);
            PlainPaths(managed') && HoldsAbis(m', managed', desired)
    ensures DistinctPaths(SyncIds(m, managed, desired))
  {
    var m', managed', ids := Synced(m, managed, desired, false), NextOrigin(m, managed, desired),
      SyncIds(m, managed, desired);
    SyncIdsPlain(m, managed, desired);
    SyncIdsDistinct(m, managed, desired);
    PlainIsDistinct(ids);
    NextOriginIs(m, managed, desired);
    SyncedParts(m, managed, desired);
    hide Synced, NextOrigin, SyncIds, WrittenBy, AbiPath, DistinctPaths, Settled, Discovered, ManagedKey,
      ContractNames, WithNetworks;
    forall i | 0 <= i < |managed'|
      ensures managed'[i].abiPath in m'.files && m'.files[managed'[i].abiPath] == desired[i].abiJson
    {
      OwnFile(desired, ids, i);
    }
  }

  /** With plain paths a dry run reports just what the real run does, and running again changes no ABI. */
  lemma {:induction false} PlainReports(m: Manifest, managed: seq<ManagedContract>, desired: seq<DesiredContract>)
    requires Settled(managed, m.contracts) && Discovered(desired) && PlainPaths(managed)
    ensures SyncReport(m, managed, desired, true) == SyncReport(m, managed, desired, false)
    ensures SyncReport(Synced(m, managed, desired, false), NextOrigin(m, managed, desired), desired,
            false).abiUpdated == []
  {
    hide *;
    SyncIdsDistinct(m, managed, desired);
    SyncKeepsPaths(m, managed, desired);
    NotReusedIsNotTaken(ByKey(managed), ContractNames(m.contracts), desired);
    DryRunIsExact(m, managed, desired);
    SecondSyncChangesNothing(m, managed, desired);
    OwnPathsAgree(desired, SyncIds(m, managed, desired));
  }

  lemma OwnPathsAgree(desired: seq<DesiredContract>, ids: seq<Identity>)
    requires |ids| == |desired| && DistinctPaths(ids)
    ensures SharedPathsAgree(desired, ids)
  {
  }

  lemma ImportSettles(desired: seq<DesiredContract>)
    requires forall i, j | 0 <= i < j < |desired| :: desired[i].name != desired[j].name
    requires forall i | 0 <= i < |desired| :: desired[i].abiPath == AbiPath(desired[i].name)
    ensures var (m, managed) := Imported(desired);
            Settled(managed, m.contracts) && PlainPaths(managed) && HoldsAbis(m, managed, desired)
  {
    var (m, managed) := Imported(desired);
    hide *;
    ImportedParts(desired);
    OwnPathsDistinct(desired);
    NamesStand(managed, m.contracts, desired);
    PathsArePlain(managed, desired);
    FilesHold(m, managed, desired);
  }

  /** A new import describes every discovered contract under its own name, in order, and remembers it. */
  lemma {:induction false} ImportDescribes(desired: seq<DesiredContract>, j: nat)
    requires j < |desired|
    ensures var (m, managed) := Imported(desired);
            && |m.contracts| == |managed| == |desired|
            && Describes(m.contracts[j], desired[j], Identity(desired[j].name, desired[j].abiPath), m.networks)
            && Remembers(managed[j], desired[j], m.networks)
            && managed[j].name == desired[j].name && managed[j].abiPath == desired[j].abiPath
  {
    var (m, managed) := Imported(desired);
    var names, id := ChainNetworkNames(m.networks), Identity(desired[j].name, desired[j].abiPath);
    ImportedAt(desired, j);
    OwnEntry(desired[j], names, id);
    ToManagedParts(desired[j], names);
    hide *;
    EntryDescribes(desired[j], m.networks, None, id);
    RememberedParts(managed[j], desired[j], m.networks);
  }

  lemma ImportedAt(desired: seq<DesiredContract>, j: nat)
    requires j < |desired|
    ensures var (m, managed) := Imported(desired);
            && |m.contracts| == |managed| == |desired|
            && m.contracts[j] == ContractToManifest(desired[j], ChainNetworkNames(m.networks), None, None)
            && managed[j] == ToManaged(desired[j], ChainNetworkNames(m.networks), None)
            && forall d | d in desired[j].deployments :: HasChain(m.networks, d.chainId)
  {
    AllChainsKnown([], desired);
    assert desired[j] in desired;
    hide WithNetworks, WrittenBy, HasChain, ChainNetworkNames, ToManaged, ContractToManifest;
  }

  lemma ToManagedParts(d: DesiredContract, names: map<nat, string>)
    ensures var c := ToManaged(d, names, None);
            && c.name == d.name && c.abiPath == d.abiPath && c.foundryName == d.foundryName
            && c.artifactPath == d.artifactPath && c.deployments == ManagedDeployments(d.deployments, names)
  {
    hide ManagedDeployments;
  }

  lemma RememberedParts(c: ManagedContract, d: DesiredContract, networks: seq<Network>)
    requires c.foundryName == d.foundryName && c.artifactPath == d.artifactPath
    requires c.deployments == ManagedDeployments(d.deployments, ChainNetworkNames(networks))
    requires forall e | e in d.deployments :: HasChain(networks, e.chainId)
    ensures Remembers(c, d, networks)
  {
    DeploymentsRemembered(d.deployments, networks);
    hide ManagedDeployments, NetworkOf, HasChain, ChainNetworkNames;
  }

  lemma OwnEntry(d: DesiredContract, names: map<nat, string>, id: Identity)
    requires id == Identity(d.name, d.abiPath)
    ensures ContractToManifest(d, names, None, None) == ContractToManifest(d, names, None, Some(id))
  {
    hide DetailsOf, ChainIds;
  }

  lemma OwnPathsDistinct(desired: seq<DesiredContract>)
    requires forall i, j | 0 <= i < j < |desired| :: desired[i].name != desired[j].name
    requires forall i | 0 <= i < |desired| :: desired[i].abiPath == AbiPath(desired[i].name)
    ensures DistinctPaths(OwnIds(desired))
  {
    hide AbiPath;
    PlainIsDistinct(OwnIds(desired));
  }

  lemma NamesStand(managed: seq<ManagedContract>, contracts: seq<Contract>, desired: seq<DesiredContract>)
    requires |managed| == |contracts| == |desired|
    requires forall i | 0 <= i < |desired| :: managed[i].name == contracts[i].name == desired[i].name
    requires forall i, j | 0 <= i < j < |desired| :: desired[i].name != desired[j].name
    ensures Settled(managed, contracts)
  {
    forall i | 0 <= i < |managed| ensures managed[i].name in ContractNames(contracts) {
      assert contracts[i] in contracts;
    }
    hide ContractNames;
  }

  lemma PathsArePlain(managed: seq<ManagedContract>, desired: seq<DesiredContract>)
    requires |managed| == |desired|
    requires forall i | 0 <= i < |desired| ::
               managed[i].name == desired[i].name && managed[i].abiPath == desired[i].abiPath
    requires forall i | 0 <= i < |desired| :: desired[i].abiPath == AbiPath(desired[i].name)
    ensures PlainPaths(managed)
  {
    hide AbiPath;
  }

  lemma {:induction false} FilesHold(m: Manifest, managed: seq<ManagedContract>, desired: seq<DesiredContract>)
    requires |managed| == |desired| && m.files == WrittenBy(desired, OwnIds(desired)) && DistinctPaths(OwnIds(desired))
    requires forall i | 0 <= i < |desired| :: managed[i].abiPath == desired[i].abiPath
    ensures HoldsAbis(m, managed, desired)
  {
    var ids := OwnIds(desired);
    hide WrittenBy, DistinctPaths;
    forall i | 0 <= i < |managed|
      ensures managed[i].abiPath in m.files && m.files[managed[i].abiPath] == desired[i].abiJson
    {
      OwnFile(desired, ids, i);
    }
  }

  lemma ImportedParts(desired: seq<DesiredContract>)
    ensures var (m, managed) := Imported(desired);
            && |managed| == |m.contracts| == |desired|
            && m.files == WrittenBy(desired, OwnIds(desired))
            && (forall i | 0 <= i < |desired| :: managed[i].name == m.contracts[i].name == desired[i].name)
            && (forall i | 0 <= i < |desired| :: managed[i].abiPath == desired[i].abiPath)
  {
    var names := ChainNetworkNames(WithNetworks([], desired));
    hide WrittenBy, WithNetworks, ChainNetworkNames, ManagedDeployments, ContractToManifest, ToManaged;
    forall i | 0 <= i < |desired|
      ensures ContractToManifest(desired[i], names, None, None).name == desired[i].name
      ensures ToManaged(desired[i], names, None).name == desired[i].name
      ensures ToManaged(desired[i], names, None).abiPath == desired[i].abiPath
    {
      ImportedEntry(desired[i], names);
    }
  }

  lemma ImportedEntry(d: DesiredContract, names: map<nat, string>)
    ensures ContractToManifest(d, names, None, None).name == d.name
    ensures ToManaged(d, names, None).name == d.name && ToManaged(d, names, None).abiPath == d.abiPath
  {
  }

  // ----- whole runs

  /** A project after a list of syncs, one for each discovery. */
  function SyncedAll(m: Manifest, managed: seq<ManagedContract>, discoveries: seq<seq<DesiredContract>>)
    : (Manifest, seq<ManagedContract>)
    decreases |discoveries|
  {
    if discoveries == [] then (m, managed)
    else SyncedAll(Synced(m, managed, discoveries[0], false), NextOrigin(m, managed, discoveries[0]), discoveries[1..])
  }

  /** Over any run of syncs no two managed contracts ever share a name, every one of them stands in the
      manifest, and every contract that was there keeps its place, name and extensions. */
  lemma {:induction false} EveryRunSettles(m: Manifest, managed: seq<ManagedContract>,
                                           discoveries: seq<seq<DesiredContract>>)
    requires Settled(managed, m.contracts) && forall desired | desired in discoveries :: Discovered(desired)
    ensures var (m', managed') := SyncedAll(m, managed, discoveries);
            && Settled(managed', m'.contracts)
            && |m.contracts| <= |m'.contracts|
            && forall i | 0 <= i < |m.contracts| ::
                 m'.contracts[i].name == m.contracts[i].name && m'.contracts[i].extensions == m.contracts[i].extensions
    decreases |discoveries|
  {
    if discoveries != [] {
      assert discoveries[0] in discoveries;
      hide Settled, Synced, NextOrigin, SyncReport, Discovered;
      SyncSettles(m, managed, discoveries[0]);
      SyncDoesNotInterfere(m, managed, discoveries[0]);
      EveryRunSettles(Synced(m, managed, discoveries[0], false), NextOrigin(m, managed, discoveries[0]),
                      discoveries[1..]);
    }
  }

  /** The discovery that the origin was last built from. */
  function Newest(current: seq<DesiredContract>, discoveries: seq<seq<DesiredContract>>): seq<DesiredContract> {
    if discoveries == [] then current else discoveries[|discoveries| - 1]
  }

  /** Over any run of syncs ABI paths stay those made from the names, and each managed contract's file holds
      its own newest ABI. */
  lemma {:induction false} EveryRunKeepsAbis(m: Manifest, managed: seq<ManagedContract>, current: seq<DesiredContract>,
                                             discoveries: seq<seq<DesiredContract>>)
    requires Settled(managed, m.contracts) && PlainPaths(managed) && HoldsAbis(m, managed, current)
    requires forall desired | desired in discoveries :: Discovered(desired)
    ensures var (m', managed') := SyncedAll(m, managed, discoveries);
            Settled(managed', m'.contracts) && PlainPaths(managed') &&
              HoldsAbis(m', managed', Newest(current, discoveries))
    decreases |discoveries|
  {
    hide Settled, Synced, NextOrigin, Discovered, PlainPaths, HoldsAbis;
    if discoveries != [] {
      var desired, rest := discoveries[0], discoveries[1..];
      var m1, managed1 := Synced(m, managed, desired, false), NextOrigin(m, managed, desired);
      assert desired in discoveries;
      assert SyncedAll(m, managed, discoveries) == SyncedAll(m1, managed1, rest);
      assert Newest(current, discoveries) == Newest(desired, rest);
      hide *;
      SyncSettles(m, managed, desired);
      SyncKeepsPaths(m, managed, desired);
      EveryRunKeepsAbis(m1, managed1, desired, rest);
    }
  }

  // ----- who keeps a name

  /** The next origin knows exactly the keys of the discovery, with the identities of the sync. */
  lemma NextKeys(m: Manifest, managed: seq<ManagedContract>, desired: seq<DesiredContract>, k: string)
    requires Discovered(desired)
    ensures var next := ByKey(NextOrigin(m, managed, desired));
            && (k in next <==> k in Keys(desired))
            && (k in next && k in ByKey(managed) ==>
                  next[k].name == ByKey(managed)[k].name && next[k].abiPath == ByKey(managed)[k].abiPath)
            && (k in next && k !in ByKey(managed) ==> next[k].name !in ContractNames(m.contracts))
  {
    var origin, ids := NextOrigin(m, managed, desired), SyncIds(m, managed, desired);
    var previous, names, next := ByKey(managed), ContractNames(m.contracts), ByKey(origin);
    hide NextOrigin, SyncIds, ManagedKey, Ids, NamesIn, UniqueName, ContractNames, AbiPath, ByKey, Keys;
    NextOriginIs(m, managed, desired);
    SyncIdsAre(m, managed, desired);
    SameKeys(origin, desired, k);
    if k in next {
      var j :| 0 <= j < |origin| && origin[j] == next[k] && desired[j].key == k;
      IdsAt(previous, names, desired, j);
    }
  }

  lemma SameKeys(origin: seq<ManagedContract>, desired: seq<DesiredContract>, k: string)
    requires |origin| == |desired| && forall i | 0 <= i < |origin| :: ManagedKey(origin[i]) == desired[i].key
    ensures k in ByKey(origin) <==> k in Keys(desired)
    ensures k in ByKey(origin) ==> exists j | 0 <= j < |origin| :: origin[j] == ByKey(origin)[k] && desired[j].key == k
  {
    hide ManagedKey, ByKey;
    if k in ByKey(origin) {
      var j :| 0 <= j < |origin| && origin[j] == ByKey(origin)[k];
      assert desired[j] in desired && desired[j].key == k;
    }
    if d :| d in desired && d.key == k {
      var j :| 0 <= j < |desired| && desired[j] == d;
      assert origin[j] in origin && ManagedKey(origin[j]) == k;
    }
  }

  /** Name `n` stands in the manifest, and contract `k` is not known under it. */
  ghost predicate Lost(m: Manifest, managed: seq<ManagedContract>, k: string, n: string) {
    n in ContractNames(m.contracts) && (k in ByKey(managed) ==> ByKey(managed)[k].name != n)
  }

  lemma LostStays(m: Manifest, managed: seq<ManagedContract>, desired: seq<DesiredContract>, k: string, n: string)
    requires Discovered(desired) && n in ContractNames(m.contracts)
    requires k in ByKey(managed) && ByKey(managed)[k].name == n ==> k !in Keys(desired)
    ensures Lost(Synced(m, managed, desired, false), NextOrigin(m, managed, desired), k, n)
  {
    NextKeys(m, managed, desired, k);
    SyncedParts(m, managed, desired);
    hide NextOrigin, Synced, SyncIds, ContractNames, NamesIn, WrittenBy, WithNetworks, ByKey, Discovered, Keys;
  }

  lemma {:induction false} LostForGood(m: Manifest, managed: seq<ManagedContract>,
                                       discoveries: seq<seq<DesiredContract>>, k: string, n: string)
    requires Lost(m, managed, k, n) && forall desired | desired in discoveries :: Discovered(desired)
    ensures var (m', managed') := SyncedAll(m, managed, discoveries); Lost(m', managed', k, n)
    decreases |discoveries|
  {
    if discoveries != [] {
      assert discoveries[0] in discoveries;
      hide Synced, NextOrigin, Discovered, ContractNames, ByKey;
      LostStays(m, managed, discoveries[0], k, n);
      LostForGood(Synced(m, managed, discoveries[0], false), NextOrigin(m, managed, discoveries[0]), discoveries[1..],
                  k, n);
    }
  }

  lemma ManagedStands(m: Manifest, managed: seq<ManagedContract>, k: string)
    requires Settled(managed, m.contracts) && k in ByKey(managed)
    ensures ByKey(managed)[k].name in ContractNames(m.contracts)
  {
    hide ContractNames;
  }

  /** The contract is discovered in every round of the run. */
  ghost predicate AlwaysThere(discoveries: seq<seq<DesiredContract>>, k: string) {
    forall desired | desired in discoveries :: k in Keys(desired)
  }

  lemma AlwaysParts(discoveries: seq<seq<DesiredContract>>, k: string)
    requires discoveries != []
    ensures AlwaysThere(discoveries, k) <==> k in Keys(discoveries[0]) && AlwaysThere(discoveries[1..], k)
  {
    hide Keys;
    assert forall desired :: desired in discoveries <==> desired == discoveries[0] || desired in discoveries[1..];
  }

  /** A contract of the newest discovery still has the name and ABI path that it had before the run if and
      only if it was part of every discovery of the run: after one round without it, its name is left to the
      entry in the manifest for good. */
  lemma {:induction false} NameIsKeptExactly(m: Manifest, managed: seq<ManagedContract>,
                                             discoveries: seq<seq<DesiredContract>>, k: string)
    requires Settled(managed, m.contracts) && forall desired | desired in discoveries :: Discovered(desired)
    requires k in ByKey(managed)
    ensures var (m', managed') := SyncedAll(m, managed, discoveries);
            && (discoveries != [] ==> (k in ByKey(managed') <==> k in Keys(discoveries[|discoveries| - 1])))
            && (k in ByKey(managed') ==>
                  && (ByKey(managed')[k].name == ByKey(managed)[k].name <==> AlwaysThere(discoveries, k))
                  && (AlwaysThere(discoveries, k) ==> ByKey(managed')[k].abiPath == ByKey(managed)[k].abiPath))
    decreases |discoveries|
  {
    if discoveries != [] {
      var desired, rest := discoveries[0], discoveries[1..];
      assert desired in discoveries;
      var m1, managed1 := Synced(m, managed, desired, false), NextOrigin(m, managed, desired);
      assert SyncedAll(m, managed, discoveries) == SyncedAll(m1, managed1, rest);
      AlwaysParts(discoveries, k);
      hide Synced, NextOrigin, Discovered, ContractNames, ByKey, Keys, Settled, AlwaysThere;
      NextKeys(m, managed, desired, k);
      SyncSettles(m, managed, desired);
      if k in Keys(desired) {
        NameIsKeptExactly(m1, managed1, rest, k);
      } else {
        ManagedStands(m, managed, k);
        LostStays(m, managed, desired, k, ByKey(managed)[k].name);
        LostForGood(m1, managed1, rest, k, ByKey(managed)[k].name);
        NewestKeys(m1, managed1, rest, k);
      }
    }
  }

  lemma {:induction false} NewestKeys(m: Manifest, managed: seq<ManagedContract>,
                                      discoveries: seq<seq<DesiredContract>>, k: string)
    requires forall desired | desired in discoveries :: Discovered(desired)
    ensures k in ByKey(SyncedAll(m, managed, discoveries).1) <==>
            if discoveries == [] then k in ByKey(managed) else k in Keys(discoveries[|discoveries| - 1])
    decreases |discoveries|
  {
    hide Synced, NextOrigin, Discovered, ByKey, Keys;
    if discoveries != [] {
      assert discoveries[0] in discoveries;
      var m1, managed1, rest := Synced(m, managed, discoveries[0], false), NextOrigin(m, managed, discoveries[0]),
        discoveries[1..];
      assert SyncedAll(m, managed, discoveries) == SyncedAll(m1, managed1, rest);
      hide SyncedAll;
      NextKeys(m, managed, discoveries[0], k);
      NewestKeys(m1, managed1, rest, k);
      assert rest == [] ==> discoveries == [discoveries[0]];
    }
  }
}
