/** What a sync reports and which names it assigns, from the origin, the manifest's names and the discovery. */
module FoundryReports {
  import opened Basics
  import opened Options
  import opened FreshNames
  import opened FoundryModel
  import opened FoundrySync

  // ----- the identities of a discovery

  function NamesIn(ids: seq<Identity>): set<string> {
    set id | id in ids :: id.name
  }

  /** The identities in order: a contract that the origin knows keeps its own, the others get free names. */
  function Ids(previous: map<string, ManagedContract>, names: set<string>,
               desired: seq<DesiredContract>): (r: seq<Identity>)
    ensures |r| == |desired|
  {
    if desired == [] then []
    else
      var init := Ids(previous, names, desired[..|desired| - 1]);
      init + [IdentityFor(previous, names + NamesIn(init), desired[|desired| - 1])]
  }

  lemma {:induction false} IdsPrefix(previous: map<string, ManagedContract>, names: set<string>,
                                     desired: seq<DesiredContract>, j: nat)
    requires j <= |desired|
    ensures Ids(previous, names, desired[..j]) == Ids(previous, names, desired)[..j]
    decreases |desired|
  {
    hide IdentityFor;
    if j == |desired| {
      assert desired[..j] == desired;
    } else {
      var init := desired[..|desired| - 1];
      assert init[..j] == desired[..j];
      IdsPrefix(previous, names, init, j);
    }
  }

  lemma IdsAt(previous: map<string, ManagedContract>, names: set<string>, desired: seq<DesiredContract>, j: nat)
    requires j < |desired|
    ensures var ids := Ids(previous, names, desired);
            ids[j] == IdentityFor(previous, names + NamesIn(ids[..j]), desired[j])
  {
    hide IdentityFor;
    IdsPrefix(previous, names, desired, j);
    IdsPrefix(previous, names, desired, j + 1);
    assert desired[..j + 1][..j] == desired[..j];
    assert Ids(previous, names, desired[..j + 1])[j] ==
      IdentityFor(previous, names + NamesIn(Ids(previous, names, desired[..j])), desired[j]);
  }

  /** A contract that the origin knows, but whose name is missing from the manifest, comes after another
      contract that is assigned that name. */
  ghost predicate Taken(previous: map<string, ManagedContract>, names: set<string>, desired: seq<DesiredContract>) {
    exists j | 0 <= j < |desired| ::
      && desired[j].key in previous
      && previous[desired[j].key].name !in names
      && previous[desired[j].key].name in NamesIn(Ids(previous, names, desired[..j]))
  }

  /** A contract that the origin knows comes after another contract that is assigned its name. */
  ghost predicate Reused(previous: map<string, ManagedContract>, names: set<string>, desired: seq<DesiredContract>) {
    exists j | 0 <= j < |desired| ::
      && desired[j].key in previous
      && previous[desired[j].key].name in NamesIn(Ids(previous, names, desired[..j]))
  }

  /** The origin gives no two keys the same name. */
  ghost predicate OwnNames(previous: map<string, ManagedContract>) {
    forall k, l | k in previous && l in previous && previous[k].name == previous[l].name :: k == l
  }

  /** A name outside the manifest is assigned again after it was assigned before. */
  ghost predicate Clash(names: set<string>, ids: seq<Identity>) {
    exists j | 0 <= j < |ids| :: ids[j].name !in names && ids[j].name in NamesIn(ids[..j])
  }

  lemma ClashIsTaken(previous: map<string, ManagedContract>, names: set<string>, desired: seq<DesiredContract>)
    ensures Clash(names, Ids(previous, names, desired)) <==> Taken(previous, names, desired)
  {
    var ids := Ids(previous, names, desired);
    forall j | 0 <= j < |desired|
      ensures Ids(previous, names, desired[..j]) == ids[..j]
      ensures ids[j] == IdentityFor(previous, names + NamesIn(ids[..j]), desired[j])
    {
      IdsPrefix(previous, names, desired, j);
      IdsAt(previous, names, desired, j);
    }
    hide Ids, NamesIn, UniqueName;
    if Clash(names, ids) {
      var j :| 0 <= j < |ids| && ids[j].name !in names && ids[j].name in NamesIn(ids[..j]);
      assert desired[j].key in previous;
      assert previous[desired[j].key].name in NamesIn(Ids(previous, names, desired[..j]));
    }
    if Taken(previous, names, desired) {
      var j :| 0 <= j < |desired| && desired[j].key in previous && previous[desired[j].key].name !in names
               && previous[desired[j].key].name in NamesIn(Ids(previous, names, desired[..j]));
      assert ids[j].name in NamesIn(ids[..j]);
    }
  }

  // ----- the lists of a report

  /** Whether contract `j` is found in the manifest: a real run also finds those that it has added itself. */
  function Present(names: set<string>, ids: seq<Identity>, j: nat, dryRun: bool): bool
    requires j < |ids|
  {
    ids[j].name in names || (!dryRun && ids[j].name in NamesIn(ids[..j]))
  }

  function Added(names: set<string>, ids: seq<Identity>, dryRun: bool): seq<string> {
    if ids == [] then []
    else
      var n := |ids| - 1;
      Added(names, ids[..n], dryRun) + if Present(names, ids, n, dryRun) then [] else [ids[n].name]
  }

  function Updated(names: set<string>, ids: seq<Identity>, dryRun: bool): seq<string> {
    if ids == [] then []
    else
      var n := |ids| - 1;
      Updated(names, ids[..n], dryRun) + if Present(names, ids, n, dryRun) then [ids[n].name] else []
  }

  /** The ABI files that are written for the contracts; the last one of a path stays. */
  function WrittenBy(desired: seq<DesiredContract>, ids: seq<Identity>): map<string, string>
    requires |ids| == |desired|
  {
    if desired == [] then map[]
    else
      var n := |desired| - 1;
      WrittenBy(desired[..n], ids[..n])[ids[n].abiPath := desired[n].abiJson]
  }

  /** Whether contract `j` is reported with a changed ABI. */
  function Changes(files: map<string, string>, names: set<string>, desired: seq<DesiredContract>, ids: seq<Identity>,
                   j: nat, dryRun: bool): bool
    requires |ids| == |desired| && j < |ids|
  {
    && Present(names, ids, j, dryRun)
    && AbiChanged(if dryRun then files else files + WrittenBy(desired[..j], ids[..j]), ids[j].abiPath,
         desired[j].abiJson)
  }

  function ChangedAbis(files: map<string, string>, names: set<string>, desired: seq<DesiredContract>,
                       ids: seq<Identity>,
                       dryRun: bool): seq<string>
    requires |ids| == |desired|
  {
    if desired == [] then []
    else
      var n := |desired| - 1;
      ChangedAbis(files, names, desired[..n], ids[..n], dryRun)
      + if Changes(files, names, desired, ids, n, dryRun) then [ids[n].name] else []
  }

  function Assignments(desired: seq<DesiredContract>, ids: seq<Identity>): map<string, Identity>
    requires |ids| == |desired|
  {
    if desired == [] then map[]
    else
      var n := |desired| - 1;
      Assignments(desired[..n], ids[..n])[desired[n].key := ids[n]]
  }

  /** The state of a sync after these contracts, in terms of their identities. */
  ghost predicate Matches(st: Progress, m: Manifest, desired: seq<DesiredContract>, ids: seq<Identity>, dryRun: bool)
    requires |ids| == |desired|
  {
    var names := ContractNames(m.contracts);
    && st.namesInUse == names + NamesIn(ids)
    && ContractNames(st.contracts) == (if dryRun then names else names + NamesIn(ids))
    && st.files == (if dryRun then m.files else m.files + WrittenBy(desired, ids))
    && st.added == Added(names, ids, dryRun) && st.updated == Updated(names, ids, dryRun)
    && st.abiUpdated == ChangedAbis(m.files, names, desired, ids, dryRun)
    && st.identities == Assignments(desired, ids)
    && (dryRun ==> st.contracts == m.contracts)
  }

  lemma NamesSnoc(ids: seq<Identity>, id: Identity)
    ensures NamesIn(ids + [id]) == NamesIn(ids) + {id.name}
  {
  }

  lemma Overlay(a: map<string, string>, b: map<string, string>, k: string, v: string)
    ensures (a + b)[k := v] == a + b[k := v]
  {
  }

  lemma ListsSnoc(files: map<string, string>, names: set<string>, desired: seq<DesiredContract>, ids: seq<Identity>,
                  d: DesiredContract, id: Identity, dryRun: bool)
    requires |ids| == |desired|
    ensures var ids', desired' := ids + [id], desired + [d];
            var present := id.name in names || (!dryRun && id.name in NamesIn(ids));
            var changed := AbiChanged(if dryRun then files else files + WrittenBy(desired, ids), id.abiPath, d.abiJson);
            && Added(names, ids', dryRun) == Added(names, ids, dryRun) + (if present then [] else [id.name])
            && Updated(names, ids', dryRun) == Updated(names, ids, dryRun) + (if present then [id.name] else [])
            && ChangedAbis(files, names, desired', ids', dryRun) ==
               ChangedAbis(files, names, desired, ids, dryRun) + (if present && changed then [id.name] else [])
            && WrittenBy(desired', ids') == WrittenBy(desired, ids)[id.abiPath := d.abiJson]
            && Assignments(desired', ids') == Assignments(desired, ids)[d.key := id]
  {
    hide AbiChanged, NamesIn;
    var ids', desired' := ids + [id], desired + [d];
    assert ids'[..|ids|] == ids && desired'[..|ids|] == desired;
  }

  /** What one step adds to each part of the state. */
  lemma StepParts(st: Progress, previous: map<string, ManagedContract>, chainNames: map<nat, string>, dryRun: bool,
                  d: DesiredContract)
    ensures var id, st', stand := IdentityFor(previous, st.namesInUse, d), Step(st, previous, chainNames, dryRun, d),
            ContractNames(st.contracts);
            var present := id.name in stand;
            && st'.namesInUse == st.namesInUse + {id.name}
            && (if dryRun then st'.contracts == st.contracts else ContractNames(st'.contracts) == stand + {id.name})
            && st'.files == (if dryRun then st.files else st.files[id.abiPath := d.abiJson])
            && st'.added == st.added + (if present then [] else [id.name])
            && st'.updated == st.updated + (if present then [id.name] else [])
            && st'.abiUpdated == st.abiUpdated +
                 (if present && AbiChanged(st.files, id.abiPath, d.abiJson) then [id.name] else [])
            && st'.identities == st.identities[d.key := id]
  {
    var id := IdentityFor(previous, st.namesInUse, d);
    PlacedNames(st.contracts, chainNames, d, id);
    hide IdentityFor, Placed, AbiChanged, ContractNames;
  }

  lemma StepMatches(st: Progress, m: Manifest, previous: map<string, ManagedContract>, chainNames: map<nat, string>,
                    desired: seq<DesiredContract>, ids: seq<Identity>, d: DesiredContract, dryRun: bool)
    requires |ids| == |desired| && Matches(st, m, desired, ids, dryRun)
    ensures var id := IdentityFor(previous, ContractNames(m.contracts) + NamesIn(ids), d);
            Matches(Step(st, previous, chainNames, dryRun, d), m, desired + [d], ids + [id], dryRun)
  {
    var names := ContractNames(m.contracts);
    var id := IdentityFor(previous, names + NamesIn(ids), d);
    NamesSnoc(ids, id);
    ListsSnoc(m.files, names, desired, ids, d, id, dryRun);
    StepParts(st, previous, chainNames, dryRun, d);
    Overlay(m.files, WrittenBy(desired, ids), id.abiPath, d.abiJson);
    hide IdentityFor, Step, AbiChanged, ContractNames, NamesIn, Added, Updated, ChangedAbis, WrittenBy, Assignments;
  }

  lemma NothingMatches(m: Manifest, dryRun: bool)
    ensures Matches(Start(m), m, [], [], dryRun)
  {
  }

  lemma {:induction false} StepsMatch(m: Manifest, previous: map<string, ManagedContract>, chainNames: map<nat, string>,
                                      desired: seq<DesiredContract>, dryRun: bool)
    ensures Matches(Steps(Start(m), previous, chainNames, dryRun, desired), m, desired,
                    Ids(previous, ContractNames(m.contracts), desired), dryRun)
    decreases |desired|
  {
    hide Matches, Step, Start, ContractNames, IdentityFor;
    if desired == [] {
      NothingMatches(m, dryRun);
    } else {
      var init, last := desired[..|desired| - 1], desired[|desired| - 1];
      StepsMatch(m, previous, chainNames, init, dryRun);
      var ids := Ids(previous, ContractNames(m.contracts), init);
      StepMatches(Steps(Start(m), previous, chainNames, dryRun, init), m, previous, chainNames, init, ids, last,
                  dryRun);
      assert init + [last] == desired;
    }
  }

  /** The identities that a sync of this manifest assigns, in order. */
  function SyncIds(m: Manifest, managed: seq<ManagedContract>, desired: seq<DesiredContract>): (r: seq<Identity>)
    ensures |r| == |desired|
  {
    Ids(ByKey(managed), ContractNames(m.contracts), desired)
  }

  lemma RunMatches(m: Manifest, managed: seq<ManagedContract>, desired: seq<DesiredContract>, dryRun: bool)
    ensures Matches(Run(m, managed, desired, dryRun), m, desired, SyncIds(m, managed, desired), dryRun)
  {
    hide Matches, Steps, Ids, ByKey, ContractNames, SyncNames, Start;
    StepsMatch(m, ByKey(managed), SyncNames(m, desired), desired, dryRun);
  }

  // ----- dry runs

  /** Without a clash the lists agree; with one the real run adds less. */
  lemma {:induction false} ListsAgree(names: set<string>, ids: seq<Identity>)
    ensures |Added(names, ids, false)| <= |Added(names, ids, true)|
    ensures |Added(names, ids, false)| == |Added(names, ids, true)| <==> !Clash(names, ids)
    ensures !Clash(names, ids) ==>
              Added(names, ids, false) == Added(names, ids, true) &&
                Updated(names, ids, false) == Updated(names, ids, true)
  {
    hide NamesIn;
    if ids != [] {
      var n := |ids| - 1;
      var init := ids[..n];
      ListsAgree(names, init);
      ClashSnoc(names, ids);
      hide Clash;
    }
  }

  lemma ClashSnoc(names: set<string>, ids: seq<Identity>)
    requires ids != []
    ensures var n := |ids| - 1;
            Clash(names, ids) <==> Clash(names, ids[..n]) || (ids[n].name !in names && ids[n].name in NamesIn(ids[..n]))
  {
    hide NamesIn;
    var n := |ids| - 1;
    var init := ids[..n];
    forall j | 0 <= j < n ensures init[..j] == ids[..j] && init[j] == ids[j] {
    }
    if Clash(names, init) {
      var j :| 0 <= j < |init| && init[j].name !in names && init[j].name in NamesIn(init[..j]);
      assert ids[j].name in NamesIn(ids[..j]);
    }
    if Clash(names, ids) {
      var j :| 0 <= j < |ids| && ids[j].name !in names && ids[j].name in NamesIn(ids[..j]);
      if j < n {
        assert init[j].name in NamesIn(init[..j]);
      }
    }
  }

  /** A dry run writes nothing, and for any manifest, origin and discovery it assigns the same identities and
      finds the same contracts stale. It reports the same contracts as added and updated if and only if no
      known contract that is missing from the manifest comes after one that is assigned its name. */
  lemma {:induction false} DryRunReportsTheSame(m: Manifest, managed: seq<ManagedContract>,
                                                desired: seq<DesiredContract>)
    ensures var dry, wet := SyncReport(m, managed, desired, true), SyncReport(m, managed, desired, false);
            && dry.identities == wet.identities && dry.stale == wet.stale
            && (dry.added == wet.added && dry.updated == wet.updated <==>
                !Taken(ByKey(managed), ContractNames(m.contracts), desired))
    ensures var after := Synced(m, managed, desired, true); after.contracts == m.contracts && after.files == m.files
  {
    RunMatches(m, managed, desired, true);
    RunMatches(m, managed, desired, false);
    var ids, names := SyncIds(m, managed, desired), ContractNames(m.contracts);
    ListsAgree(names, ids);
    ClashIsTaken(ByKey(managed), names, desired);
    hide Run, Clash, Taken, ByKey, ContractNames, Added, Updated, ChangedAbis, Assignments, WrittenBy, Ids, Stale,
      WithNetworks;
  }

  // ----- injective names

  /** No two of the identities have the same name. */
  ghost predicate DistinctNames(ids: seq<Identity>) {
    forall i, j | 0 <= i < j < |ids| :: ids[i].name != ids[j].name
  }

  lemma DistinctIsNotReused(previous: map<string, ManagedContract>, names: set<string>, desired: seq<DesiredContract>)
    ensures DistinctNames(Ids(previous, names, desired)) <==> !Reused(previous, names, desired)
  {
    var ids := Ids(previous, names, desired);
    hide Ids, UniqueName, NamesIn, IdentityFor;
    forall j | 0 <= j < |desired|
      ensures ids[j].name in NamesIn(ids[..j]) <==>
              desired[j].key in previous && previous[desired[j].key].name in NamesIn(Ids(previous, names, desired[..j]))
    {
      NamedBefore(previous, names, desired, j);
    }
    if Reused(previous, names, desired) {
      var j :| 0 <= j < |desired| && desired[j].key in previous
               && previous[desired[j].key].name in NamesIn(Ids(previous, names, desired[..j]));
      NameAt(ids, j);
    }
    if i, j :| 0 <= i < j < |ids| && ids[i].name == ids[j].name {
      NameAt(ids, j);
    }
  }

  lemma NameAt(ids: seq<Identity>, j: nat)
    requires j < |ids|
    ensures ids[j].name in NamesIn(ids[..j]) <==> exists i | 0 <= i < j :: ids[i].name == ids[j].name
  {
    if i :| 0 <= i < j && ids[i].name == ids[j].name {
      assert ids[..j][i] == ids[i];
    }
  }

  /** Only a contract that the origin knows can be assigned a name that came before. */
  lemma NamedBefore(previous: map<string, ManagedContract>, names: set<string>, desired: seq<DesiredContract>, j: nat)
    requires j < |desired|
    ensures var ids := Ids(previous, names, desired);
            ids[j].name in NamesIn(ids[..j]) <==>
            desired[j].key in previous && previous[desired[j].key].name in NamesIn(Ids(previous, names, desired[..j]))
  {
    IdsPrefix(previous, names, desired, j);
    IdsAt(previous, names, desired, j);
    hide Ids, UniqueName, NamesIn;
  }

  lemma LastKey(init: seq<DesiredContract>, last: DesiredContract)
    ensures Keys(init + [last]) == Keys(init) + {last.key}
  {
    assert forall d :: d in init + [last] <==> d in init || d == last;
  }

  lemma {:induction false} AssignedKeys(desired: seq<DesiredContract>, ids: seq<Identity>)
    requires |ids| == |desired|
    ensures Assignments(desired, ids).Keys == Keys(desired)
  {
    if desired != [] {
      var n := |desired| - 1;
      var init, before := desired[..n], Assignments(desired[..n], ids[..n]);
      assert Assignments(desired, ids) == before[desired[n].key := ids[n]];
      AssignedKeys(init, ids[..n]);
      LastKey(init, desired[n]);
      assert desired == init + [desired[n]];
      hide *;
    }
  }

  lemma {:induction false} AssignedTo(desired: seq<DesiredContract>, ids: seq<Identity>, j: nat)
    requires |ids| == |desired| && j < |desired| && forall i | j < i < |desired| :: desired[i].key != desired[j].key
    ensures desired[j].key in Assignments(desired, ids) && Assignments(desired, ids)[desired[j].key] == ids[j]
  {
    var n := |desired| - 1;
    var before := Assignments(desired[..n], ids[..n]);
    assert Assignments(desired, ids) == before[desired[n].key := ids[n]];
    hide *;
    if j < n {
      assert desired[..n][j] == desired[j] && ids[..n][j] == ids[j];
      AssignedTo(desired[..n], ids[..n], j);
    }
  }

  lemma AssignmentsAt(desired: seq<DesiredContract>, ids: seq<Identity>)
    requires |ids| == |desired| && forall i, j | 0 <= i < j < |desired| :: desired[i].key != desired[j].key
    ensures var r := Assignments(desired, ids);
            && r.Keys == Keys(desired)
            && forall j | 0 <= j < |desired| :: desired[j].key in r && r[desired[j].key] == ids[j]
  {
    hide *;
    AssignedKeys(desired, ids);
    forall j | 0 <= j < |desired|
      ensures desired[j].key in Assignments(desired, ids) && Assignments(desired, ids)[desired[j].key] == ids[j]
    {
      AssignedTo(desired, ids, j);
    }
  }

  /** With an origin of distinct names, a name is reused only where it is missing from the manifest. */
  lemma ReusedIsTaken(previous: map<string, ManagedContract>, names: set<string>, desired: seq<DesiredContract>)
    requires OwnNames(previous) && forall i, j | 0 <= i < j < |desired| :: desired[i].key != desired[j].key
    ensures Reused(previous, names, desired) <==> Taken(previous, names, desired)
  {
    if Reused(previous, names, desired) {
      var j :| 0 <= j < |desired| && desired[j].key in previous
               && previous[desired[j].key].name in NamesIn(Ids(previous, names, desired[..j]));
      var ids, name := Ids(previous, names, desired), previous[desired[j].key].name;
      IdsPrefix(previous, names, desired, j);
      var i :| 0 <= i < j && ids[..j][i].name == name;
      IdsAt(previous, names, desired, i);
      assert desired[i].key != desired[j].key;
      assert name !in names;
    }
  }

  /** The assigned names of a discovery are injective if and only if no known contract comes after one that
      is assigned its name; for an origin of distinct names that is the condition of the dry run. */
  lemma {:induction false} NamesAreInjectiveExactly(m: Manifest, managed: seq<ManagedContract>,
                                                    desired: seq<DesiredContract>,
                                                    dryRun: bool)
    requires Discovered(desired)
    ensures var ids, previous, names := SyncReport(m, managed, desired, dryRun).identities, ByKey(managed),
            ContractNames(m.contracts);
            && ids.Keys == Keys(desired)
            && ((forall k, l | k in ids && l in ids && ids[k].name == ids[l].name :: k == l) <==>
                 !Reused(previous, names, desired))
            && (OwnNames(previous) ==> (Reused(previous, names, desired) <==> Taken(previous, names, desired)))
  {
    hide *;
    var ids, previous, names := SyncIds(m, managed, desired), ByKey(managed), ContractNames(m.contracts);
    SyncIdsAre(m, managed, desired);
    ReportedIdentitiesAre(m, managed, desired, dryRun);
    KeysOfDiscovery(desired);
    AssignmentsAt(desired, ids);
    DistinctIsNotReused(previous, names, desired);
    if OwnNames(previous) {
      ReusedIsTaken(previous, names, desired);
    }
    InjectiveByKey(desired, ids, Assignments(desired, ids));
  }

  lemma SyncIdsAre(m: Manifest, managed: seq<ManagedContract>, desired: seq<DesiredContract>)
    ensures SyncIds(m, managed, desired) == Ids(ByKey(managed), ContractNames(m.contracts), desired)
  {
  }

  lemma ReportedIdentitiesAre(m: Manifest, managed: seq<ManagedContract>, desired: seq<DesiredContract>, dryRun: bool)
    ensures SyncReport(m, managed, desired, dryRun).identities == Assignments(desired, SyncIds(m, managed, desired))
  {
    RunMatches(m, managed, desired, dryRun);
    hide Run, SyncIds, Assignments, Added, Updated, ChangedAbis, WrittenBy, Stale;
  }

  lemma KeysOfDiscovery(desired: seq<DesiredContract>)
    requires Discovered(desired)
    ensures forall i, j | 0 <= i < j < |desired| :: desired[i].key != desired[j].key
    ensures forall k | k in Keys(desired) :: exists i | 0 <= i < |desired| :: desired[i].key == k
  {
  }

  lemma InjectiveByKey(desired: seq<DesiredContract>, ids: seq<Identity>, r: map<string, Identity>)
    requires |ids| == |desired| && forall i, j | 0 <= i < j < |desired| :: desired[i].key != desired[j].key
    requires forall k | k in r :: exists i | 0 <= i < |desired| :: desired[i].key == k
    requires forall j | 0 <= j < |desired| :: desired[j].key in r && r[desired[j].key] == ids[j]
    ensures (forall k, l | k in r && l in r && r[k].name == r[l].name :: k == l) <==> DistinctNames(ids)
  {
    if DistinctNames(ids) {
      forall k, l | k in r && l in r && r[k].name == r[l].name ensures k == l {
        var i :| 0 <= i < |desired| && desired[i].key == k;
        var j :| 0 <= j < |desired| && desired[j].key == l;
        if i < j { } else if j < i { }
      }
    }
    if i, j :| 0 <= i < j < |ids| && ids[i].name == ids[j].name {
      assert desired[i].key != desired[j].key;
    }
  }

  /** When a managed contract has been removed from the manifest by hand, a new contract that comes first and
      finds its name free takes it: both are then assigned that name, and the entry of the first is
      overwritten by the second. */
  lemma {:induction false} RemovedNameIsTakenTwice(m: Manifest, c: ManagedContract, a: DesiredContract,
                                                   b: DesiredContract)
    requires c.name !in ContractNames(m.contracts) && ManagedKey(c) == b.key && a.key != b.key
    requires UniqueName(a.name, ContractNames(m.contracts)) == c.name
    ensures var r := SyncReport(m, [c], [a, b], false);
            && r.identities.Keys == {a.key, b.key}
            && r.identities[a.key].name == r.identities[b.key].name == c.name
            && r.added == [c.name] && r.updated == [c.name]
    ensures SyncReport(m, [c], [a, b], true).added == [c.name, c.name]
    ensures Synced(m, [c], [a, b], false).contracts ==
            m.contracts + [ContractToManifest(b, SyncNames(m, [a, b]), Some(EMPTY_EXTENSIONS),
                                              Some(Identity(c.name, c.abiPath)))]
  {
    var names, previous := SyncNames(m, [a, b]), ByKey([c]);
    OneManaged(c);
    TwoSteps(Start(m), previous, names, true, a, b);
    TwoSteps(Start(m), previous, names, false, a, b);
    hide *;
    NewTakesName(m, c.name, previous, names, true, a);
    NewTakesName(m, c.name, previous, names, false, a);
    OldTakesName(Step(Start(m), previous, names, true, a), previous, names, true, b);
    OldTakesName(Step(Start(m), previous, names, false, a), previous, names, false, b);
    var id := Identity(c.name, AbiPath(c.name));
    Overwrites(m.contracts, ContractToManifest(a, names, None, Some(id)), names, b, Identity(c.name, c.abiPath));
    WrittenParts(a, names, id);
    OldPlaced(Step(Start(m), previous, names, false, a), previous, names, b);
    Reported(m, c, a, b, true);
    Reported(m, c, a, b, false);
  }

  lemma WrittenParts(a: DesiredContract, names: map<nat, string>, id: Identity)
    ensures ContractToManifest(a, names, None, Some(id)).name == id.name
    ensures ContractToManifest(a, names, None, Some(id)).extensions == EMPTY_EXTENSIONS
  {
  }

  lemma Overwrites(contracts: seq<Contract>, first: Contract, names: map<nat, string>, b: DesiredContract, id: Identity)
    requires id.name !in ContractNames(contracts)
    ensures first.name == id.name && first.extensions == EMPTY_EXTENSIONS ==>
              Placed(contracts + [first], names, b, id) ==
              contracts + [ContractToManifest(b, names, Some(EMPTY_EXTENSIONS), Some(id))]
  {
    forall i | 0 <= i < |contracts| ensures contracts[i].name != id.name {
      assert contracts[i] in contracts && contracts[i].name in ContractNames(contracts);
    }
    if first.name == id.name {
      PositionIs(contracts + [first], id.name, |contracts|);
    }
    hide ContractToManifest, Position, ContractNames;
  }

  lemma OldPlaced(st: Progress, previous: map<string, ManagedContract>, names: map<nat, string>, b: DesiredContract)
    requires b.key in previous
    ensures Step(st, previous, names, false, b).contracts ==
            Placed(st.contracts, names, b, Identity(previous[b.key].name, previous[b.key].abiPath))
  {
    hide Placed, Position;
  }

  lemma Reported(m: Manifest, c: ManagedContract, a: DesiredContract, b: DesiredContract, dryRun: bool)
    ensures var st, r := Steps(Start(m), ByKey([c]), SyncNames(m, [a, b]), dryRun, [a, b]),
            SyncReport(m, [c], [a, b], dryRun);
            && r.added == st.added && r.updated == st.updated && r.identities == st.identities
            && Synced(m, [c], [a, b], dryRun).contracts == st.contracts
  {
    hide Steps, ByKey, SyncNames, Stale, Start, WithNetworks;
  }

  lemma NewTakesName(m: Manifest, name: string, previous: map<string, ManagedContract>, names: map<nat, string>,
                     dryRun: bool, desired: DesiredContract)
    requires desired.key !in previous && UniqueName(desired.name, ContractNames(m.contracts)) == name
    ensures var r := Step(Start(m), previous, names, dryRun, desired);
            && r.identities == map[desired.key := Identity(name, AbiPath(name))]
            && r.added == [name] && r.updated == []
            && (dryRun ==> r.contracts == m.contracts && name !in ContractNames(r.contracts))
            && (!dryRun ==>
                  && r.contracts == m.contracts +
                       [ContractToManifest(desired, names, None, Some(Identity(name, AbiPath(name))))]
                  && name in ContractNames(r.contracts))
  {
    var id := Identity(name, AbiPath(name));
    PlacedNames(m.contracts, names, desired, id);
    hide ContractNames, ContractToManifest, AbiChanged, AbiPath, UniqueName;
  }

  lemma OldTakesName(st: Progress, previous: map<string, ManagedContract>, names: map<nat, string>,
                     dryRun: bool, desired: DesiredContract)
    requires desired.key in previous
    ensures var r, name := Step(st, previous, names, dryRun, desired), previous[desired.key].name;
            && desired.key in r.identities && r.identities[desired.key].name == name
            && (forall k | k != desired.key :: k in r.identities <==> k in st.identities)
            && (forall k | k != desired.key && k in st.identities :: r.identities[k] == st.identities[k])
            && (if name in ContractNames(st.contracts)
                then r.added == st.added && r.updated == st.updated + [name]
                else r.added == st.added + [name])
  {
    hide ContractNames, NextContract, AbiChanged;
  }

  lemma OneManaged(c: ManagedContract)
    ensures ByKey([c]) == map[ManagedKey(c) := c]
  {
    assert [c][..0] == [];
    assert ByKey([]) == map[];
  }

  lemma TwoSteps(st: Progress, previous: map<string, ManagedContract>, names: map<nat, string>, dryRun: bool,
                 a: DesiredContract, b: DesiredContract)
    ensures Steps(st, previous, names, dryRun, [a, b]) ==
            Step(Step(st, previous, names, dryRun, a), previous, names, dryRun, b)
  {
    hide Step;
    assert [a, b][..1] == [a] && [a][..0] == [];
    assert Steps(st, previous, names, dryRun, []) == st;
    assert Steps(st, previous, names, dryRun, [a]) == Step(st, previous, names, dryRun, a);
  }

  // ----- changed ABIs

  lemma ChangesPrefix(files: map<string, string>, names: set<string>, desired: seq<DesiredContract>, ids: seq<Identity>,
                      n: nat, j: nat, dryRun: bool)
    requires |ids| == |desired| && j < n <= |ids|
    ensures Changes(files, names, desired[..n], ids[..n], j, dryRun) == Changes(files, names, desired, ids, j, dryRun)
  {
    assert desired[..n][..j] == desired[..j] && ids[..n][..j] == ids[..j];
    hide WrittenBy, NamesIn;
  }

  /** With distinct names, the list holds exactly the names of the contracts that change. */
  lemma {:induction false} ChangedAbisMembers(files: map<string, string>, names: set<string>,
                                              desired: seq<DesiredContract>,
                                              ids: seq<Identity>, dryRun: bool)
    requires |ids| == |desired| && DistinctNames(ids)
    ensures forall j | 0 <= j < |ids| ::
              ids[j].name in ChangedAbis(files, names, desired, ids, dryRun) <==>
                Changes(files, names, desired, ids, j, dryRun)
    ensures forall x | x in ChangedAbis(files, names, desired, ids, dryRun) :: exists j | 0 <= j < |ids| ::
            ids[j].name == x
  {
    hide Changes;
    if desired != [] {
      var n := |desired| - 1;
      ChangedAbisMembers(files, names, desired[..n], ids[..n], dryRun);
      forall j | 0 <= j < n
        ensures Changes(files, names, desired[..n], ids[..n], j, dryRun) ==
                Changes(files, names, desired, ids, j, dryRun)
      {
        ChangesPrefix(files, names, desired, ids, n, j, dryRun);
      }
      var init := ChangedAbis(files, names, desired[..n], ids[..n], dryRun);
      var all := ChangedAbis(files, names, desired, ids, dryRun);
      assert forall x :: x in all <==>
                         x in init || (Changes(files, names, desired, ids, n, dryRun) && x == ids[n].name);
      hide ChangedAbis;
      assert forall i | 0 <= i < n :: ids[..n][i].name != ids[n].name;
      assert ids[n].name !in init;
      forall j | 0 <= j < |ids| ensures ids[j].name in all <==> Changes(files, names, desired, ids, j, dryRun) {
        if j < n {
          assert ids[..n][j] == ids[j];
        }
      }
      forall x | x in all ensures exists j | 0 <= j < |ids| :: ids[j].name == x {
        if x in init {
          var i :| 0 <= i < n && ids[..n][i].name == x;
          assert ids[i].name == x;
        }
      }
    }
  }

  lemma {:induction false} SameChanges(files: map<string, string>, names: set<string>, desired: seq<DesiredContract>,
                                       ids: seq<Identity>)
    requires |ids| == |desired|
    requires forall j | 0 <= j < |ids| ::
      Changes(files, names, desired, ids, j, true) == Changes(files, names, desired, ids, j, false)
    ensures ChangedAbis(files, names, desired, ids, true) == ChangedAbis(files, names, desired, ids, false)
  {
    hide Changes;
    if desired != [] {
      var n := |desired| - 1;
      forall j | 0 <= j < n
        ensures Changes(files, names, desired[..n], ids[..n], j, true) ==
                Changes(files, names, desired[..n], ids[..n], j, false)
      {
        ChangesPrefix(files, names, desired, ids, n, j, true);
        ChangesPrefix(files, names, desired, ids, n, j, false);
      }
      SameChanges(files, names, desired[..n], ids[..n]);
    }
  }

  /** The dry run and the real run see contract `j` differently: its entry stands in the manifest, and the file
      that was there and the one that has just been written at its ABI path differ in whether they hold its ABI;
      or its entry is one that the real run itself has added before, and the file found does not hold its ABI. */
  ghost predicate Splits(files: map<string, string>, names: set<string>, desired: seq<DesiredContract>,
                         ids: seq<Identity>, j: nat)
    requires |ids| == |desired| && j < |ids|
  {
    var written, path, abi := WrittenBy(desired[..j], ids[..j]), ids[j].abiPath, desired[j].abiJson;
    if ids[j].name in names then path in written && (AbiChanged(files, path, abi) <==> written[path] == abi)
    else ids[j].name in NamesIn(ids[..j]) && AbiChanged(files + written, path, abi)
  }

  lemma ChangesDiffer(files: map<string, string>, names: set<string>, desired: seq<DesiredContract>,
                      ids: seq<Identity>, j: nat)
    requires |ids| == |desired| && j < |ids|
    ensures Changes(files, names, desired, ids, j, true) != Changes(files, names, desired, ids, j, false) <==>
            Splits(files, names, desired, ids, j)
  {
    hide WrittenBy, NamesIn;
  }

  /** For any manifest, origin and discovery the changed ABIs that are reported are the names of the contracts
      that `Changes` tells, and a dry run and a real run differ on a contract if and only if it splits them.
      Without such a contract the two lists are equal; with distinct names, only then. */
  lemma {:induction false} DryRunAbisExactly(m: Manifest, managed: seq<ManagedContract>, desired: seq<DesiredContract>)
    ensures var ids, names := SyncIds(m, managed, desired), ContractNames(m.contracts);
            var dry, wet := SyncReport(m, managed, desired, true), SyncReport(m, managed, desired, false);
            && dry.abiUpdated == ChangedAbis(m.files, names, desired, ids, true)
            && wet.abiUpdated == ChangedAbis(m.files, names, desired, ids, false)
            && (forall j | 0 <= j < |ids| ::
                  Changes(m.files, names, desired, ids, j, true) != Changes(m.files, names, desired, ids, j, false) <==>
                  Splits(m.files, names, desired, ids, j))
            && ((forall j | 0 <= j < |ids| :: !Splits(m.files, names, desired, ids, j)) ==>
                 dry.abiUpdated == wet.abiUpdated)
            && (!Reused(ByKey(managed), names, desired) && dry.abiUpdated == wet.abiUpdated ==>
                  forall j | 0 <= j < |ids| :: !Splits(m.files, names, desired, ids, j))
  {
    hide *;
    var ids, names := SyncIds(m, managed, desired), ContractNames(m.contracts);
    SyncIdsAre(m, managed, desired);
    DistinctIsNotReused(ByKey(managed), names, desired);
    ReportedAbisAre(m, managed, desired, true);
    ReportedAbisAre(m, managed, desired, false);
    forall j | 0 <= j < |ids|
      ensures Changes(m.files, names, desired, ids, j, true) != Changes(m.files, names, desired, ids, j, false) <==>
              Splits(m.files, names, desired, ids, j)
    {
      ChangesDiffer(m.files, names, desired, ids, j);
    }
    if forall j | 0 <= j < |ids| :: !Splits(m.files, names, desired, ids, j) {
      SameChanges(m.files, names, desired, ids);
    }
    if !Reused(ByKey(managed), names, desired) {
      ChangedAbisMembers(m.files, names, desired, ids, true);
      ChangedAbisMembers(m.files, names, desired, ids, false);
    }
  }

  lemma TwoKnown(previous: map<string, ManagedContract>, names: set<string>, a: DesiredContract, b: DesiredContract)
    requires a.key in previous && b.key in previous
    ensures Ids(previous, names, [a, b]) ==
            [Identity(previous[a.key].name, previous[a.key].abiPath),
             Identity(previous[b.key].name, previous[b.key].abiPath)]
  {
    assert [a, b][..1] == [a] && [a][..0] == [];
    assert Ids(previous, names, []) == [];
    assert Ids(previous, names, [a]) == [Identity(previous[a.key].name, previous[a.key].abiPath)];
  }

  lemma TwoChanged(files: map<string, string>, names: set<string>, a: DesiredContract, b: DesiredContract,
                   id: Identity, dryRun: bool)
    requires id.name in names && id.abiPath in files && files[id.abiPath] == b.abiJson && a.abiJson != b.abiJson
    ensures ChangedAbis(files, names, [a, b], [id, id], dryRun) == if dryRun then [id.name] else [id.name, id.name]
  {
    var desired, ids := [a, b], [id, id];
    assert desired[..1] == [a] && ids[..1] == [id] && [a][..0] == [] && [id][..0] == [];
    assert WrittenBy([], []) == map[] && WrittenBy([a], [id]) == map[id.abiPath := a.abiJson];
    assert files + map[] == files;
    assert Changes(files, names, [a], [id], 0, dryRun);
    assert ChangedAbis(files, names, [], [], dryRun) == [];
    assert ChangedAbis(files, names, [a], [id], dryRun) == [id.name];
    assert Changes(files, names, desired, ids, 1, dryRun) == !dryRun;
  }

  /** Two keys with one name and one ABI path, whose file holds the second one's ABI: the dry run reports the
      name once as changed, the real run twice, although no name is taken. */
  lemma {:induction false} SharedNameSplits(m: Manifest, managed: seq<ManagedContract>, a: DesiredContract,
                                            b: DesiredContract, id: Identity)
    requires var previous := ByKey(managed);
             && a.key in previous && previous[a.key].name == id.name && previous[a.key].abiPath == id.abiPath
             && b.key in previous && previous[b.key].name == id.name && previous[b.key].abiPath == id.abiPath
    requires id.name in ContractNames(m.contracts) && a.abiJson != b.abiJson
    requires id.abiPath in m.files && m.files[id.abiPath] == b.abiJson
    ensures !Taken(ByKey(managed), ContractNames(m.contracts), [a, b])
    ensures SyncReport(m, managed, [a, b], true).abiUpdated == [id.name]
    ensures SyncReport(m, managed, [a, b], false).abiUpdated == [id.name, id.name]
  {
    var previous, names := ByKey(managed), ContractNames(m.contracts);
    assert !Taken(previous, names, [a, b]);
    hide *;
    SyncIdsAre(m, managed, [a, b]);
    TwoKnown(previous, names, a, b);
    ReportedAbisAre(m, managed, [a, b], true);
    ReportedAbisAre(m, managed, [a, b], false);
    TwoChanged(m.files, names, a, b, id, true);
    TwoChanged(m.files, names, a, b, id, false);
  }

  lemma ReportedAbisAre(m: Manifest, managed: seq<ManagedContract>, desired: seq<DesiredContract>, dryRun: bool)
    ensures SyncReport(m, managed, desired, dryRun).abiUpdated ==
            ChangedAbis(m.files, ContractNames(m.contracts), desired, SyncIds(m, managed, desired), dryRun)
  {
    RunMatches(m, managed, desired, dryRun);
    hide Run, SyncIds, Assignments, Added, Updated, ChangedAbis, WrittenBy, Stale;
  }

  /** What is written at a path is the ABI of some contract with that path. */
  lemma {:induction false} WrittenAt(desired: seq<DesiredContract>, ids: seq<Identity>, path: string)
    requires |ids| == |desired|
    ensures path in WrittenBy(desired, ids) <==> exists i | 0 <= i < |ids| :: ids[i].abiPath == path
    ensures path in WrittenBy(desired, ids) ==>
              exists i | 0 <= i < |ids| :: ids[i].abiPath == path && WrittenBy(desired, ids)[path] == desired[i].abiJson
  {
    if desired != [] {
      var n := |desired| - 1;
      WrittenAt(desired[..n], ids[..n], path);
      var init, all := WrittenBy(desired[..n], ids[..n]), WrittenBy(desired, ids);
      assert all == init[ids[n].abiPath := desired[n].abiJson];
      hide WrittenBy;
      if ids[n].abiPath != path && path in init {
        var i :| 0 <= i < n && ids[..n][i].abiPath == path && init[path] == desired[..n][i].abiJson;
        assert ids[i].abiPath == path && all[path] == desired[i].abiJson;
      }
      if i :| 0 <= i < |ids| && ids[i].abiPath == path && ids[n].abiPath != path {
        assert ids[..n][i].abiPath == path;
      }
    }
  }

  ghost predicate DistinctPaths(ids: seq<Identity>) {
    forall i, j | 0 <= i < j < |ids| :: ids[i].abiPath != ids[j].abiPath
  }

  lemma OwnPathsDoNotSplit(files: map<string, string>, names: set<string>, desired: seq<DesiredContract>,
                           ids: seq<Identity>, j: nat)
    requires |ids| == |desired| && j < |ids| && DistinctPaths(ids) && !Clash(names, ids)
    ensures !Splits(files, names, desired, ids, j)
  {
    WrittenAt(desired[..j], ids[..j], ids[j].abiPath);
    hide WrittenBy;
  }

  /** With ABI paths of their own, and no name taken, the whole report of a dry run is that of the real run. */
  lemma {:induction false} DryRunIsExact(m: Manifest, managed: seq<ManagedContract>, desired: seq<DesiredContract>)
    requires !Taken(ByKey(managed), ContractNames(m.contracts), desired) && DistinctPaths(SyncIds(m, managed, desired))
    ensures SyncReport(m, managed, desired, true) == SyncReport(m, managed, desired, false)
  {
    var ids, names := SyncIds(m, managed, desired), ContractNames(m.contracts);
    hide *;
    SyncIdsAre(m, managed, desired);
    ClashIsTaken(ByKey(managed), names, desired);
    DryRunReportsTheSame(m, managed, desired);
    forall j | 0 <= j < |ids| ensures !Splits(m.files, names, desired, ids, j) {
      OwnPathsDoNotSplit(m.files, names, desired, ids, j);
    }
    DryRunAbisExactly(m, managed, desired);
  }

  lemma NotReusedIsNotTaken(previous: map<string, ManagedContract>, names: set<string>, desired: seq<DesiredContract>)
    ensures Taken(previous, names, desired) ==> Reused(previous, names, desired)
  {
    hide Ids, NamesIn;
  }

  // ----- what the lists of a report mean

  /** A contract is reported as stale if and only if it is managed and stands in the manifest, but its key is not
      discovered any more. */
  lemma {:induction false} StaleExactly(m: Manifest, managed: seq<ManagedContract>, desired: seq<DesiredContract>,
                                        dryRun: bool, name: string)
    ensures name in SyncReport(m, managed, desired, dryRun).stale <==>
            && (exists c | c in m.contracts :: c.name == name)
            && exists c | c in managed ::
                 c.name == name && forall d | d in desired :: d.key != c.foundryName + ":" + c.artifactPath
  {
    var names, keys := ContractNames(m.contracts), Keys(desired);
    assert SyncReport(m, managed, desired, dryRun).stale == Stale(managed, keys, names);
    hide Run, Stale;
    forall c: ManagedContract
      ensures ManagedKey(c) !in keys <==> forall d | d in desired :: d.key != c.foundryName + ":" + c.artifactPath
    {
      assert ManagedKey(c) == c.foundryName + ":" + c.artifactPath;
    }
  }

  /** With distinct names and ABI paths, dry or not: a contract's ABI is reported as changed if and only if its entry
      stands in the manifest and its file is missing or holds another ABI. */
  lemma {:induction false} AbiReportedExactly(m: Manifest, managed: seq<ManagedContract>, desired: seq<DesiredContract>,
                                              dryRun: bool, j: nat)
    requires !Reused(ByKey(managed), ContractNames(m.contracts), desired)
    requires DistinctPaths(SyncIds(m, managed, desired)) && j < |desired|
    ensures var id := SyncIds(m, managed, desired)[j];
            id.name in SyncReport(m, managed, desired, dryRun).abiUpdated <==>
            && (exists c | c in m.contracts :: c.name == id.name)
            && (id.abiPath !in m.files || m.files[id.abiPath] != desired[j].abiJson)
  {
    var ids, names := SyncIds(m, managed, desired), ContractNames(m.contracts);
    assert ids[j].name in names <==> exists c | c in m.contracts :: c.name == ids[j].name;
    hide *;
    SyncIdsAre(m, managed, desired);
    DistinctIsNotReused(ByKey(managed), names, desired);
    ReportedAbisAre(m, managed, desired, dryRun);
    ChangedAbisMembers(m.files, names, desired, ids, dryRun);
    OwnFileFound(m.files, names, desired, ids, j, dryRun);
  }

  lemma OwnFileFound(files: map<string, string>, names: set<string>, desired: seq<DesiredContract>, ids: seq<Identity>,
                     j: nat, dryRun: bool)
    requires |ids| == |desired| && j < |ids| && DistinctNames(ids) && DistinctPaths(ids)
    ensures Changes(files, names, desired, ids, j, dryRun) <==>
            ids[j].name in names && (ids[j].abiPath !in files || files[ids[j].abiPath] != desired[j].abiJson)
  {
    WrittenAt(desired[..j], ids[..j], ids[j].abiPath);
    hide WrittenBy;
    assert forall i | 0 <= i < j :: ids[..j][i] == ids[i];
    assert ids[j].name !in NamesIn(ids[..j]);
  }
}
