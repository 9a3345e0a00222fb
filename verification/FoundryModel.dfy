/** Projects, discoveries and origins of a Foundry import, and how a contract is written to the manifest. */
module FoundryModel {
  import opened Options
  import opened BlockLists
  import opened FreshNames

  datatype Deployment = Deployment(chainId: nat, address: nat, startBlock: nat)

  /** A deployed contract with events, as found in a Foundry project. */
  datatype DesiredContract = DesiredContract(
    key: string,
    name: string,
    foundryName: string,
    artifactPath: string,
    abiPath: string,
    abiJson: string,
    eventNames: seq<string>,
    deployments: seq<Deployment>)

  datatype ManagedDeployment = ManagedDeployment(chainId: nat, network: string, address: nat, startBlock: nat)

  /** What the origin file remembers of a contract that an import manages. */
  datatype ManagedContract = ManagedContract(
    name: string,
    foundryName: string,
    artifactPath: string,
    abiPath: string,
    deployments: seq<ManagedDeployment>)

  datatype Identity = Identity(name: string, abiPath: string)

  /** The settings of a network stand for everything in it that a user may edit; a generated one has none. */
  datatype Network = Network(name: string, chainId: nat, settings: Option<nat>)

  datatype Addresses = Value(address: nat) | Array(addresses: seq<nat>)

  /** `edits` stands for filters, factory and end block, which a generated entry does not have. */
  datatype Details = Details(network: string, addresses: Addresses, startBlock: nat, edits: Option<nat>)

  datatype ContractEvent = ContractEvent(name: string, timestamps: Option<bool>)

  /** The parts of a contract that a sync preserves. */
  datatype Extensions = Extensions(
    indexEventInOrder: Option<nat>,
    dependencyEvents: Option<nat>,
    reorgSafeDistance: Option<nat>,
    generateCsv: Option<bool>,
    streams: Option<nat>,
    chat: Option<nat>,
    tables: Option<nat>)

  const EMPTY_EXTENSIONS := Extensions(None, None, None, None, None, None, None)

  datatype Contract = Contract(
    name: string,
    details: seq<Details>,
    abi: string,
    includeEvents: Option<seq<ContractEvent>>,
    extensions: Extensions)

  /** The manifest's networks and contracts, and the project's files. */
  datatype Manifest = Manifest(networks: seq<Network>, contracts: seq<Contract>, files: map<string, string>)

  // ----- names and keys

  function KeyOf(foundryName: string, artifactPath: string): string { foundryName + ":" + artifactPath }

  function ManagedKey(c: ManagedContract): string { KeyOf(c.foundryName, c.artifactPath) }

  function AbiPath(name: string): string { "abis/" + name + ".abi.json" }

  function ContractNames(contracts: seq<Contract>): set<string> {
    set c | c in contracts :: c.name
  }

  function KnownChain(chainId: nat): Option<string> {
    match chainId
    case 1 => Some("ethereum")
    case 10 => Some("optimism")
    case 25 => Some("cronos")
    case 56 => Some("bsc")
    case 100 => Some("gnosis")
    case 130 => Some("unichain")
    case 1301 => Some("unichain_sepolia")
    case 137 => Some("polygon")
    case 146 => Some("sonic")
    case 8453 => Some("base")
    case 31337 => Some("anvil")
    case 42161 => Some("arbitrum")
    case 42220 => Some("celo")
    case 43114 => Some("avalanche")
    case 59144 => Some("linea")
    case 81457 => Some("blast")
    case 534352 => Some("scroll")
    case 80002 => Some("polygon_amoy")
    case 84532 => Some("base_sepolia")
    case 421614 => Some("arbitrum_sepolia")
    case 11155111 => Some("sepolia")
    case 11155420 => Some("optimism_sepolia")
    case _ => None
  }

  function DefaultNetworkName(chainId: nat): string {
    var known := KnownChain(chainId);
    if known.Some? then known.value else "chain_" + Decimal(chainId)
  }

  // ----- networks

  predicate HasChain(networks: seq<Network>, chainId: nat) {
    exists n | n in networks :: n.chainId == chainId
  }

  function NetworkNames(networks: seq<Network>): set<string> {
    set n | n in networks :: n.name
  }

  /** Adds a network for every chain that has none, under a name that is not taken. */
  function AddNetworks(networks: seq<Network>, names: set<string>, chains: seq<nat>): seq<Network>
    decreases |chains|
  {
    if chains == [] then networks
    else if HasChain(networks, chains[0]) then AddNetworks(networks, names, chains[1..])
    else
      var name := UniqueName(DefaultNetworkName(chains[0]), names);
      AddNetworks(networks + [Network(name, chains[0], None)], names + {name}, chains[1..])
  }

  function ChainIds(deployments: seq<Deployment>): (r: seq<nat>)
    ensures forall c :: c in r <==> exists d | d in deployments :: d.chainId == c
  {
    if deployments == [] then []
    else
      assert forall d :: d in deployments <==> d == deployments[0] || d in deployments[1..];
      [deployments[0].chainId] + ChainIds(deployments[1..])
  }

  function AllChainIds(contracts: seq<DesiredContract>): seq<nat> {
    if contracts == [] then [] else ChainIds(contracts[0].deployments) + AllChainIds(contracts[1..])
  }

  function WithNetworks(networks: seq<Network>, contracts: seq<DesiredContract>): seq<Network> {
    AddNetworks(networks, NetworkNames(networks), SortDedup(AllChainIds(contracts)))
  }

  method BuildDefaultNetworks(contracts: seq<DesiredContract>,
                              existing: Option<seq<Network>>) returns (networks: seq<Network>)
    ensures networks == WithNetworks(if existing.Some? then existing.value else [], contracts)
  {
    var chains := SortDedup(AllChainIds(contracts));
    networks := if existing.Some? then existing.value else [];
    var names := NetworkNames(networks);
    ghost var all := AddNetworks(networks, names, chains);
    assert chains[0..] == chains;
    hide SortDedup, DefaultNetworkName;
    for i := 0 to |chains|
      invariant AddNetworks(networks, names, chains[i..]) == all
    {
      assert chains[i..][1..] == chains[i + 1..];
      var chainId := chains[i];
      if !HasChain(networks, chainId) {
        var name := DefaultNetworkName(chainId);
        if name in names {
          name := FindUniqueName(name, names);
        }
        names := names + {name};
        networks := networks + [Network(name, chainId, None)];
      }
    }
  }

  ghost predicate DistinctNetworks(networks: seq<Network>) {
    forall i, j | 0 <= i < j < |networks| :: networks[i].name != networks[j].name
  }

  /** Existing networks stay first and as they are, every chain gets a network, and a new name is never one
      that is taken. */
  lemma {:induction false} AddNetworksMeaning(networks: seq<Network>, names: set<string>, chains: seq<nat>)
    requires NetworkNames(networks) <= names
    ensures var r := AddNetworks(networks, names, chains);
            && networks <= r
            && (forall c | c in chains :: HasChain(r, c))
            && (DistinctNetworks(networks) ==> DistinctNetworks(r))
    decreases |chains|
  {
    if chains != [] {
      hide UniqueName, DefaultNetworkName;
      if HasChain(networks, chains[0]) {
        AddNetworksMeaning(networks, names, chains[1..]);
        HasChainKept(networks, AddNetworks(networks, names, chains[1..]), chains[0]);
      } else {
        var name := UniqueName(DefaultNetworkName(chains[0]), names);
        var more := networks + [Network(name, chains[0], None)];
        NameAdded(networks, Network(name, chains[0], None), names);
        AddNetworksMeaning(more, names + {name}, chains[1..]);
        assert more[|networks|] in more;
        HasChainKept(more, AddNetworks(more, names + {name}, chains[1..]), chains[0]);
      }
    }
  }

  /** What is added: one network for each chain that has none, in their order, without settings, and called by
      the chain's default name if that is free, and otherwise by one that starts with it. */
  lemma {:induction false} AddedNetworks(networks: seq<Network>, names: set<string>, chains: seq<nat>, i: nat)
    requires NetworkNames(networks) <= names && |networks| <= i < |AddNetworks(networks, names, chains)|
    ensures var r := AddNetworks(networks, names, chains);
            && r[i].chainId in chains && !HasChain(r[..i], r[i].chainId) && r[i].settings.None?
            && DefaultNetworkName(r[i].chainId) <= r[i].name
            && (r[i].name == DefaultNetworkName(r[i].chainId) <==>
                DefaultNetworkName(r[i].chainId) !in names + NetworkNames(r[|networks|..i]))
    decreases |chains|
  {
    hide UniqueName, DefaultNetworkName;
    if HasChain(networks, chains[0]) {
      AddedNetworks(networks, names, chains[1..], i);
    } else {
      var name := UniqueName(DefaultNetworkName(chains[0]), names);
      var n := Network(name, chains[0], None);
      var more, r := networks + [n], AddNetworks(networks, names, chains);
      NameAdded(networks, n, names);
      AddNetworksMeaning(more, names + {name}, chains[1..]);
      assert r == AddNetworks(more, names + {name}, chains[1..]) && more <= r;
      hide AddNetworks, HasChain;
      if i == |networks| {
        assert r[i] == more[i] && r[..i] == networks;
        assert r[i..i] == [] && names + NetworkNames([]) == names;
      } else {
        AddedNetworks(more, names + {name}, chains[1..], i);
        assert r[|networks|..i] == [n] + r[|more|..i];
        NamesCons(n, r[|more|..i]);
        assert names + {name} + NetworkNames(r[|more|..i]) == names + NetworkNames(r[|networks|..i]);
      }
    }
  }

  lemma NamesCons(n: Network, rest: seq<Network>)
    ensures NetworkNames([n] + rest) == {n.name} + NetworkNames(rest)
  {
    assert forall x :: x in [n] + rest <==> x == n || x in rest;
  }

  lemma NameAdded(networks: seq<Network>, n: Network, names: set<string>)
    requires NetworkNames(networks) <= names && n.name !in names
    ensures NetworkNames(networks + [n]) <= names + {n.name}
    ensures DistinctNetworks(networks) ==> DistinctNetworks(networks + [n])
  {
    forall i | 0 <= i < |networks| ensures networks[i].name != n.name {
      assert networks[i] in networks;
      assert networks[i].name in NetworkNames(networks);
    }
  }

  lemma HasChainKept(a: seq<Network>, b: seq<Network>, chainId: nat)
    requires a <= b && HasChain(a, chainId)
    ensures HasChain(b, chainId)
  {
    var n :| n in a && n.chainId == chainId;
    assert n in b;
  }

  lemma {:induction false} NothingToAdd(networks: seq<Network>, names: set<string>, chains: seq<nat>)
    requires forall c | c in chains :: HasChain(networks, c)
    ensures AddNetworks(networks, names, chains) == networks
    decreases |chains|
  {
    if chains != [] {
      NothingToAdd(networks, names, chains[1..]);
    }
  }

  /** A second sync adds no networks. */
  lemma {:induction false} NetworksSettle(networks: seq<Network>, contracts: seq<DesiredContract>)
    ensures var r := WithNetworks(networks, contracts); WithNetworks(r, contracts) == r && networks <= r
    ensures DistinctNetworks(networks) ==> DistinctNetworks(WithNetworks(networks, contracts))
  {
    var chains := SortDedup(AllChainIds(contracts));
    var r := WithNetworks(networks, contracts);
    AddNetworksMeaning(networks, NetworkNames(networks), chains);
    NothingToAdd(r, NetworkNames(r), chains);
  }

  /** The name of each chain's network; the last network of a chain wins. */
  function ChainNetworkNames(networks: seq<Network>): map<nat, string> {
    if networks == [] then map[]
    else
      var init, last := networks[..|networks| - 1], networks[|networks| - 1];
      ChainNetworkNames(init)[last.chainId := last.name]
  }

  function NetworkName(names: map<nat, string>, chainId: nat): string {
    if chainId in names then names[chainId] else DefaultNetworkName(chainId)
  }

  // ----- contracts

  function On(deployments: seq<Deployment>, chainId: nat): (r: seq<Deployment>)
    ensures forall d :: d in r <==> d in deployments && d.chainId == chainId
  {
    if deployments == [] then []
    else
      (if deployments[0].chainId == chainId then [deployments[0]] else []) + On(deployments[1..], chainId)
  }

  function AddressList(deployments: seq<Deployment>): (r: seq<nat>)
    ensures |r| == |deployments| && forall i | 0 <= i < |r| :: r[i] == deployments[i].address
  {
    if deployments == [] then [] else [deployments[0].address] + AddressList(deployments[1..])
  }

  /** The earliest start block; 0 if there is no deployment. */
  function EarliestStart(deployments: seq<Deployment>): (r: nat)
    ensures forall d | d in deployments :: r <= d.startBlock
    ensures deployments != [] ==> exists d | d in deployments :: d.startBlock == r
  {
    if deployments == [] then 0
    else if |deployments| == 1 then deployments[0].startBlock
    else
      assert forall d :: d in deployments <==> d == deployments[0] || d in deployments[1..];
      var rest := EarliestStart(deployments[1..]);
      if deployments[0].startBlock <= rest then deployments[0].startBlock else rest
  }

  function DetailsOn(deployments: seq<Deployment>, chainId: nat, names: map<nat, string>): Details {
    var here := On(deployments, chainId);
    var addresses := AddressList(here);
    Details(NetworkName(names, chainId),
            if |addresses| == 1 then Value(addresses[0]) else Array(addresses),
            EarliestStart(here),
            None)
  }

  /** One entry a chain, in the order of chain ids. */
  function DetailsOf(deployments: seq<Deployment>, chains: seq<nat>, names: map<nat, string>): (r: seq<Details>)
    ensures |r| == |chains| && forall i | 0 <= i < |r| :: r[i] == DetailsOn(deployments, chains[i], names)
  {
    hide DetailsOn;
    if chains == [] then [] else [DetailsOn(deployments, chains[0], names)] + DetailsOf(deployments, chains[1..], names)
  }

  function PlainEvents(eventNames: seq<string>): (r: seq<ContractEvent>)
    ensures |r| == |eventNames| && forall i | 0 <= i < |r| :: r[i] == ContractEvent(eventNames[i], None)
  {
    if eventNames == [] then [] else [ContractEvent(eventNames[0], None)] + PlainEvents(eventNames[1..])
  }

  function ContractToManifest(desired: DesiredContract, names: map<nat, string>,
                              extensions: Option<Extensions>, identity: Option<Identity>): Contract {
    Contract(
      if identity.Some? then identity.value.name else desired.name,
      DetailsOf(desired.deployments, SortDedup(ChainIds(desired.deployments)), names),
      "./" + (if identity.Some? then identity.value.abiPath else desired.abiPath),
      Some(PlainEvents(desired.eventNames)),
      if extensions.Some? then extensions.value else EMPTY_EXTENSIONS)
  }

  function AddressesIn(d: Details): seq<nat> {
    match d.addresses
    case Value(address) => [address]
    case Array(addresses) => addresses
  }

  /** All deployments' addresses, chain after chain. */
  ghost function AllAddresses(details: seq<Details>): seq<nat> {
    if details == [] then [] else AddressesIn(details[0]) + AllAddresses(details[1..])
  }

  lemma AddressesOn(deployments: seq<Deployment>, chainId: nat, names: map<nat, string>)
    ensures AddressesIn(DetailsOn(deployments, chainId, names)) == AddressList(On(deployments, chainId))
  {
    var addresses := AddressList(On(deployments, chainId));
    assert |addresses| == 1 ==> addresses == [addresses[0]];
  }

  /** The addresses that a manifest entry lists for some chains, each as often as it is listed. */
  ghost function Listed(deployments: seq<Deployment>, chains: seq<nat>, names: map<nat, string>): multiset<nat> {
    multiset(AllAddresses(DetailsOf(deployments, chains, names)))
  }

  lemma ListedCons(deployments: seq<Deployment>, chains: seq<nat>, names: map<nat, string>)
    requires chains != []
    ensures Listed(deployments, chains, names) ==
            multiset(AddressList(On(deployments, chains[0]))) + Listed(deployments, chains[1..], names)
  {
    AddressesOn(deployments, chains[0], names);
    var details := DetailsOf(deployments, chains, names);
    hide DetailsOn, AddressesIn, On, AddressList;
    assert details[1..] == DetailsOf(deployments, chains[1..], names);
    assert AllAddresses(details) == AddressesIn(details[0]) + AllAddresses(details[1..]);
  }

  lemma OneMoreHere(d: Deployment, deployments: seq<Deployment>, chainId: nat)
    ensures multiset(AddressList(On([d] + deployments, chainId))) ==
            multiset(AddressList(On(deployments, chainId))) +
            (if d.chainId == chainId then multiset{d.address} else multiset{})
  {
    assert ([d] + deployments)[1..] == deployments;
    var here := On(deployments, chainId);
    if d.chainId == chainId {
      assert On([d] + deployments, chainId) == [d] + here;
      assert ([d] + here)[1..] == here;
      assert AddressList([d] + here) == [d.address] + AddressList(here);
    } else {
      assert [] + here == here;
    }
  }

  /** One more deployment adds its address to the entry of its chain, and changes no other. */
  lemma {:induction false} OneMore(d: Deployment, deployments: seq<Deployment>, chains: seq<nat>,
                                   names: map<nat, string>)
    requires Increasing(chains)
    ensures Listed([d] + deployments, chains, names) ==
            Listed(deployments, chains, names) + (if d.chainId in chains then multiset{d.address} else multiset{})
  {
    if chains == [] {
      NothingListed([d] + deployments, names);
      NothingListed(deployments, names);
    } else {
      hide *;
      IncreasingTail(chains);
      OneMore(d, deployments, chains[1..], names);
      OneMoreHere(d, deployments, chains[0]);
      ListedCons([d] + deployments, chains, names);
      ListedCons(deployments, chains, names);
    }
  }

  lemma NothingListed(deployments: seq<Deployment>, names: map<nat, string>)
    ensures Listed(deployments, [], names) == multiset{}
  {
  }

  lemma {:induction false} NoneDeployed(chains: seq<nat>, names: map<nat, string>)
    ensures Listed([], chains, names) == multiset{}
  {
    if chains == [] {
      NothingListed([], names);
    } else {
      ListedCons([], chains, names);
      NoneDeployed(chains[1..], names);
      hide Listed;
      assert On([], chains[0]) == [] && AddressList([]) == [];
    }
  }

  ghost predicate Covers(chains: seq<nat>, deployments: seq<Deployment>) {
    forall d | d in deployments :: d.chainId in chains
  }

  lemma CoversTail(chains: seq<nat>, deployments: seq<Deployment>)
    requires deployments != [] && Covers(chains, deployments)
    ensures deployments[0].chainId in chains && Covers(chains, deployments[1..])
  {
    assert deployments[0] in deployments && forall x | x in deployments[1..] :: x in deployments;
  }

  lemma AddressCons(d: Deployment, rest: seq<Deployment>)
    ensures multiset(AddressList([d] + rest)) == multiset(AddressList(rest)) + multiset{d.address}
  {
    assert ([d] + rest)[1..] == rest;
    assert AddressList([d] + rest) == [d.address] + AddressList(rest);
  }

  lemma NoAddresses()
    ensures multiset(AddressList([])) == multiset{}
  {
  }

  lemma ListedNext(d: Deployment, rest: seq<Deployment>, chains: seq<nat>, names: map<nat, string>)
    requires Increasing(chains) && d.chainId in chains
    requires Listed(rest, chains, names) == multiset(AddressList(rest))
    ensures Listed([d] + rest, chains, names) == multiset(AddressList([d] + rest))
  {
    hide *;
    OneMore(d, rest, chains, names);
    AddressCons(d, rest);
  }

  lemma {:induction false} ListedAll(deployments: seq<Deployment>, chains: seq<nat>, names: map<nat, string>)
    requires Increasing(chains) && Covers(chains, deployments)
    ensures Listed(deployments, chains, names) == multiset(AddressList(deployments))
  {
    hide *;
    if deployments == [] {
      NoneDeployed(chains, names);
      NoAddresses();
    } else {
      var d, rest := deployments[0], deployments[1..];
      CoversTail(chains, deployments);
      ListedAll(rest, chains, names);
      ListedNext(d, rest, chains, names);
      assert deployments == [d] + rest;
    }
  }

  /** The manifest entry lists exactly the deployed addresses, with one details entry a chain. */
  lemma {:induction false} DetailsConserveDeployments(desired: DesiredContract, names: map<nat, string>,
                                   extensions: Option<Extensions>, identity: Option<Identity>)
    ensures multiset(AllAddresses(ContractToManifest(desired, names, extensions, identity).details)) ==
            multiset(AddressList(desired.deployments))
  {
    var chains := SortDedup(ChainIds(desired.deployments));
    SortDedupMeaning(ChainIds(desired.deployments));
    hide SortDedup;
    ListedAll(desired.deployments, chains, names);
  }

  // ----- what an entry says

  /** The network of a chain: the last one of the list that has its id. */
  ghost predicate NetworkOf(networks: seq<Network>, chainId: nat, name: string) {
    exists i | 0 <= i < |networks| ::
      && networks[i].chainId == chainId && networks[i].name == name
      && forall j | i < j < |networks| :: networks[j].chainId != chainId
  }

  /** The entry is for this chain: it names the chain's network, lists the addresses deployed there and no others, a
      single one without a list, and starts at the earliest of their start blocks. Nothing in it is edited. */
  ghost predicate DescribesChain(x: Details, chainId: nat, deployments: seq<Deployment>, networks: seq<Network>) {
    && NetworkOf(networks, chainId, x.network)
    && (forall a :: a in AddressesIn(x) <==> exists d | d in deployments :: d.chainId == chainId && d.address == a)
    && (x.addresses.Value? <==> |AddressesIn(x)| == 1)
    && (forall d | d in deployments && d.chainId == chainId :: x.startBlock <= d.startBlock)
    && (exists d | d in deployments :: d.chainId == chainId && d.startBlock == x.startBlock)
    && x.edits.None?
  }

  /** One entry for each chain with deployments, in the order of chain ids. */
  ghost predicate DescribesAll(details: seq<Details>, deployments: seq<Deployment>, networks: seq<Network>) {
    exists chains: seq<nat> ::
      && |chains| == |details| && Increasing(chains)
      && (forall c :: c in chains <==> exists d | d in deployments :: d.chainId == c)
      && forall i | 0 <= i < |details| :: DescribesChain(details[i], chains[i], deployments, networks)
  }

  /** The contract has this name and ABI path, the events of the discovery in their order and without a setting of
      their own, and details for each chain. */
  ghost predicate Describes(c: Contract, desired: DesiredContract, id: Identity, networks: seq<Network>) {
    && c.name == id.name && c.abi == "./" + id.abiPath
    && c.includeEvents.Some? && |c.includeEvents.value| == |desired.eventNames|
    && (forall i | 0 <= i < |desired.eventNames| ::
          c.includeEvents.value[i].name == desired.eventNames[i] && c.includeEvents.value[i].timestamps.None?)
    && DescribesAll(c.details, desired.deployments, networks)
  }

  lemma {:induction false} ChainNetworkNamesMeaning(networks: seq<Network>, chainId: nat)
    ensures chainId in ChainNetworkNames(networks) <==> HasChain(networks, chainId)
    ensures chainId in ChainNetworkNames(networks) ==>
              NetworkOf(networks, chainId, ChainNetworkNames(networks)[chainId])
  {
    if networks != [] {
      var init, last := networks[..|networks| - 1], networks[|networks| - 1];
      ChainNetworkNamesMeaning(init, chainId);
      assert networks == init + [last] && last in networks;
      var names := ChainNetworkNames(init);
      assert ChainNetworkNames(networks) == names[last.chainId := last.name];
      hide ChainNetworkNames;
      if last.chainId == chainId {
        assert networks[|networks| - 1].chainId == chainId && networks[|networks| - 1].name == last.name;
      } else if chainId in names {
        var i :| 0 <= i < |init| && init[i].chainId == chainId && init[i].name == names[chainId] &&
                 forall j | i < j < |init| :: init[j].chainId != chainId;
        assert networks[i] == init[i];
        assert forall j | i < j < |networks| :: networks[j].chainId != chainId;
      }
    }
  }

  lemma AddressesHere(deployments: seq<Deployment>, chainId: nat, a: nat)
    ensures a in AddressList(On(deployments, chainId)) <==>
            exists d | d in deployments :: d.chainId == chainId && d.address == a
  {
    var here := On(deployments, chainId);
    var addresses := AddressList(here);
    hide On, AddressList;
    if a in addresses {
      var k :| 0 <= k < |addresses| && addresses[k] == a;
      assert here[k] in here;
    }
    if d :| d in deployments && d.chainId == chainId && d.address == a {
      var k :| 0 <= k < |here| && here[k] == d;
      assert addresses[k] == a;
    }
  }

  lemma EarliestHere(deployments: seq<Deployment>, chainId: nat)
    requires exists d | d in deployments :: d.chainId == chainId
    ensures forall d | d in deployments && d.chainId == chainId ::
              EarliestStart(On(deployments, chainId)) <= d.startBlock
    ensures exists d | d in deployments ::
              d.chainId == chainId && d.startBlock == EarliestStart(On(deployments, chainId))
  {
    var here := On(deployments, chainId);
    hide On, EarliestStart;
    var d :| d in deployments && d.chainId == chainId;
    assert d in here;
  }

  lemma DetailsParts(deployments: seq<Deployment>, chainId: nat, names: map<nat, string>)
    requires chainId in names
    ensures var x := DetailsOn(deployments, chainId, names);
            && x.network == names[chainId] && x.edits.None?
            && AddressesIn(x) == AddressList(On(deployments, chainId))
            && (x.addresses.Value? <==> |AddressesIn(x)| == 1)
            && x.startBlock == EarliestStart(On(deployments, chainId))
  {
    AddressesOn(deployments, chainId, names);
    hide On, AddressList, EarliestStart;
  }

  lemma DetailsDescribe(deployments: seq<Deployment>, chainId: nat, networks: seq<Network>)
    requires HasChain(networks, chainId) && exists d | d in deployments :: d.chainId == chainId
    ensures DescribesChain(DetailsOn(deployments, chainId, ChainNetworkNames(networks)), chainId, deployments, networks)
  {
    hide ChainNetworkNames, On, AddressList, EarliestStart, NetworkOf, AddressesIn, DetailsOn, HasChain;
    ChainNetworkNamesMeaning(networks, chainId);
    DetailsParts(deployments, chainId, ChainNetworkNames(networks));
    EarliestHere(deployments, chainId);
    forall a: nat
      ensures a in AddressList(On(deployments, chainId)) <==>
              exists d | d in deployments :: d.chainId == chainId && d.address == a
    {
      AddressesHere(deployments, chainId, a);
    }
  }

  lemma DetailsDescribeAll(deployments: seq<Deployment>, networks: seq<Network>)
    requires forall d | d in deployments :: HasChain(networks, d.chainId)
    ensures DescribesAll(DetailsOf(deployments, SortDedup(ChainIds(deployments)), ChainNetworkNames(networks)),
                         deployments, networks)
  {
    var chains, names := SortDedup(ChainIds(deployments)), ChainNetworkNames(networks);
    SortDedupMeaning(ChainIds(deployments));
    var details := DetailsOf(deployments, chains, names);
    hide SortDedup, ChainIds, DetailsOn, DescribesChain, HasChain;
    forall i | 0 <= i < |details| ensures DescribesChain(details[i], chains[i], deployments, networks) {
      assert chains[i] in chains;
      DetailsDescribe(deployments, chains[i], networks);
    }
  }

  /** What is written for a contract describes it. */
  lemma {:induction false} EntryDescribes(desired: DesiredContract, networks: seq<Network>,
                                          extensions: Option<Extensions>, id: Identity)
    requires forall d | d in desired.deployments :: HasChain(networks, d.chainId)
    ensures Describes(ContractToManifest(desired, ChainNetworkNames(networks), extensions, Some(id)), desired, id,
            networks)
  {
    hide *;
    DetailsDescribeAll(desired.deployments, networks);
    EntryParts(desired, ChainNetworkNames(networks), extensions, id);
    var c := ContractToManifest(desired, ChainNetworkNames(networks), extensions, Some(id));
    DescribedParts(c, desired, id, networks);
  }

  lemma EntryParts(desired: DesiredContract, names: map<nat, string>, extensions: Option<Extensions>, id: Identity)
    ensures var c := ContractToManifest(desired, names, extensions, Some(id));
            && c.name == id.name && c.abi == "./" + id.abiPath
            && c.includeEvents == Some(PlainEvents(desired.eventNames))
            && c.details == DetailsOf(desired.deployments, SortDedup(ChainIds(desired.deployments)), names)
  {
    hide DetailsOf, SortDedup, ChainIds, PlainEvents;
  }

  lemma DescribedParts(c: Contract, desired: DesiredContract, id: Identity, networks: seq<Network>)
    requires c.name == id.name && c.abi == "./" + id.abiPath
    requires c.includeEvents == Some(PlainEvents(desired.eventNames))
    requires DescribesAll(c.details, desired.deployments, networks)
    ensures Describes(c, desired, id, networks)
  {
    hide DescribesAll, PlainEvents;
  }

  lemma {:induction false} AllChainsKnown(networks: seq<Network>, contracts: seq<DesiredContract>)
    ensures forall c, d | c in contracts && d in c.deployments :: HasChain(WithNetworks(networks, contracts), d.chainId)
  {
    var all := AllChainIds(contracts);
    SortDedupMeaning(all);
    AddNetworksMeaning(networks, NetworkNames(networks), SortDedup(all));
    hide AddNetworks, SortDedup, HasChain, AllChainIds;
    forall c, d | c in contracts && d in c.deployments ensures HasChain(WithNetworks(networks, contracts), d.chainId) {
      ChainAmongAll(contracts, c, d);
    }
  }

  lemma {:induction false} ChainAmongAll(contracts: seq<DesiredContract>, c: DesiredContract, d: Deployment)
    requires c in contracts && d in c.deployments
    ensures d.chainId in AllChainIds(contracts)
  {
    if c == contracts[0] {
      assert d.chainId in ChainIds(c.deployments);
    } else {
      ChainAmongAll(contracts[1..], c, d);
    }
  }

  lemma {:induction false} AddedFollow(networks: seq<Network>, names: set<string>, chains: seq<nat>, i: nat, j: nat)
    requires Increasing(chains) && NetworkNames(networks) <= names
    requires |networks| <= i < j < |AddNetworks(networks, names, chains)|
    ensures AddNetworks(networks, names, chains)[i].chainId < AddNetworks(networks, names, chains)[j].chainId
    decreases |chains|
  {
    hide UniqueName, DefaultNetworkName;
    IncreasingTail(chains);
    if HasChain(networks, chains[0]) {
      AddedFollow(networks, names, chains[1..], i, j);
    } else {
      var name := UniqueName(DefaultNetworkName(chains[0]), names);
      var n := Network(name, chains[0], None);
      var more, r := networks + [n], AddNetworks(networks, names, chains);
      NameAdded(networks, n, names);
      AddNetworksMeaning(more, names + {name}, chains[1..]);
      assert r == AddNetworks(more, names + {name}, chains[1..]) && more <= r;
      hide AddNetworks;
      if i == |networks| {
        assert r[i] == more[i] == n;
        AddedNetworks(more, names + {name}, chains[1..], j);
        var k :| 0 <= k < |chains[1..]| && chains[1..][k] == r[j].chainId;
        assert chains[k + 1] == r[j].chainId;
      } else {
        AddedFollow(more, names + {name}, chains[1..], i, j);
      }
    }
  }

  /** A sync keeps the networks and adds, in the order of chain ids, one for each deployed chain that has none, without
      settings, called by the chain's default name if that is free, and otherwise by one that starts with it. */
  lemma {:induction false} WithNetworksMeaning(networks: seq<Network>, contracts: seq<DesiredContract>, i: nat)
    requires |networks| <= i < |WithNetworks(networks, contracts)|
    ensures var r := WithNetworks(networks, contracts);
            && networks <= r
            && (exists c, d | c in contracts && d in c.deployments :: d.chainId == r[i].chainId)
            && !HasChain(r[..i], r[i].chainId) && r[i].settings.None?
            && (forall j | i < j < |r| :: r[i].chainId < r[j].chainId)
            && DefaultNetworkName(r[i].chainId) <= r[i].name
            && (r[i].name == DefaultNetworkName(r[i].chainId) <==>
                 forall j | 0 <= j < i :: r[j].name != DefaultNetworkName(r[i].chainId))
  {
    var all, names, r := AllChainIds(contracts), NetworkNames(networks), WithNetworks(networks, contracts);
    SortDedupMeaning(all);
    var chains := SortDedup(all);
    AddNetworksMeaning(networks, names, chains);
    AddedNetworks(networks, names, chains, i);
    hide AddNetworks, SortDedup, AllChainIds, HasChain, DefaultNetworkName;
    forall j | i < j < |r| ensures r[i].chainId < r[j].chainId {
      AddedFollow(networks, names, chains, i, j);
    }
    DeployedAmongAll(contracts, r[i].chainId);
    NamesBefore(networks, r, i, DefaultNetworkName(r[i].chainId));
  }

  lemma NamesBefore(networks: seq<Network>, r: seq<Network>, i: nat, name: string)
    requires networks <= r && |networks| <= i < |r|
    ensures name !in NetworkNames(networks) + NetworkNames(r[|networks|..i]) <==>
            forall j | 0 <= j < i :: r[j].name != name
  {
    var later := r[|networks|..i];
    forall j | 0 <= j < i ensures r[j] in networks || r[j] in later {
      if j < |networks| {
        assert networks[j] == r[j];
      } else {
        assert later[j - |networks|] == r[j];
      }
    }
    forall n | n in networks ensures exists j | 0 <= j < i :: r[j] == n {
      var j :| 0 <= j < |networks| && networks[j] == n;
      assert r[j] == n;
    }
    forall n | n in later ensures exists j | 0 <= j < i :: r[j] == n {
      var j :| 0 <= j < |later| && later[j] == n;
      assert r[j + |networks|] == n;
    }
  }

  lemma {:induction false} DeployedAmongAll(contracts: seq<DesiredContract>, chainId: nat)
    requires chainId in AllChainIds(contracts)
    ensures exists c, d | c in contracts && d in c.deployments :: d.chainId == chainId
  {
    if chainId in ChainIds(contracts[0].deployments) {
      var d :| d in contracts[0].deployments && d.chainId == chainId;
      assert contracts[0] in contracts;
    } else {
      DeployedAmongAll(contracts[1..], chainId);
      var c, d :| c in contracts[1..] && d in c.deployments && d.chainId == chainId;
      assert c in contracts;
    }
  }

  // ----- default names

  /** The known chains with their names. */
  const KNOWN_CHAINS: seq<(nat, string)> := [
    (1, "ethereum"), (10, "optimism"), (25, "cronos"), (56, "bsc"), (100, "gnosis"), (130, "unichain"),
    (1301, "unichain_sepolia"), (137, "polygon"), (146, "sonic"), (8453, "base"), (31337, "anvil"),
    (42161, "arbitrum"), (42220, "celo"), (43114, "avalanche"), (59144, "linea"), (81457, "blast"),
    (534352, "scroll"), (80002, "polygon_amoy"), (84532, "base_sepolia"), (421614, "arbitrum_sepolia"),
    (11155111, "sepolia"), (11155420, "optimism_sepolia")]

  /** Every chain of the table has its name there, and the others are called after their number. */
  lemma {:induction false} DefaultNames(i: nat, chainId: nat)
    ensures i < |KNOWN_CHAINS| ==> DefaultNetworkName(KNOWN_CHAINS[i].0) == KNOWN_CHAINS[i].1
    ensures (forall k | 0 <= k < |KNOWN_CHAINS| :: KNOWN_CHAINS[k].0 != chainId) ==>
              DefaultNetworkName(chainId) == "chain_" + Decimal(chainId)
  {
    hide Decimal;
    if forall k | 0 <= k < |KNOWN_CHAINS| :: KNOWN_CHAINS[k].0 != chainId {
      forall k | 0 <= k < 22 ensures KNOWN_CHAINS[k].0 != chainId {
      }
      UnknownChain(chainId);
    }
  }

  lemma UnknownChain(chainId: nat)
    requires forall k | 0 <= k < 22 :: KNOWN_CHAINS[k].0 != chainId
    ensures KnownChain(chainId) == None
  {
    assert KNOWN_CHAINS[0].0 == 1 && KNOWN_CHAINS[1].0 == 10 && KNOWN_CHAINS[2].0 == 25 && KNOWN_CHAINS[3].0 == 56;
    assert KNOWN_CHAINS[4].0 == 100 && KNOWN_CHAINS[5].0 == 130 && KNOWN_CHAINS[6].0 == 1301;
    assert KNOWN_CHAINS[7].0 == 137 && KNOWN_CHAINS[8].0 == 146 && KNOWN_CHAINS[9].0 == 8453;
    assert KNOWN_CHAINS[10].0 == 31337 && KNOWN_CHAINS[11].0 == 42161 && KNOWN_CHAINS[12].0 == 42220;
    assert KNOWN_CHAINS[13].0 == 43114 && KNOWN_CHAINS[14].0 == 59144 && KNOWN_CHAINS[15].0 == 81457;
    assert KNOWN_CHAINS[16].0 == 534352 && KNOWN_CHAINS[17].0 == 80002 && KNOWN_CHAINS[18].0 == 84532;
    assert KNOWN_CHAINS[19].0 == 421614 && KNOWN_CHAINS[20].0 == 11155111 && KNOWN_CHAINS[21].0 == 11155420;
  }
}
