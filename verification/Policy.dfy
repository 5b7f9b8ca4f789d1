/**
 From configuration sections to one user's policy: GetUserConfig merges the global section, the
 sections of the user's groups and the user's own section into a table of networks and ports.
 */
module Policy {
  import opened Wrappers
  import opened Sequences
  import opened Iptables
  import opened Sorting

  datatype Flag = NotSet | Off | On | All

  datatype Kind = GlobalSection | GroupSection | UserSection

  datatype Route = Route(network: Network, ports: seq<nat>)

  datatype Subnet = Subnet(name: string, ports: seq<nat>)

  datatype Section = Section(
    kind: Kind, name: string, order: nat,
    subnets: seq<Subnet>, routes: seq<Route>, natRoutes: seq<Route>, nat_: Flag, dns: Flag)

  datatype Config = Config(global: Section, groups: map<string, Section>, users: map<string, Section>)

  datatype NetworkInfo = NetworkInfo(subnets: map<string, Network>, nat_: seq<Network>)

  datatype UserConfig = UserConfig(dns: Flag, routes: seq<Route>)

  type Table = map<Network, set<nat>>

  // What reading a configuration file guarantees: see ConfigFile.
  ghost predicate Ordered(c: Config) {
    && c.global.kind.GlobalSection?
    && (forall g | g in c.groups :: c.groups[g].kind.GroupSection?)
    && (forall u | u in c.users :: c.users[u].kind.UserSection?)
    && forall g, h | g in c.groups && h in c.groups && g != h :: c.groups[g].order != c.groups[h].order
  }

  // The less function of the sort: by kind, then by order of declaration.
  predicate Before(a: Section, b: Section) {
    if a.kind != b.kind then a.kind.GlobalSection? || b.kind.UserSection? else a.order < b.order
  }

  // The sections that apply to a user, as a set: neither order nor repetition of the groups shows in it.
  ghost function Applicable(c: Config, user: string, groups: set<string>): set<Section> {
    {c.global} + (set g | g in groups && g in c.groups :: c.groups[g]) + if user in c.users then {c.users[user]} else {}
  }

  ghost predicate Denied(c: Config, user: string, groups: set<string>) {
    user !in c.users && groups !! c.groups.Keys
  }

  datatype Aspect = Dns | Nat

  function Setting(s: Section, aspect: Aspect): Flag {
    match aspect
    case Dns => s.dns
    case Nat => s.nat_
  }

  // The last section in order that sets the aspect decides it; the fallback holds if none does.
  ghost predicate Decides(sections: set<Section>, aspect: Aspect, fallback: Flag, value: Flag) {
    || (value == fallback && forall s | s in sections :: Setting(s, aspect).NotSet?)
    || exists s :: s in sections && !Setting(s, aspect).NotSet? && value == Setting(s, aspect)
        && forall t | t in sections && !Setting(t, aspect).NotSet? :: t == s || Before(t, s)
  }

  // One call of addRoute.
  datatype Grant = Grant(network: Network, ports: set<nat>)

  function RouteGrants(routes: seq<Route>): set<Grant> {
    set r | r in routes :: Grant(r.network, Elements(r.ports))
  }

  function SubnetGrants(subnets: seq<Subnet>, info: NetworkInfo): set<Grant> {
    set b | b in subnets && b.name in info.subnets :: Grant(info.subnets[b.name], Elements(b.ports))
  }

  function WholeNetworks(networks: set<Network>): set<Grant> {
    set n | n in networks :: Grant(n, {})
  }

  ghost function OwnGrants(sections: set<Section>, info: NetworkInfo): set<Grant> {
    set s, g | s in sections && g in RouteGrants(s.routes) + SubnetGrants(s.subnets, info) :: g
  }

  ghost function NatGrants(sections: set<Section>): set<Grant> {
    set s, g | s in sections && g in RouteGrants(s.natRoutes) :: g
  }

  // Everything the sections grant: their routes and known subnets; their NAT routes and the NAT networks
  // as the NAT setting says; and every subnet if no section names one.
  ghost function Granted(sections: set<Section>, nat_: Flag, info: NetworkInfo): set<Grant> {
    OwnGrants(sections, info)
    + (if nat_.Off? then {} else NatGrants(sections))
    + (if nat_.All? then WholeNetworks(Elements(info.nat_)) else {})
    + (if NamesNoSubnet(sections) then WholeNetworks(info.subnets.Values) else {})
  }

  ghost predicate NamesNoSubnet(sections: set<Section>) {
    forall s | s in sections :: s.subnets == []
  }

  // The table has the networks of the grants, each with the union of the ports granted for it.
  ghost predicate Merges(table: Table, grants: set<Grant>) {
    && (forall n :: n in table <==> exists g :: g in grants && g.network == n)
    && forall n, p | n in table :: p in table[n] <==> exists g :: g in grants && g.network == n && p in g.ports
  }

  /** The grants determine the table. */
  lemma MergeUnique(a: Table, b: Table, grants: set<Grant>)
    requires Merges(a, grants) && Merges(b, grants)
    ensures a == b
  {
    assert a.Keys == b.Keys;
    forall n | n in a
      ensures a[n] == b[n]
    {
      assert forall p :: p in a[n] <==> p in b[n];
    }
  }

  method AddRoute(network: Network, ports: seq<nat>, table: Table, ghost grants: set<Grant>) returns (next: Table)
    requires Merges(table, grants)
    ensures Merges(next, grants + {Grant(network, Elements(ports))})
  {
    var current := if network in table then table[network] else {};
    for i := 0 to |ports|
      invariant current == (if network in table then table[network] else {}) + Elements(ports[..i])
    {
      assert ports[..i + 1] == ports[..i] + [ports[i]];
      current := current + {ports[i]};
    }
    assert ports[..|ports|] == ports;
    next := table[network := current];
    MergeStep(table, grants, Grant(network, Elements(ports)), next);
  }

  lemma MergeStep(table: Table, grants: set<Grant>, grant: Grant, next: Table)
    requires Merges(table, grants)
    requires next == table[grant.network := (if grant.network in table then table[grant.network] else {}) + grant.ports]
    ensures Merges(next, grants + {grant})
  {
    var more := grants + {grant};
    forall n
      ensures n in next <==> exists g :: g in more && g.network == n
    {
      if n == grant.network {
        assert grant in more;
      } else if n in next {
        var g :| g in grants && g.network == n;
        assert g in more;
      }
    }
    forall n, p | n in next
      ensures p in next[n] <==> exists g :: g in more && g.network == n && p in g.ports
    {
      if p in next[n] {
        if n in table && p in table[n] {
          var g :| g in grants && g.network == n && p in g.ports;
          assert g in more;
        } else {
          assert grant in more;
        }
      }
    }
  }

  method AddRoutes(routes: seq<Route>, table: Table, ghost grants: set<Grant>) returns (next: Table)
    requires Merges(table, grants)
    ensures Merges(next, grants + RouteGrants(routes))
  {
    hide Merges;
    next := table;
    assert grants + RouteGrants([]) == grants;
    for i := 0 to |routes|
      invariant Merges(next, grants + RouteGrants(routes[..i]))
    {
      RouteGrantsNext(routes, i);
      next := AddRoute(routes[i].network, routes[i].ports, next, grants + RouteGrants(routes[..i]));
      assert grants + RouteGrants(routes[..i]) + {Grant(routes[i].network, Elements(routes[i].ports))}
          == grants + RouteGrants(routes[..i + 1]);
    }
    assert routes[..|routes|] == routes;
  }

  lemma RouteGrantsNext(routes: seq<Route>, i: nat)
    requires i < |routes|
    ensures RouteGrants(routes[..i + 1])
      == RouteGrants(routes[..i]) + {Grant(routes[i].network, Elements(routes[i].ports))}
  {
    assert routes[..i + 1] == routes[..i] + [routes[i]];
  }

  // The loop over a section's routes adds each of them twice: once by addRoute, once by its own copy of it.
  method AddSectionRoutes(routes: seq<Route>, table: Table, ghost grants: set<Grant>) returns (next: Table)
    requires Merges(table, grants)
    ensures Merges(next, grants + RouteGrants(routes))
  {
    hide Merges;
    next := table;
    assert grants + RouteGrants([]) == grants;
    for i := 0 to |routes|
      invariant Merges(next, grants + RouteGrants(routes[..i]))
    {
      RouteGrantsNext(routes, i);
      next := AddRoute(routes[i].network, routes[i].ports, next, grants + RouteGrants(routes[..i]));
      ghost var more := grants + RouteGrants(routes[..i + 1]);
      assert grants + RouteGrants(routes[..i]) + {Grant(routes[i].network, Elements(routes[i].ports))} == more;
      next := AddRoute(routes[i].network, routes[i].ports, next, more);
      assert more + {Grant(routes[i].network, Elements(routes[i].ports))} == more;
    }
    assert routes[..|routes|] == routes;
  }

  method AddSubnets(subnets: seq<Subnet>, info: NetworkInfo, table: Table, ghost grants: set<Grant>)
    returns (next: Table)
    requires Merges(table, grants)
    ensures Merges(next, grants + SubnetGrants(subnets, info))
  {
    hide Merges;
    next := table;
    assert grants + SubnetGrants([], info) == grants;
    for i := 0 to |subnets|
      invariant Merges(next, grants + SubnetGrants(subnets[..i], info))
    {
      var subnet := subnets[i];
      ghost var before := grants + SubnetGrants(subnets[..i], info);
      SubnetGrantsNext(subnets, i, info);
      if subnet.name in info.subnets {
        var network := info.subnets[subnet.name];
        next := AddRoute(network, subnet.ports, next, before);
        assert before + {Grant(network, Elements(subnet.ports))} == grants + SubnetGrants(subnets[..i + 1], info);
      } else {
        assert before == grants + SubnetGrants(subnets[..i + 1], info);
      }
    }
    assert subnets[..|subnets|] == subnets;
  }

  lemma SubnetGrantsNext(subnets: seq<Subnet>, i: nat, info: NetworkInfo)
    requires i < |subnets|
    ensures SubnetGrants(subnets[..i + 1], info) == SubnetGrants(subnets[..i], info) +
      if subnets[i].name in info.subnets then {Grant(info.subnets[subnets[i].name], Elements(subnets[i].ports))} else {}
  {
    assert subnets[..i + 1] == subnets[..i] + [subnets[i]];
  }

  lemma WholeNetworksNext(networks: set<Network>, network: Network)
    ensures WholeNetworks(networks + {network}) == WholeNetworks(networks) + {Grant(network, Elements([]))}
  {
    var none: seq<nat> := [];
    assert Elements(none) == {};
  }

  // addRoute(network, nil) for each network, in any order.
  method AddNetworks(networks: set<Network>, table: Table, ghost grants: set<Grant>) returns (next: Table)
    requires Merges(table, grants)
    ensures Merges(next, grants + WholeNetworks(networks))
  {
    hide Merges;
    next := table;
    var pending := networks;
    assert grants + WholeNetworks(networks - pending) == grants;
    while pending != {}
      invariant pending <= networks && Merges(next, grants + WholeNetworks(networks - pending))
      decreases pending
    {
      var network :| network in pending;
      ghost var before := grants + WholeNetworks(networks - pending);
      next := AddRoute(network, [], next, before);
      pending := pending - {network};
      assert networks - (pending + {network}) == networks - pending - {network};
      assert networks - pending == networks - (pending + {network}) + {network};
      WholeNetworksNext(networks - (pending + {network}), network);
      assert before + {Grant(network, Elements([]))} == grants + WholeNetworks(networks - pending);
    }
    assert networks - pending == networks;
  }

  // What the loop over the sections has gathered from some of them.
  ghost predicate Gathered(
    sections: set<Section>, info: NetworkInfo,
    dns: Flag, nat_: Flag, natRoutes: seq<Route>, allSubnets: bool, table: Table)
  {
    && Decides(sections, Dns, NotSet, dns)
    && Decides(sections, Nat, All, nat_)
    && RouteGrants(natRoutes) == NatGrants(sections)
    && (allSubnets <==> NamesNoSubnet(sections))
    && Merges(table, OwnGrants(sections, info))
  }

  lemma DecidesNext(sections: set<Section>, s: Section, aspect: Aspect, fallback: Flag, value: Flag)
    requires Decides(sections, aspect, fallback, value)
    requires forall t | t in sections :: t == s || Before(t, s)
    ensures Decides(sections + {s}, aspect, fallback, if Setting(s, aspect).NotSet? then value else Setting(s, aspect))
  {
    var more := sections + {s};
    if Setting(s, aspect).NotSet? {
      assert forall t | t in sections :: t in more;
    } else {
      assert s in more;
    }
  }

  lemma OwnGrantsNext(sections: set<Section>, s: Section, info: NetworkInfo)
    ensures OwnGrants(sections + {s}, info)
      == OwnGrants(sections, info) + RouteGrants(s.routes) + SubnetGrants(s.subnets, info)
  {
    hide RouteGrants, SubnetGrants;
    forall g
      ensures g in OwnGrants(sections + {s}, info) <==>
        g in OwnGrants(sections, info) || g in RouteGrants(s.routes) + SubnetGrants(s.subnets, info)
    {
      if g in RouteGrants(s.routes) + SubnetGrants(s.subnets, info) {
        assert s in sections + {s};
      }
    }
  }

  lemma NatGrantsNext(sections: set<Section>, s: Section, natRoutes: seq<Route>)
    requires RouteGrants(natRoutes) == NatGrants(sections)
    ensures RouteGrants(natRoutes + s.natRoutes) == NatGrants(sections + {s})
  {
    assert RouteGrants(natRoutes + s.natRoutes) == RouteGrants(natRoutes) + RouteGrants(s.natRoutes);
  }

  // One round of the loop over the sections.
  method GatherSection(
    s: Section, info: NetworkInfo, ghost sections: set<Section>,
    dns: Flag, nat_: Flag, natRoutes: seq<Route>, allSubnets: bool, table: Table)
    returns (dns': Flag, nat': Flag, natRoutes': seq<Route>, allSubnets': bool, table': Table)
    requires Gathered(sections, info, dns, nat_, natRoutes, allSubnets, table)
    requires forall t | t in sections :: t == s || Before(t, s)
    ensures Gathered(sections + {s}, info, dns', nat', natRoutes', allSubnets', table')
  {
    hide Merges, Decides, OwnGrants, NatGrants, RouteGrants, SubnetGrants;
    dns' := if s.dns.NotSet? then dns else s.dns;
    nat' := if s.nat_.NotSet? then nat_ else s.nat_;
    DecidesNext(sections, s, Dns, NotSet, dns);
    DecidesNext(sections, s, Nat, All, nat_);
    natRoutes' := natRoutes + s.natRoutes;
    NatGrantsNext(sections, s, natRoutes);
    table' := AddSectionRoutes(s.routes, table, OwnGrants(sections, info));
    allSubnets' := allSubnets && s.subnets == [];
    table' := AddSubnets(s.subnets, info, table', OwnGrants(sections, info) + RouteGrants(s.routes));
    OwnGrantsNext(sections, s, info);
  }

  lemma BeforeStrict()
    ensures StrictOrder(Before)
  {
  }

  // Sections of one kind with one order are one section.
  ghost predicate Separated(sections: set<Section>) {
    forall s, t | s in sections && t in sections :: s == t || Before(s, t) || Before(t, s)
  }

  lemma ApplicableSeparated(c: Config, user: string, groups: set<string>)
    requires Ordered(c)
    ensures Separated(Applicable(c, user, groups))
  {
  }

  // The sections of the global part and the groups, as they are collected.
  method Collect(c: Config, groups: seq<string>) returns (sections: seq<Section>)
    ensures Elements(sections) == {c.global} + (set g | g in Elements(groups) && g in c.groups :: c.groups[g])
    ensures |sections| == 1 <==> Elements(groups) !! c.groups.Keys
  {
    sections := [c.global];
    for i := 0 to |groups|
      invariant Elements(sections) == {c.global} + (set g | g in Elements(groups[..i]) && g in c.groups :: c.groups[g])
      invariant 1 <= |sections| && (|sections| == 1 <==> Elements(groups[..i]) !! c.groups.Keys)
    {
      assert groups[..i + 1] == groups[..i] + [groups[i]];
      if groups[i] in c.groups {
        var more := sections + [c.groups[groups[i]]];
        assert Elements(more) == Elements(sections) + {c.groups[groups[i]]};
        sections := more;
      }
    }
    assert groups[..|groups|] == groups;
  }

  // The routes list the table: each network once, with its ports, in the order of the printed networks.
  ghost predicate Lists(routes: seq<Route>, table: Table, render: Network -> string) {
    && (forall i | 0 <= i < |routes| ::
          routes[i].network in table && Elements(routes[i].ports) == table[routes[i].network])
    && (forall n | n in table :: exists i :: 0 <= i < |routes| && routes[i].network == n)
    && (forall i, j | 0 <= i < j < |routes| :: routes[i].network != routes[j].network)
    && forall i, j | 0 <= i < j < |routes| :: !TextLess(render(routes[j].network), render(routes[i].network))
  }

  ghost predicate Describes(conf: UserConfig, sections: set<Section>, info: NetworkInfo, render: Network -> string) {
    Decides(sections, Dns, NotSet, conf.dns)
    && exists nat_, table :: Decides(sections, Nat, All, nat_)
        && Merges(table, Granted(sections, nat_, info)) && Lists(conf.routes, table, render)
  }

  // The sections in the order the merge visits them.
  method Arrange(c: Config, user: string, groups: seq<string>) returns (r: Option<seq<Section>>)
    requires Ordered(c)
    ensures r.None? <==> Denied(c, user, Elements(groups))
    ensures r.Some? ==> Elements(r.value) == Applicable(c, user, Elements(groups))
    ensures r.Some? ==>
      forall i, j | 0 <= i < j < |r.value| :: r.value[i] == r.value[j] || Before(r.value[i], r.value[j])
  {
    hide StrictOrder;
    var sections := Collect(c, groups);
    if user !in c.users && |sections| == 1 {
      return None;
    }
    BeforeStrict();
    var sorted := SortSlice(sections, Before);
    SameElements(sections, sorted);
    ApplicableSeparated(c, user, Elements(groups));
    if user in c.users {
      ElementsAppend(sorted, c.users[user]);
      assert forall s | s in Elements(sections) :: !s.kind.UserSection?;
      assert forall s | s in sorted :: s in Elements(sorted);
      sorted := sorted + [c.users[user]];
    }
    assert forall s | s in sorted :: s in Applicable(c, user, Elements(groups));
    return Some(sorted);
  }

  // The loop over the sections and what follows it.
  method Merge(sections: seq<Section>, info: NetworkInfo) returns (dns: Flag, ghost nat_: Flag, table: Table)
    requires forall i, j | 0 <= i < j < |sections| :: sections[i] == sections[j] || Before(sections[i], sections[j])
    ensures Decides(Elements(sections), Dns, NotSet, dns) && Decides(Elements(sections), Nat, All, nat_)
    ensures Merges(table, Granted(Elements(sections), nat_, info))
  {
    hide Merges, Decides, OwnGrants, NatGrants, RouteGrants;
    var natSetting: Flag, natRoutes: seq<Route>, allSubnets: bool;
    dns, natSetting, natRoutes, allSubnets, table := NotSet, All, [], true, map[];
    GatheredNothing(info);
    for i := 0 to |sections|
      invariant Gathered(Elements(sections[..i]), info, dns, natSetting, natRoutes, allSubnets, table)
    {
      assert sections[..i + 1] == sections[..i] + [sections[i]];
      ElementsAppend(sections[..i], sections[i]);
      dns, natSetting, natRoutes, allSubnets, table :=
        GatherSection(sections[i], info, Elements(sections[..i]), dns, natSetting, natRoutes, allSubnets, table);
    }
    assert sections[..|sections|] == sections;
    nat_ := natSetting;
    ghost var all := Elements(sections);
    ghost var grants := OwnGrants(all, info);
    if natSetting != Off {
      if natSetting == All {
        table := AddNetworks(Elements(info.nat_), table, grants);
        grants := grants + WholeNetworks(Elements(info.nat_));
      }
      table := AddRoutes(natRoutes, table, grants);
      grants := grants + NatGrants(all);
    }
    if allSubnets {
      table := AddNetworks(info.subnets.Values, table, grants);
      grants := grants + WholeNetworks(info.subnets.Values);
    }
    assert grants == Granted(all, nat_, info);
  }

  lemma GatheredNothing(info: NetworkInfo)
    ensures Gathered(Elements([]), info, NotSet, All, [], true, map[])
  {
    var none: seq<Section> := [];
    assert Elements(none) == {};
  }

  // Each network of the table is in one route, with its ports. The order does not matter here.
  ghost predicate Covering(routes: seq<Route>, table: Table) {
    && (forall r | r in routes :: r.network in table && Elements(r.ports) == table[r.network])
    && (forall n | n in table :: exists r :: r in routes && r.network == n)
    && (forall r, t | r in routes && t in routes && r.network == t.network :: r == t)
    && forall r: Route :: multiset(routes)[r] <= 1
  }

  lemma CoveringReordered(a: seq<Route>, b: seq<Route>, table: Table)
    requires Covering(a, table) && multiset(a) == multiset(b)
    ensures Covering(b, table)
  {
    assert forall r :: r in a <==> r in multiset(a);
    assert forall r :: r in b <==> r in multiset(b);
  }

  lemma CoveringDistinct(routes: seq<Route>, table: Table)
    requires Covering(routes, table)
    ensures forall i, j | 0 <= i < j < |routes| :: routes[i].network != routes[j].network
  {
    forall i, j | 0 <= i < j < |routes|
      ensures routes[i] != routes[j]
    {
      if routes[i] == routes[j] {
        CountedTwice(routes, i, j);
      }
    }
  }

  // The table as routes, in any order, and each port set as a list, in any order.
  method ListRoutes(table: Table) returns (routes: seq<Route>)
    ensures Covering(routes, table)
  {
    routes := [];
    var rest := table;
    while rest != map[]
      invariant rest.Keys <= table.Keys && forall n | n in rest :: rest[n] == table[n]
      invariant Covering(routes, table - rest.Keys)
      decreases rest.Keys
    {
      var network :| network in rest;
      var ports := ListPorts(rest[network]);
      CoveringNext(routes, table - rest.Keys, Route(network, ports));
      routes := routes + [Route(network, ports)];
      var less := rest - {network};
      assert table - less.Keys == (table - rest.Keys)[network := table[network]];
      rest := less;
    }
    assert table - rest.Keys == table;
  }

  lemma CoveringNext(routes: seq<Route>, table: Table, route: Route)
    requires Covering(routes, table) && route.network !in table
    ensures Covering(routes + [route], table[route.network := Elements(route.ports)])
  {
    var more := routes + [route];
    assert forall r :: r in more <==> r in routes || r == route;
    assert route in more;
  }

  method ListPorts(ports: set<nat>) returns (list: seq<nat>)
    ensures Elements(list) == ports
  {
    list := [];
    var pending := ports;
    while pending != {}
      invariant pending <= ports && Elements(list) == ports - pending
      decreases pending
    {
      var port :| port in pending;
      ElementsAppend(list, port);
      list := list + [port];
      pending := pending - {port};
    }
  }

  function ByText(render: Network -> string): (Route, Route) -> bool {
    (a: Route, b: Route) => TextLess(render(a.network), render(b.network))
  }

  // --- What a configuration says of a user, section by section.

  // The global section, that of a group of the user, or the user's own.
  ghost predicate Concerns(c: Config, user: string, groups: set<string>, s: Section) {
    || s == c.global
    || (exists g :: g in groups && g in c.groups && s == c.groups[g])
    || (user in c.users && s == c.users[user])
  }

  function DnsOf(s: Section): Flag { s.dns }

  function NatOf(s: Section): Flag { s.nat_ }

  // The user's own section has the last word; then, of the user's groups, the one opened last; then the global one.
  ghost predicate LastSaid(
    c: Config, user: string, groups: set<string>, setting: Section -> Flag, fallback: Flag, value: Flag)
  {
    if user in c.users && !setting(c.users[user]).NotSet? then value == setting(c.users[user])
    else if exists g :: g in groups && g in c.groups && !setting(c.groups[g]).NotSet? then
      exists g :: g in groups && g in c.groups && !setting(c.groups[g]).NotSet? && value == setting(c.groups[g])
        && forall h | h in groups && h in c.groups && h != g && !setting(c.groups[h]).NotSet? ::
             c.groups[h].order < c.groups[g].order
    else if !setting(c.global).NotSet? then value == setting(c.global)
    else value == fallback
  }

  // A route, or a subnet that is known, names the network with these ports.
  ghost predicate Routed(routes: seq<Route>, n: Network, ports: set<nat>) {
    exists r :: r in routes && r.network == n && Elements(r.ports) == ports
  }

  ghost predicate Subnetted(subnets: seq<Subnet>, info: NetworkInfo, n: Network, ports: set<nat>) {
    exists b :: b in subnets && b.name in info.subnets && info.subnets[b.name] == n && Elements(b.ports) == ports
  }

  // A line of these sections, the network of a subnet they name, a NAT network, or a subnet if none is named.
  ghost predicate Names(
    c: Config, user: string, groups: set<string>, info: NetworkInfo, nat_: Flag, n: Network, ports: set<nat>)
  {
    || (exists s :: Concerns(c, user, groups, s)
          && (Routed(s.routes, n, ports) || Subnetted(s.subnets, info, n, ports)))
    || (nat_ != Off && exists s :: Concerns(c, user, groups, s) && Routed(s.natRoutes, n, ports))
    || (nat_ == All && n in info.nat_ && ports == {})
    || ((forall s | Concerns(c, user, groups, s) :: s.subnets == []) && n in info.subnets.Values && ports == {})
  }

  // The policy lists exactly the networks named, each with exactly the ports it is named with.
  ghost predicate Says(conf: UserConfig, c: Config, user: string, groups: set<string>, info: NetworkInfo) {
    && LastSaid(c, user, groups, DnsOf, NotSet, conf.dns)
    && exists nat_ :: LastSaid(c, user, groups, NatOf, All, nat_) && ListsNamed(conf, c, user, groups, info, nat_)
  }

  ghost predicate ListsNamed(
    conf: UserConfig, c: Config, user: string, groups: set<string>, info: NetworkInfo, nat_: Flag)
  {
    && (forall n :: ListsNetwork(conf, n) <==> NamesNetwork(c, user, groups, info, nat_, n))
    && forall l, p | l in conf.routes :: p in l.ports <==> NamesPort(c, user, groups, info, nat_, l.network, p)
  }

  ghost predicate ListsNetwork(conf: UserConfig, n: Network) {
    exists l :: l in conf.routes && l.network == n
  }

  ghost predicate NamesNetwork(
    c: Config, user: string, groups: set<string>, info: NetworkInfo, nat_: Flag, n: Network)
  {
    exists ports :: Names(c, user, groups, info, nat_, n, ports)
  }

  ghost predicate NamesPort(
    c: Config, user: string, groups: set<string>, info: NetworkInfo, nat_: Flag, n: Network, p: nat)
  {
    exists ports :: Names(c, user, groups, info, nat_, n, ports) && p in ports
  }

  lemma ApplicableConcerns(c: Config, user: string, groups: set<string>)
    ensures forall s :: s in Applicable(c, user, groups) <==> Concerns(c, user, groups, s)
  {
  }

  lemma RoutedGrants(s: Section, info: NetworkInfo, g: Grant)
    ensures g in RouteGrants(s.routes) <==> Routed(s.routes, g.network, g.ports)
    ensures g in RouteGrants(s.natRoutes) <==> Routed(s.natRoutes, g.network, g.ports)
    ensures g in SubnetGrants(s.subnets, info) <==> Subnetted(s.subnets, info, g.network, g.ports)
  {
  }

  lemma OwnNames(c: Config, user: string, groups: set<string>, info: NetworkInfo, g: Grant)
    ensures g in OwnGrants(Applicable(c, user, groups), info) <==>
      exists s :: Concerns(c, user, groups, s)
        && (Routed(s.routes, g.network, g.ports) || Subnetted(s.subnets, info, g.network, g.ports))
    ensures g in NatGrants(Applicable(c, user, groups)) <==>
      exists s :: Concerns(c, user, groups, s) && Routed(s.natRoutes, g.network, g.ports)
  {
    hide Concerns, Applicable, RouteGrants, SubnetGrants, Routed, Subnetted;
    ApplicableConcerns(c, user, groups);
    forall s: Section
      ensures g in RouteGrants(s.routes) + SubnetGrants(s.subnets, info) <==>
        Routed(s.routes, g.network, g.ports) || Subnetted(s.subnets, info, g.network, g.ports)
      ensures g in RouteGrants(s.natRoutes) <==> Routed(s.natRoutes, g.network, g.ports)
    {
      RoutedGrants(s, info, g);
    }
  }

  lemma GrantedNames(c: Config, user: string, groups: set<string>, info: NetworkInfo, nat_: Flag, g: Grant)
    ensures g in Granted(Applicable(c, user, groups), nat_, info) <==>
      Names(c, user, groups, info, nat_, g.network, g.ports)
  {
    hide Concerns, Applicable, OwnGrants, NatGrants, Routed, Subnetted;
    ApplicableConcerns(c, user, groups);
    OwnNames(c, user, groups, info, g);
    assert g in WholeNetworks(Elements(info.nat_)) <==> g.network in info.nat_ && g.ports == {};
    assert g in WholeNetworks(info.subnets.Values) <==> g.network in info.subnets.Values && g.ports == {};
  }

  lemma ListsMeans(
    conf: UserConfig, table: Table, grants: set<Grant>, render: Network -> string, c: Config, user: string,
    groups: set<string>, info: NetworkInfo, nat_: Flag)
    requires Merges(table, grants) && Lists(conf.routes, table, render)
    requires forall g :: g in grants <==> Names(c, user, groups, info, nat_, g.network, g.ports)
    ensures ListsNamed(conf, c, user, groups, info, nat_)
  {
    hide Names;
    forall n
      ensures n in table <==> NamesNetwork(c, user, groups, info, nat_, n)
      ensures forall p: nat | n in table :: p in table[n] <==> NamesPort(c, user, groups, info, nat_, n, p)
      ensures n in table <==> ListsNetwork(conf, n)
    {
      NamesGrants(table, grants, c, user, groups, info, nat_, n);
      if n in table {
        var i :| 0 <= i < |conf.routes| && conf.routes[i].network == n;
        assert conf.routes[i] in conf.routes;
      }
    }
    forall l | l in conf.routes
      ensures l.network in table && forall p :: p in l.ports <==> p in table[l.network]
    {
      assert forall p :: p in l.ports <==> p in Elements(l.ports);
    }
  }

  lemma NamesGrants(
    table: Table, grants: set<Grant>, c: Config, user: string, groups: set<string>, info: NetworkInfo, nat_: Flag,
    n: Network)
    requires Merges(table, grants)
    requires forall g :: g in grants <==> Names(c, user, groups, info, nat_, g.network, g.ports)
    ensures n in table <==> NamesNetwork(c, user, groups, info, nat_, n)
    ensures forall p: nat | n in table :: p in table[n] <==> NamesPort(c, user, groups, info, nat_, n, p)
  {
    hide Names;
    forall ports | Names(c, user, groups, info, nat_, n, ports)
      ensures Grant(n, ports) in grants
    {
      assert Grant(n, ports).network == n;
    }
    if n in table {
      forall p: nat
        ensures p in table[n] <==> NamesPort(c, user, groups, info, nat_, n, p)
      {
        if NamesPort(c, user, groups, info, nat_, n, p) {
          var ports :| Names(c, user, groups, info, nat_, n, ports) && p in ports;
          assert Grant(n, ports) in grants;
        }
      }
    }
  }

  /** Who decides: by the sections' kinds and the order of the groups. */
  lemma LastDecides(c: Config, user: string, groups: set<string>, aspect: Aspect, fallback: Flag, value: Flag)
    requires Ordered(c) && Decides(Applicable(c, user, groups), aspect, fallback, value)
    ensures LastSaid(c, user, groups, s => Setting(s, aspect), fallback, value)
  {
    hide Applicable;
    ApplicableConcerns(c, user, groups);
  }

  /** What the sections that apply describe is what they say, line by line. */
  lemma DescribesSays(
    conf: UserConfig, c: Config, user: string, groups: set<string>, info: NetworkInfo, render: Network -> string)
    requires Ordered(c) && Describes(conf, Applicable(c, user, groups), info, render)
    ensures Says(conf, c, user, groups, info)
  {
    hide Merges, Decides, Granted, Applicable, Lists, Names, ListsNamed, Ordered, LastSaid;
    var sections := Applicable(c, user, groups);
    var nat_, table :| Decides(sections, Nat, All, nat_)
        && Merges(table, Granted(sections, nat_, info)) && Lists(conf.routes, table, render);
    LastDecides(c, user, groups, Dns, NotSet, conf.dns);
    LastDecides(c, user, groups, Nat, All, nat_);
    SameSetting(c, user, groups, s => Setting(s, Dns), DnsOf, NotSet, conf.dns);
    SameSetting(c, user, groups, s => Setting(s, Nat), NatOf, All, nat_);
    forall g
      ensures g in Granted(sections, nat_, info) <==> Names(c, user, groups, info, nat_, g.network, g.ports)
    {
      GrantedNames(c, user, groups, info, nat_, g);
    }
    ListsMeans(conf, table, Granted(sections, nat_, info), render, c, user, groups, info, nat_);
  }

  lemma SameSetting(
    c: Config, user: string, groups: set<string>, a: Section -> Flag, b: Section -> Flag, fallback: Flag, value: Flag)
    requires LastSaid(c, user, groups, a, fallback, value) && forall s :: a(s) == b(s)
    ensures LastSaid(c, user, groups, b, fallback, value)
  {
  }

  /**
   GetUserConfig. It fails exactly for a user with neither a section nor a group that has one. Otherwise the policy
   lists exactly the networks that the lines of the sections concerned name, and the settings are the last ones made.
   */
  method GetUserConfig(c: Config, user: string, groups: seq<string>, info: NetworkInfo, render: Network -> string)
    returns (r: Result<UserConfig, string>)
    requires Ordered(c)
    ensures r.Failure? <==> Denied(c, user, Elements(groups))
    ensures r.Failure? <==> user !in c.users && forall g | g in groups :: g !in c.groups
    ensures r.Success? ==> Describes(r.value, Applicable(c, user, Elements(groups)), info, render)
    ensures r.Success? ==> Says(r.value, c, user, Elements(groups), info)
  {
    hide Merges, Decides, Granted, Applicable, StrictOrder, Ordered, Denied, Says;
    DeniedMeans(c, user, groups);
    var arranged := Arrange(c, user, groups);
    if arranged.None? {
      return Failure("User " + user + " does not have access");
    }
    ghost var nat_;
    var dns, table;
    dns, nat_, table := Merge(arranged.value, info);
    var routes := ListRoutes(table);
    RouteOrder(render);
    var sorted := SortSlice(routes, ByText(render));
    CoveringReordered(routes, sorted, table);
    ListedInOrder(sorted, table, render);
    DescribesSays(UserConfig(dns, sorted), c, user, Elements(groups), info, render);
    return Success(UserConfig(dns, sorted));
  }

  lemma DeniedMeans(c: Config, user: string, groups: seq<string>)
    ensures Denied(c, user, Elements(groups)) <==> user !in c.users && forall g | g in groups :: g !in c.groups
  {
    assert forall g :: g in groups <==> g in Elements(groups);
  }

  lemma ListedInOrder(routes: seq<Route>, table: Table, render: Network -> string)
    requires Covering(routes, table) && Ascending(routes, ByText(render))
    ensures Lists(routes, table, render)
  {
    CoveringDistinct(routes, table);
    forall i, j | 0 <= i < j < |routes|
      ensures !TextLess(render(routes[j].network), render(routes[i].network))
    {
      assert !ByText(render)(routes[j], routes[i]);
    }
  }

  lemma RouteOrder(render: Network -> string)
    ensures StrictOrder(ByText(render))
  {
    forall a: Route
      ensures !TextLess(render(a.network), render(a.network))
    {
      TextLessIrreflexive(render(a.network));
    }
    forall a: Route, b: Route, d: Route |
      TextLess(render(a.network), render(b.network)) && TextLess(render(b.network), render(d.network))
      ensures TextLess(render(a.network), render(d.network))
    {
      TextLessTransitive(render(a.network), render(b.network), render(d.network));
    }
  }

  /** Of sections with an order, one value decides an aspect. */
  lemma DecidesUnique(sections: set<Section>, aspect: Aspect, fallback: Flag, a: Flag, b: Flag)
    requires Decides(sections, aspect, fallback, a) && Decides(sections, aspect, fallback, b)
    ensures a == b
  {
  }

  // What a reader of the configuration is told: the DNS setting, the networks in order, the ports of each.
  ghost predicate SameMeaning(a: UserConfig, b: UserConfig) {
    && a.dns == b.dns
    && |a.routes| == |b.routes|
    && forall i | 0 <= i < |a.routes| ::
         a.routes[i].network == b.routes[i].network && Elements(a.routes[i].ports) == Elements(b.routes[i].ports)
  }

  ghost predicate Injective(render: Network -> string, networks: set<Network>) {
    forall m, n | m in networks && n in networks && render(m) == render(n) :: m == n
  }

  ghost function Networks(conf: UserConfig): set<Network> {
    set r | r in conf.routes :: r.network
  }

  /**
   The sections determine the configuration: however the groups are ordered or repeated, and however
   the maps are iterated, two results for the same sections mean the same.
   */
  lemma Determined(a: UserConfig, b: UserConfig, sections: set<Section>, info: NetworkInfo, render: Network -> string)
    requires Describes(a, sections, info, render) && Describes(b, sections, info, render)
    requires Injective(render, Networks(a))
    ensures SameMeaning(a, b)
  {
    hide Merges, Granted, Decides, Lists, NetworkList, Injective, Networks, Canonical, Elements, SameMeaning;
    DecidesUnique(sections, Dns, NotSet, a.dns, b.dns);
    var natA, tableA :| Decides(sections, Nat, All, natA)
        && Merges(tableA, Granted(sections, natA, info)) && Lists(a.routes, tableA, render);
    var natB, tableB :| Decides(sections, Nat, All, natB)
        && Merges(tableB, Granted(sections, natB, info)) && Lists(b.routes, tableB, render);
    DecidesUnique(sections, Nat, All, natA, natB);
    MergeUnique(tableA, tableB, Granted(sections, natA, info));
    ListedNetworks(a, tableA, render);
    ListedNetworks(b, tableB, render);
    SameOrder(NetworkList(a.routes), NetworkList(b.routes), render);
    SamePorts(a, b, tableA, render);
  }

  lemma SamePorts(a: UserConfig, b: UserConfig, table: Table, render: Network -> string)
    requires Lists(a.routes, table, render) && Lists(b.routes, table, render)
    requires a.dns == b.dns && NetworkList(a.routes) == NetworkList(b.routes)
    ensures SameMeaning(a, b)
  {
    hide TextLess;
    assert |a.routes| == |NetworkList(a.routes)| == |b.routes|;
    forall i | 0 <= i < |a.routes|
      ensures a.routes[i].network == b.routes[i].network
      ensures Elements(a.routes[i].ports) == Elements(b.routes[i].ports)
    {
      assert a.routes[i].network == NetworkList(a.routes)[i] == NetworkList(b.routes)[i];
    }
  }

  ghost function NetworkList(routes: seq<Route>): (list: seq<Network>)
    ensures |list| == |routes|
  {
    seq(|routes|, i requires 0 <= i < |routes| => routes[i].network)
  }

  // Networks without repetition, in the order of their text.
  ghost predicate Canonical(list: seq<Network>, render: Network -> string) {
    Distinct(list) && forall i, j | 0 <= i < j < |list| :: !TextLess(render(list[j]), render(list[i]))
  }

  lemma ListedNetworks(conf: UserConfig, table: Table, render: Network -> string)
    requires Lists(conf.routes, table, render)
    ensures Elements(NetworkList(conf.routes)) == table.Keys == Networks(conf)
    ensures Canonical(NetworkList(conf.routes), render)
  {
    forall n | n in table
      ensures n in NetworkList(conf.routes) && n in Networks(conf)
    {
      var i :| 0 <= i < |conf.routes| && conf.routes[i].network == n;
      assert NetworkList(conf.routes)[i] == n && conf.routes[i] in conf.routes;
    }
  }

  /** A set of networks with distinct texts has one canonical list. */
  lemma {:induction false} SameOrder(a: seq<Network>, b: seq<Network>, render: Network -> string)
    requires Canonical(a, render) && Canonical(b, render)
    requires Elements(a) == Elements(b) && Injective(render, Elements(a))
    ensures a == b
    decreases |a|
  {
    if a == [] {
      DistinctCount(b);
    } else {
      assert a[0] in Elements(a) && b != [];
      FirstSmallest(a, b, render);
      TailElements(a);
      TailElements(b);
      SameOrder(a[1..], b[1..], render);
      assert a == [a[0]] + a[1..] && b == [b[0]] + b[1..];
    }
  }

  lemma FirstSmallest(a: seq<Network>, b: seq<Network>, render: Network -> string)
    requires Canonical(a, render) && Canonical(b, render) && a != [] && b != []
    requires Elements(a) == Elements(b) && Injective(render, Elements(a))
    ensures a[0] == b[0]
  {
    assert a[0] in Elements(b) && b[0] in Elements(a);
    var i :| 0 <= i < |b| && b[i] == a[0];
    var j :| 0 <= j < |a| && a[j] == b[0];
    if render(a[0]) != render(b[0]) {
      TextLessTotal(render(a[0]), render(b[0]));
    }
  }

  lemma TailElements(a: seq<Network>)
    requires a != [] && Distinct(a)
    ensures Elements(a[1..]) == Elements(a) - {a[0]}
  {
    assert a == [a[0]] + a[1..];
  }

  /** The groups count as a set, and undeclared groups do not count. */
  lemma GroupsAsSet(c: Config, user: string, groups: seq<string>, others: seq<string>)
    requires Elements(groups) * c.groups.Keys == Elements(others) * c.groups.Keys
    ensures Applicable(c, user, Elements(groups)) == Applicable(c, user, Elements(others))
    ensures Denied(c, user, Elements(groups)) <==> Denied(c, user, Elements(others))
  {
    forall g | g in c.groups
      ensures g in Elements(groups) <==> g in Elements(others)
    {
      assert g in Elements(groups) * c.groups.Keys <==> g in Elements(others) * c.groups.Keys;
    }
    assert Applicable(c, user, Elements(groups)) == Applicable(c, user, Elements(others));
  }

  /** A network stays open for every port exactly when no grant for it names a port. */
  lemma OpenIffNoPorts(table: Table, grants: set<Grant>, network: Network)
    requires Merges(table, grants) && network in table
    ensures table[network] == {} <==> forall g | g in grants && g.network == network :: g.ports == {}
  {
    assert forall g, p | g in grants && g.network == network && p in g.ports :: p in table[network];
    if table[network] != {} {
      var p :| p in table[network];
    }
  }
}
