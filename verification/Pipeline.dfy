/**
 The way from the configuration to packets: updateFirewall expands a user's configuration to rules
 and hands them to the firewall.
 */
module Pipeline {
  import opened Wrappers
  import opened Sequences
  import opened Iptables
  import opened Policy
  import FW = Firewall

  // What a policy table allows. No ports, or port 0, means every port and protocol.
  ghost predicate Allows(table: Table, p: Packet) {
    exists n :: n in table && Covers(n, p.dst)
      && (table[n] == {} || 0 in table[n] || (p.tcp && p.port in table[n]))
  }

  function RouteRules(route: Route): seq<ChainRule> {
    if route.ports == [] then [ChainRule(route.network, 0)]
    else seq(|route.ports|, i requires 0 <= i < |route.ports| => ChainRule(route.network, route.ports[i]))
  }

  function Rules(routes: seq<Route>): seq<ChainRule> {
    if routes == [] then [] else Rules(routes[..|routes| - 1]) + RouteRules(routes[|routes| - 1])
  }

  method Expand(routes: seq<Route>) returns (rules: seq<ChainRule>)
    ensures rules == Rules(routes)
  {
    rules := [];
    for i := 0 to |routes|
      invariant rules == Rules(routes[..i])
    {
      var route := routes[i];
      ghost var start := rules;
      if |route.ports| == 0 {
        rules := rules + [ChainRule(route.network, 0)];
      } else {
        for k := 0 to |route.ports|
          invariant rules == start + RouteRules(route)[..k]
        {
          rules := rules + [ChainRule(route.network, route.ports[k])];
        }
      }
      assert rules == start + RouteRules(route);
      assert routes[..i + 1][..i] == routes[..i];
    }
    assert routes[..|routes|] == routes;
  }

  lemma RouteRulesMatch(route: Route, p: Packet)
    ensures (exists rule :: rule in RouteRules(route) && Matches(rule, p)) <==>
      Covers(route.network, p.dst) && (route.ports == [] || 0 in route.ports || (p.tcp && p.port in route.ports))
  {
    hide Covers;
    var rules := RouteRules(route);
    if route.ports == [] {
      assert rules[0] in rules;
    } else {
      forall i | 0 <= i < |route.ports|
        ensures rules[i] in rules && rules[i] == ChainRule(route.network, route.ports[i])
      {
      }
    }
  }

  lemma {:induction false} RulesFrom(routes: seq<Route>, rule: ChainRule)
    ensures rule in Rules(routes) <==> exists r :: r in routes && rule in RouteRules(r)
  {
    if routes != [] {
      var n := |routes| - 1;
      RulesFrom(routes[..n], rule);
      assert routes == routes[..n] + [routes[n]];
    }
  }

  /** The expansion matches exactly the packets the table allows. */
  lemma ExpansionFaithful(routes: seq<Route>, table: Table, render: Network -> string, p: Packet)
    requires Lists(routes, table, render)
    ensures (exists rule :: rule in Rules(routes) && Matches(rule, p)) <==> Allows(table, p)
  {
    hide Covers, Rules, RouteRules;
    if rule :| rule in Rules(routes) && Matches(rule, p) {
      RulesFrom(routes, rule);
      var r :| r in routes && rule in RouteRules(r);
      RouteRulesMatch(r, p);
      ListedRoute(routes, table, render, r);
    }
    if Allows(table, p) {
      var n :| n in table && Covers(n, p.dst) && (table[n] == {} || 0 in table[n] || (p.tcp && p.port in table[n]));
      var i :| 0 <= i < |routes| && routes[i].network == n;
      var r := routes[i];
      ListedRoute(routes, table, render, r);
      RouteRulesMatch(r, p);
      var rule :| rule in RouteRules(r) && Matches(rule, p);
      RulesFrom(routes, rule);
    }
  }

  lemma ListedRoute(routes: seq<Route>, table: Table, render: Network -> string, r: Route)
    requires Lists(routes, table, render) && r in routes
    ensures r.network in table && Elements(r.ports) == table[r.network]
    ensures r.ports == [] <==> table[r.network] == {}
    ensures forall port :: port in r.ports <==> port in table[r.network]
  {
    assert r.ports != [] ==> r.ports[0] in Elements(r.ports);
    assert forall port :: port in r.ports <==> port in Elements(r.ports);
  }

  /** A chain that grants the expanded rules lets through exactly what the table allows. */
  lemma ChainMeansPolicy(
    fw: FW.Firewall, user: string, routes: seq<Route>, table: Table, render: Network -> string, p: Packet)
    requires fw.RuleSet(user) == Elements(Rules(routes)) && Lists(routes, table, render)
    ensures (exists rule :: rule in fw.RuleSet(user) && Matches(rule, p)) <==> Allows(table, p)
  {
    hide Matches, Lists, Allows, Rules;
    ExpansionFaithful(routes, table, render, p);
    assert forall rule :: rule in fw.RuleSet(user) <==> rule in Rules(routes);
  }

  // updateFirewall.
  method UpdateFirewall(fw: FW.Firewall, user: string, conf: UserConfig) returns (ok: bool)
    requires fw.InSync(user)
    modifies fw`mirror, fw.tables`userChains
    ensures ok
    ensures FW.SameElsewhere(user, old(fw.mirror), fw.mirror)
    ensures FW.SameElsewhere(user, old(fw.tables.userChains), fw.tables.userChains)
    ensures fw.InSync(user) && fw.RuleSet(user) == Elements(Rules(conf.routes)) <==>
      fw.mended || old(fw.RuleSet(user)) <= Elements(Rules(conf.routes))
  {
    hide Rules;
    var rules := Expand(conf.routes);
    ok := fw.UpdateUser(user, Some(rules));
  }

  /**
   From the configuration file to packets. When a user's policy is applied to a chain that grants
   nothing the policy drops, or with the mended loops, the packets that get through for the user are
   exactly those the merged table of the user's sections allows. Nothing changes for another user.
   */
  method ApplyPolicy(
    fw: FW.Firewall, c: Config, user: string, groups: seq<string>, info: NetworkInfo, render: Network -> string)
    returns (r: Result<UserConfig, string>, ghost table: Table)
    requires Ordered(c) && fw.InSync(user)
    modifies fw`mirror, fw.tables`userChains
    ensures FW.SameElsewhere(user, old(fw.mirror), fw.mirror)
    ensures FW.SameElsewhere(user, old(fw.tables.userChains), fw.tables.userChains)
    ensures r.Failure? <==> Denied(c, user, Elements(groups))
    ensures r.Failure? ==> fw.mirror == old(fw.mirror) && fw.tables.userChains == old(fw.tables.userChains)
    ensures r.Success? ==> Describes(r.value, Applicable(c, user, Elements(groups)), info, render)
    ensures r.Success? ==>
      (fw.InSync(user) && fw.RuleSet(user) == Elements(Rules(r.value.routes)) <==>
         fw.mended || old(fw.RuleSet(user)) <= Elements(Rules(r.value.routes)))
    ensures r.Success? ==> exists nat_ ::
      Decides(Applicable(c, user, Elements(groups)), Nat, All, nat_)
      && Merges(table, Granted(Applicable(c, user, Elements(groups)), nat_, info))
    ensures r.Success? && (fw.mended || old(fw.RuleSet(user)) <= Elements(Rules(r.value.routes))) ==>
      forall p :: (exists rule :: rule in fw.RuleSet(user) && Matches(rule, p)) <==> Allows(table, p)
  {
    hide Merges, Decides, Granted, Lists, Matches, Allows, Rules;
    table := map[];
    r := GetUserConfig(c, user, groups, info, render);
    if r.Success? {
      ghost var sections := Applicable(c, user, Elements(groups));
      ghost var nat_;
      nat_, table :| Decides(sections, Nat, All, nat_)
          && Merges(table, Granted(sections, nat_, info)) && Lists(r.value.routes, table, render);
      var _ := UpdateFirewall(fw, user, r.value);
      if fw.RuleSet(user) == Elements(Rules(r.value.routes)) {
        forall p
          ensures (exists rule :: rule in fw.RuleSet(user) && Matches(rule, p)) <==> Allows(table, p)
        {
          ChainMeansPolicy(fw, user, r.value.routes, table, render, p);
        }
      }
    }
  }

  /**
   Over a whole run: as long as the firewall is faithful to the requests, the latest policy of the owner of
   an address is what counts for the sources it covers.
   */
  lemma LatestPolicyHolds(
    fw: FW.Firewall, requests: seq<FW.Request>, address: Network, user: string,
    routes: seq<Route>, table: Table, render: Network -> string, p: Packet)
    requires FW.Faithful(fw, requests) && fw.ForwardSynced()
    requires address in fw.connections && Covers(address, p.src)
    requires forall a | a in fw.connections && Covers(a, p.src) :: fw.connections[a] == user
    requires FW.Latest(requests, user) == Elements(Rules(routes)) && Lists(routes, table, render)
    ensures fw.Forwards(p) <==> Allows(table, p)
  {
    hide Matches, Covers, Lists, Allows, Rules, FW.Latest;
    fw.ForwardDecision(p);
    ChainMeansPolicy(fw, user, routes, table, render, p);
  }
}
