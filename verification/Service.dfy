/** The server from the backend's configuration to the packets of a run of client events. */
module Service {
  import opened Wrappers
  import opened Iptables
  import opened Policy
  import opened Membership
  import opened Pipeline
  import opened Sessions
  import opened Enforcement
  import opened KeyHistory
  import C = CertTables
  import FW = Firewall
  import K = Keys

  // What a set of sections lets pass: what their merged table allows.
  ghost predicate SectionsPermit(sections: set<Section>, info: NetworkInfo, p: Packet) {
    exists nat_, table ::
      Decides(sections, Nat, All, nat_) && Merges(table, Granted(sections, nat_, info)) && Allows(table, p)
  }

  // A set of sections grants some network.
  ghost predicate SectionsGrant(sections: set<Section>, info: NetworkInfo) {
    exists nat_ :: Decides(sections, Nat, All, nat_) && Granted(sections, nat_, info) != {}
  }

  // The sections of a configuration that apply to a user.
  ghost function SectionsOf(b: Backend, user: string): set<Section> {
    Applicable(b.conf, user, GroupsOf(b.conf.groups.Keys, b.fetchGroup, user))
  }

  // What a configuration lets a user's packets do.
  ghost predicate Permits(b: Backend, user: string, p: Packet) {
    b.info.Some? && HasAccess(b, user) && SectionsPermit(SectionsOf(b, user), b.info.value, p)
  }

  // A configuration gives a user some network to go to.
  ghost predicate GivesRoutes(b: Backend, user: string) {
    b.info.Some? && HasAccess(b, user) && SectionsGrant(SectionsOf(b, user), b.info.value)
  }

  // What an update answers with this configuration.
  ghost predicate Answered(configs: map<string, K.VpnUser>, b: Backend, render: Network -> string) {
    b.info.Some? && K.Answers(configs, b.conf, b.info.value, b.fetchGroup, b.fetchKeys, render)
  }

  // The rules of a policy match what its sections permit.
  lemma PolicyPermits(
    conf: UserConfig, sections: set<Section>, info: NetworkInfo, render: Network -> string, p: Packet)
    requires Describes(conf, sections, info, render)
    ensures (exists rule :: rule in Rules(conf.routes) && Matches(rule, p)) <==> SectionsPermit(sections, info, p)
  {
    hide Decides, Merges, Granted, Lists, Allows, Rules, Matches;
    var nat_, table :| Decides(sections, Nat, All, nat_)
        && Merges(table, Granted(sections, nat_, info)) && Lists(conf.routes, table, render);
    ExpansionFaithful(conf.routes, table, render, p);
    if SectionsPermit(sections, info, p) {
      var nat', table' :| Decides(sections, Nat, All, nat')
          && Merges(table', Granted(sections, nat', info)) && Allows(table', p);
      DecidesUnique(sections, Nat, All, nat_, nat');
      MergeUnique(table, table', Granted(sections, nat_, info));
    }
  }

  // A policy has routes exactly if its sections grant a network.
  lemma PolicyHasRoutes(conf: UserConfig, sections: set<Section>, info: NetworkInfo, render: Network -> string)
    requires Describes(conf, sections, info, render)
    ensures conf.routes != [] <==> SectionsGrant(sections, info)
  {
    hide Decides, Granted;
    var nat_, table :| Decides(sections, Nat, All, nat_)
        && Merges(table, Granted(sections, nat_, info)) && Lists(conf.routes, table, render);
    ListsSome(conf.routes, table, render);
    MergesSome(table, Granted(sections, nat_, info));
    if SectionsGrant(sections, info) {
      var nat' :| Decides(sections, Nat, All, nat') && Granted(sections, nat', info) != {};
      DecidesUnique(sections, Nat, All, nat_, nat');
    }
  }

  lemma ListsSome(routes: seq<Route>, table: Table, render: Network -> string)
    requires Lists(routes, table, render)
    ensures routes != [] <==> table != map[]
  {
    assert routes != [] ==> routes[0].network in table;
    if table != map[] {
      var n :| n in table;
      assert exists i :: 0 <= i < |routes| && routes[i].network == n;
    }
  }

  lemma MergesSome(table: Table, grants: set<Grant>)
    requires Merges(table, grants)
    ensures table != map[] <==> grants != {}
  {
    if grants != {} {
      var g :| g in grants;
      assert g.network in table;
    }
    if table != map[] {
      var n :| n in table;
      var g :| g in grants && g.network == n;
    }
  }

  // Every user's policy once.
  ghost predicate ListsAll(boot: seq<(string, UserConfig)>, configs: map<string, K.VpnUser>) {
    && OncePerUser(boot)
    && (forall b | b in boot :: b.0 in configs && b.1 == configs[b.0].config)
    && forall u | u in configs :: (u, configs[u].config) in boot
  }

  lemma {:induction false} BootRoutesOf(boot: seq<(string, UserConfig)>, user: string)
    requires OncePerUser(boot)
    ensures forall conf | (user, conf) in boot :: BootRoutes(boot, user) == conf.routes
    ensures (forall b | b in boot :: b.0 != user) ==> BootRoutes(boot, user) == []
  {
    if boot != [] {
      var most, last := boot[..|boot| - 1], boot[|boot| - 1];
      BootRoutesOf(most, user);
      assert forall b :: b in boot <==> b in most || b == last;
    }
  }

  lemma {:induction false} BootedChains(boot: seq<(string, UserConfig)>, user: string)
    requires OncePerUser(boot)
    ensures HasChain(Updates(boot), user) <==> BootRoutes(boot, user) != []
  {
    if boot != [] {
      var most, last := boot[..|boot| - 1], boot[|boot| - 1];
      BootedChains(most, user);
      CallsNext(Updates(most), UpdateFirewall(last.0, last.1));
      BootRoutesOf(most, user);
      assert last in boot && forall b | b in most :: b in boot && b != last;
    }
  }

  lemma NothingPasses(p: Packet)
    ensures !exists rule :: rule in Rules([]) && Matches(rule, p)
  {
    hide Matches;
  }

  // A user's policy at the start passes what the configuration permits, and is there if it gives routes.
  lemma PassesByConfiguration(
    boot: seq<(string, UserConfig)>, configs: map<string, K.VpnUser>, b: Backend, render: Network -> string,
    user: string, p: Packet)
    requires ListsAll(boot, configs) && Answered(configs, b, render)
    ensures PassesBy(boot, user, p) <==> Permits(b, user, p)
    ensures HasChain(Updates(boot), user) <==> GivesRoutes(b, user)
  {
    hide HasAccess, Describes, SectionsOf, BootRoutes, SectionsPermit, SectionsGrant, Rules, Matches, HasChain, Updates;
    BootRoutesOf(boot, user);
    BootedChains(boot, user);
    AnswersMean(configs, b, render, user);
    if user in configs {
      PolicyPermits(configs[user].config, SectionsOf(b, user), b.info.value, render, p);
      PolicyHasRoutes(configs[user].config, SectionsOf(b, user), b.info.value, render);
    } else {
      NothingPasses(p);
    }
  }

  lemma AnswersMean(configs: map<string, K.VpnUser>, b: Backend, render: Network -> string, user: string)
    requires Answered(configs, b, render)
    ensures user in configs <==> HasAccess(b, user)
    ensures user in configs ==> Describes(configs[user].config, SectionsOf(b, user), b.info.value, render)
  {
    hide Denied, Describes, Applicable;
  }

  // The range over the map of policies, in any order.
  method ListConfigs(configs: map<string, K.VpnUser>) returns (boot: seq<(string, UserConfig)>)
    ensures ListsAll(boot, configs)
  {
    boot := [];
    var rest := configs.Keys;
    while rest != {}
      invariant rest <= configs.Keys && OncePerUser(boot)
      invariant forall b | b in boot :: b.0 in configs && b.0 !in rest && b.1 == configs[b.0].config
      invariant forall u | u in configs && u !in rest :: (u, configs[u].config) in boot
    {
      var user :| user in rest;
      rest := rest - {user};
      boot := boot + [(user, configs[user].config)];
    }
  }

  // A connected client has this source, and the configuration lets the packet of its user pass.
  ghost predicate LetsByConfiguration(s: Session, b: Backend, p: Packet) {
    exists id :: id in s.clients && HasSource(s.clients[id], p) && Permits(b, s.clients[id].user, p)
  }

  lemma LetsMeans(
    s: Session, boot: seq<(string, UserConfig)>, configs: map<string, K.VpnUser>, b: Backend,
    render: Network -> string, p: Packet)
    requires ListsAll(boot, configs) && Answered(configs, b, render)
    ensures Lets(s, boot, p) <==> LetsByConfiguration(s, b, p)
  {
    hide PassesBy, Permits, ListsAll, Answered, GivesRoutes;
    forall user
      ensures PassesBy(boot, user, p) <==> Permits(b, user, p)
    {
      PassesByConfiguration(boot, configs, b, render, user, p);
    }
  }

  lemma ChainsMean(
    boot: seq<(string, UserConfig)>, configs: map<string, K.VpnUser>, b: Backend, render: Network -> string,
    mended: bool)
    requires ListsAll(boot, configs) && Answered(configs, b, render)
    ensures forall user :: HasChain(Booted(boot, mended).calls, user) <==> GivesRoutes(b, user)
  {
    hide ListsAll, Answered, GivesRoutes, HasChain, PassesBy, Permits;
    forall user
      ensures HasChain(Booted(boot, mended).calls, user) <==> GivesRoutes(b, user)
    {
      PassesByConfiguration(boot, configs, b, render, user, Packet(0, 0, false, 0));
    }
  }

  /**
   BootVPN and the events after it. The policies come from the configuration through buildUserConfigs, and
   each is handed to the firewall once: the users with a chain are those to whom the configuration gives a
   route. Up to the first event that is not expected, and even as written, a packet passes exactly when a
   connected client has its source address and what the sections that apply to the client's user grant
   allows it. The start fails exactly where the backend does, and stops exactly where withdrawing a key does.
   */
  method RunConfigured(
    users: K.UserManager, b: Backend, render: Network -> string, events: seq<Event>, mended: bool)
    returns (
      outcome: K.Outcome, m: Manager?, fw: FW.Firewall?, handled: nat, ghost call: Reload,
      ghost configs: map<string, K.VpnUser>, ghost boot: seq<(string, UserConfig)>)
    requires users.Valid() && C.Sound(users.index) && users.Configured() && Ordered(b.conf)
    modifies users, users.users.Values
    ensures users.Valid() && C.Sound(users.index) && users.Configured()
    ensures outcome == call.outcome
    ensures Reloads(users.naming, users.mended, State(old(users.Cache()), old(users.index)), b, call,
      State(users.Cache(), users.index))
    ensures outcome.Done? <==> m != null && fw != null
    ensures outcome.Done? ==> Answered(configs, b, render) && ListsAll(boot, configs)
    ensures outcome.Done? ==> forall user :: HasChain(Booted(boot, mended).calls, user) <==> GivesRoutes(b, user)
    ensures outcome.Done? ==>
      && handled <= |events| && After(Booted(boot, mended), events[..handled]) == Some(m.View())
      && AllExpected(Booted(boot, mended), events, handled)
      && (handled < |events| ==> !Expected(m.View(), events[handled]))
    ensures outcome.Done? ==> forall p :: fw.Forwards(p) <==> LetsByConfiguration(m.View(), b, p)
  {
    hide *;
    m, fw, handled, boot := null, null, 0, [];
    var answers;
    answers, call, outcome := ReloadOnce(users, b, render);
    configs := answers;
    if !outcome.Done? {
      return;
    }
    AnsweredFrom(answers, b, render);
    var policies := ListConfigs(answers);
    boot := policies;
    ListedOnce(boot, configs);
    ChainsMean(boot, configs, b, render, mended);
    m, fw, handled := RunServer(policies, events, mended);
    forall p
      ensures fw.Forwards(p) <==> LetsByConfiguration(m.View(), b, p)
    {
      LetsMeans(m.View(), boot, configs, b, render, p);
    }
  }

  lemma AnsweredFrom(configs: map<string, K.VpnUser>, b: Backend, render: Network -> string)
    requires b.info.Some? && K.Answers(configs, b.conf, b.info.value, b.fetchGroup, b.fetchKeys, render)
    ensures Answered(configs, b, render)
  {
  }

  lemma ListedOnce(boot: seq<(string, UserConfig)>, configs: map<string, K.VpnUser>)
    requires ListsAll(boot, configs)
    ensures OncePerUser(boot)
  {
  }
}
