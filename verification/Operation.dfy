/**
 The server in operation: client events, configuration updates and connections ended from the server's
 side, in any order. As written an update of the configuration never gets anywhere; mended, the latest
 policy is what decides.
 */
module Operation {
  import opened Sequences
  import opened Iptables
  import opened Policy
  import opened Pipeline
  import opened Sessions
  import opened Enforcement
  import FW = Firewall

  datatype Step = Happens(event: Event) | Brings(answer: UpdateAnswer) | Ends(user: string)

  // What a step makes of the manager. An update goes through its users in some order.
  ghost predicate Moves(s: Session, step: Step, t: Session) {
    match step
    case Happens(e) => !Stops(s, e) && t == Next(s, e)
    case Brings(answer) => if s.mended && answer.Updated? then Refreshes(s, answer.configs, t) else t == s
    case Ends(user) => t == Ended(s, user)
  }

  ghost predicate Refreshes(s: Session, configs: map<string, UserInfo>, t: Session) {
    exists order ::
      Distinct(order) && Elements(order) == configs.Keys && (forall u | u in order :: u in configs)
      && t == RefreshedAll(s, order, configs)
  }

  // What keeps everything in step: an event is expected, and, as written, no address is left behind.
  predicate Proper(s: Session, step: Step) {
    match step
    case Happens(e) => Expected(s, e)
    case Brings(_) => true
    case Ends(user) => s.mended || !HasAddress(s, user)
  }

  predicate HasAddress(s: Session, user: string) {
    user in s.current && s.current[user].clientId in s.clients && s.clients[s.current[user].clientId].address.Some?
  }

  lemma UpdateKeepsStep(s: Session, user: string, conf: UserConfig)
    requires InStep(s)
    ensures InStep(s.(calls := s.calls + [UpdateFirewall(user, conf)]))
    ensures forall u ::
      LatestRoutes(s.calls + [UpdateFirewall(user, conf)], u) ==
        if u == user then conf.routes else LatestRoutes(s.calls, u)
  {
    hide Good, Linked, Registered, Owners, Provided, LatestRoutes;
    var called := s.(calls := s.calls + [UpdateFirewall(user, conf)]);
    CalledGood(s, called);
    CallsNext(s.calls, UpdateFirewall(user, conf));
    UpdateRecord(s.calls, user, conf);
    assert Seats(called) == Seats(s);
  }

  lemma EndInStepIff(s: Session, user: string)
    requires InStep(s)
    ensures InStep(Ended(s, user)) <==> s.mended || !HasAddress(s, user)
    ensures Requests(Ended(s, user).calls) == Requests(s.calls) && Ended(s, user).mended == s.mended
    ensures forall u :: LatestRoutes(Ended(s, user).calls, u) == LatestRoutes(s.calls, u)
  {
    hide InOrder, Provided, Requests, LatestRoutes, HasChain, Good;
    EndedInOrderIff(s, user);
    OrderIsGood(s);
    if user in s.current {
      CurrentClient(s, user);
      var client := s.clients[s.current[user].clientId];
      SmallCalls(s.calls, if s.mended then TakenBack(client) else []);
    }
  }

  lemma OrderIsGood(s: Session)
    requires InOrder(s)
    ensures Good(s)
  {
  }

  // One user of an update.
  lemma RefreshedInStep(s: Session, user: string, info: UserInfo)
    requires InStep(s) && s.mended
    ensures InStep(Refreshed(s, user, info)) && Refreshed(s, user, info).mended
    ensures forall u ::
      LatestRoutes(Refreshed(s, user, info).calls, u) ==
        if u == user then info.conf.routes else LatestRoutes(s.calls, u)
  {
    hide InStep, LatestRoutes, Ended;
    UpdateKeepsStep(s, user, info.conf);
    EndInStepIff(s.(calls := s.calls + [UpdateFirewall(user, info.conf)]), user);
  }

  lemma {:induction false} RefreshedAllInStep(s: Session, order: seq<string>, configs: map<string, UserInfo>)
    requires InStep(s) && s.mended && forall u | u in order :: u in configs
    ensures InStep(RefreshedAll(s, order, configs)) && RefreshedAll(s, order, configs).mended
    ensures forall u ::
      LatestRoutes(RefreshedAll(s, order, configs).calls, u) ==
        if u in order then configs[u].conf.routes else LatestRoutes(s.calls, u)
  {
    hide InStep, LatestRoutes, Refreshed;
    if order != [] {
      var most, last := order[..|order| - 1], order[|order| - 1];
      RefreshedAllInStep(s, most, configs);
      RefreshedInStep(RefreshedAll(s, most, configs), last, configs[last]);
      assert forall u :: u in order <==> u in most || u == last;
    }
  }

  // The policies after a step.
  function PolicyAfter(mended: bool, step: Step, user: string, before: seq<Route>): seq<Route> {
    if mended && step.Brings? && step.answer.Updated? && user in step.answer.configs
    then step.answer.configs[user].conf.routes
    else before
  }

  /** A step leaves everything in step exactly if it is proper, and then the policies are the latest ones. */
  lemma StepInStepIff(s: Session, step: Step, t: Session)
    requires InStep(s) && Moves(s, step, t)
    ensures InStep(t) <==> Proper(s, step)
    ensures t.mended == s.mended
    ensures Proper(s, step) ==>
      && (forall u :: LatestRoutes(t.calls, u) == PolicyAfter(s.mended, step, u, LatestRoutes(s.calls, u)))
      && (!s.mended ==> Requests(t.calls) == Requests(s.calls))
  {
    hide InStep, LatestRoutes, Requests, Next, Stops, Ended, RefreshedAll, Expected;
    match step
    case Happens(e) =>
      StaysInStepIff(s, e);
      NextSeats(s, e);
    case Brings(answer) =>
      if s.mended && answer.Updated? {
        var order :| Distinct(order) && Elements(order) == answer.configs.Keys
          && (forall u | u in order :: u in answer.configs) && t == RefreshedAll(s, order, answer.configs);
        RefreshedAllInStep(s, order, answer.configs);
        assert forall u :: u in order <==> u in Elements(order);
      }
    case Ends(user) => EndInStepIff(s, user);
  }

  // The states before, between and after the steps of a run.
  ghost predicate IsServed(states: seq<Session>, steps: seq<Step>) {
    |states| == |steps| + 1 && forall k | 0 <= k < |steps| :: Moves(states[k], steps[k], states[k + 1])
  }

  /** A run stays in step throughout exactly if every step is proper where it comes. */
  lemma {:induction false} ServedInStepIff(states: seq<Session>, steps: seq<Step>)
    requires IsServed(states, steps) && InStep(states[0])
    ensures (forall k | 0 <= k <= |steps| :: InStep(states[k])) <==>
      forall k | 0 <= k < |steps| :: Proper(states[k], steps[k])
  {
    hide InStep, Moves, Proper;
    if steps != [] {
      var n := |steps| - 1;
      var before, most := states[..n + 1], steps[..n];
      assert forall k | 0 <= k < n :: Moves(before[k], most[k], before[k + 1]) by {
        assert forall k | 0 <= k < n :: Moves(states[k], steps[k], states[k + 1]);
      }
      ServedInStepIff(before, most);
      assert (forall k | 0 <= k <= n :: InStep(before[k])) <==> forall k | 0 <= k <= n :: InStep(states[k]);
      assert (forall k | 0 <= k < n :: Proper(before[k], most[k])) <==>
        forall k | 0 <= k < n :: Proper(states[k], steps[k]);
      if InStep(states[n]) {
        StepInStepIff(states[n], steps[n], states[n + 1]);
      }
      assert (forall k | 0 <= k <= n + 1 :: InStep(states[k])) <==>
        (forall k | 0 <= k <= n :: InStep(states[k])) && InStep(states[n + 1]);
      assert (forall k | 0 <= k < n + 1 :: Proper(states[k], steps[k])) <==>
        (forall k | 0 <= k < n :: Proper(states[k], steps[k])) && Proper(states[n], steps[n]);
    }
  }

  // The routes of the policy in force: that of the last update that named the user, or of the start.
  function InForce(boot: seq<(string, UserConfig)>, mended: bool, steps: seq<Step>, user: string): seq<Route> {
    if steps == [] then BootRoutes(boot, user)
    else PolicyAfter(mended, steps[|steps| - 1], user, InForce(boot, mended, steps[..|steps| - 1], user))
  }

  ghost predicate PassesNow(
    boot: seq<(string, UserConfig)>, mended: bool, steps: seq<Step>, user: string, p: Packet)
  {
    exists rule :: rule in Rules(InForce(boot, mended, steps, user)) && Matches(rule, p)
  }

  // A connected client has the source, and the policy in force for its user lets the packet pass.
  ghost predicate LetsNow(
    s: Session, boot: seq<(string, UserConfig)>, mended: bool, steps: seq<Step>, p: Packet)
  {
    exists id :: id in s.clients && HasSource(s.clients[id], p) && PassesNow(boot, mended, steps, s.clients[id].user, p)
  }

  // One step of the server.
  method Take(m: Manager, step: Step)
    requires m.Valid() && InStep(m.View()) && Proper(m.View(), step)
    modifies m, m.clients.Values
    ensures m.Valid() && Moves(old(m.View()), step, m.View())
    ensures fresh(m.clients.Values - old(m.clients.Values))
  {
    hide InStep, Expected, Next, Stops, Ended, RefreshedAll, Records, Holders, Filed;
    match step {
      case Happens(e) =>
        StaysInStepIff(m.View(), e);
        var _ := m.ProcessClientEvent(e);
      case Brings(answer) =>
        var order := m.UpdateConfig(answer);
        if m.mended && answer.Updated? {
          assert Distinct(order) && Elements(order) == answer.configs.Keys;
          assert forall u | u in order :: u in Elements(order);
        }
      case Ends(user) =>
        m.DisconnectUser(user);
    }
  }

  /**
   The server from its start on, through events, updates and ends in any order, up to the first step that is
   not proper. Mended, the only thing that is not is an address announced that another client has, or that
   changes, or whose user never had a route. A packet passes exactly when a connected client has its source
   and the latest policy of that client's user lets it pass.
   */
  method Operate(boot: seq<(string, UserConfig)>, steps: seq<Step>, mended: bool)
    returns (m: Manager, fw: FW.Firewall, handled: nat, ghost states: seq<Session>)
    requires OncePerUser(boot)
    ensures m.Valid() && handled <= |steps| && IsServed(states, steps[..handled])
    ensures states[0] == Booted(boot, mended) && states[handled] == m.View()
    ensures forall k | 0 <= k < handled :: Proper(states[k], steps[k])
    ensures handled < |steps| ==> !Proper(m.View(), steps[handled])
    ensures InStep(m.View()) && Enforces(fw, m.View().calls)
    ensures forall p :: fw.Forwards(p) <==> LetsNow(m.View(), boot, mended, steps[..handled], p)
  {
    hide *;
    BootedInStep(boot, mended);
    m := new Manager(mended);
    HandOver(m, boot);
    states, handled := [m.View()], 0;
    Starting(boot, mended, steps);
    while handled < |steps| && Proper(m.View(), steps[handled])
      invariant handled <= |steps| && fresh(m) && fresh(m.clients.Values) && m.Valid() && InStep(m.View())
      invariant m.View().mended == mended
      invariant IsServed(states, steps[..handled]) && |states| == handled + 1
      invariant states[0] == Booted(boot, mended) && states[handled] == m.View()
      invariant forall k | 0 <= k < handled :: Proper(states[k], steps[k])
      invariant forall user :: LatestRoutes(m.View().calls, user) == InForce(boot, mended, steps[..handled], user)
      invariant mended || FW.Grows(Requests(m.View().calls))
    {
      ghost var before := m.View();
      Take(m, steps[handled]);
      StepInStepIff(before, steps[handled], m.View());
      ServedNext(states, steps, handled, m.View());
      InForceNext(boot, mended, steps, handled);
      states := states + [m.View()];
      handled := handled + 1;
    }
    StepMeans(m.View());
    ghost var chains;
    fw, chains := Enforce(m.View().calls, mended);
    forall p
      ensures fw.Forwards(p) <==> LetsNow(m.View(), boot, mended, steps[..handled], p)
    {
      ConnectedClientsOnly(m.View(), fw, p);
      NowMeans(m.View(), boot, mended, steps[..handled], p);
    }
  }

  lemma Starting(boot: seq<(string, UserConfig)>, mended: bool, steps: seq<Step>)
    ensures IsServed([Booted(boot, mended)], steps[..0]) && Booted(boot, mended).mended == mended
    ensures forall user :: InForce(boot, mended, steps[..0], user) == BootRoutes(boot, user)
  {
  }

  lemma ServedNext(states: seq<Session>, steps: seq<Step>, k: nat, next: Session)
    requires k < |steps| && IsServed(states, steps[..k]) && Moves(states[k], steps[k], next)
    ensures IsServed(states + [next], steps[..k + 1]) && |states| == k + 1
  {
    hide Moves;
    forall i | 0 <= i <= k
      ensures Moves((states + [next])[i], steps[..k + 1][i], (states + [next])[i + 1])
    {
      assert i < k ==> Moves(states[i], steps[..k][i], states[i + 1]);
    }
  }

  lemma InForceNext(boot: seq<(string, UserConfig)>, mended: bool, steps: seq<Step>, k: nat)
    requires k < |steps|
    ensures forall user ::
      InForce(boot, mended, steps[..k + 1], user) ==
        PolicyAfter(mended, steps[k], user, InForce(boot, mended, steps[..k], user))
  {
    hide PolicyAfter;
    assert steps[..k + 1][..k] == steps[..k];
  }

  lemma StepMeans(s: Session)
    requires InStep(s)
    ensures InOrder(s) && Provided(s.calls)
  {
  }

  lemma NowMeans(s: Session, boot: seq<(string, UserConfig)>, mended: bool, steps: seq<Step>, p: Packet)
    requires forall user :: LatestRoutes(s.calls, user) == InForce(boot, mended, steps, user)
    ensures ClientMayPass(s, p) <==> LetsNow(s, boot, mended, steps, p)
  {
    hide LatestRoutes, InForce, Rules, Matches, HasSource;
  }
}
