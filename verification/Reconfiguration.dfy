/**
 The server from its start on, through client events, ends and updates that read the configuration and the
 key lists anew: which configuration decides about a packet.
 */
module Reconfiguration {
  import opened Iptables
  import opened Policy
  import opened Pipeline
  import opened Sessions
  import opened Enforcement
  import opened KeyHistory
  import opened Service
  import C = CertTables
  import FW = Firewall
  import K = Keys
  import O = Operation

  datatype Turn = Happens(event: Event) | Reads(backend: Backend) | Ends(user: string)

  // What an update hands to the connection manager.
  function Infos(configs: map<string, K.VpnUser>): map<string, UserInfo> {
    map u | u in configs :: UserInfo(configs[u].keys, configs[u].config)
  }

  // What a turn is for the connection manager: an update that comes through brings what the backend's
  // configuration answers.
  ghost predicate IsStep(turn: Turn, call: Reload, step: O.Step, render: Network -> string) {
    match turn
    case Happens(e) => step == O.Happens(e)
    case Ends(user) => step == O.Ends(user)
    case Reads(b) => !call.outcome.Stopped? && step.Brings? && Tells(step.answer, call.outcome, b, render)
  }

  // What it is for the user manager.
  ghost predicate KeysMove(n: K.Naming, mended: bool, a: State, turn: Turn, call: Reload, z: State)
    requires C.Sound(a.index)
  {
    if turn.Reads? then Reloads(n, mended, a, turn.backend, call, z) else z == a
  }

  predicate ProperTurn(s: Session, turn: Turn) {
    match turn
    case Happens(e) => Expected(s, e)
    case Ends(user) => O.Proper(s, O.Ends(user))
    case Reads(_) => true
  }

  /**
   One turn. An update asks the backend, and hands its answer on unless withdrawing a key stops the server.
   */
  method TakeTurn(users: K.UserManager, m: Manager, turn: Turn, render: Network -> string)
    returns (stopped: bool, ghost call: Reload, ghost step: O.Step)
    requires users.Valid() && C.Sound(users.index) && users.Configured()
    requires turn.Reads? ==> Ordered(turn.backend.conf)
    requires m.Valid() && InStep(m.View()) && ProperTurn(m.View(), turn)
    modifies users, users.users.Values, m, m.clients.Values
    ensures users.Valid() && C.Sound(users.index) && users.Configured() && m.Valid()
    ensures fresh(users.users.Values - old(users.users.Values)) && fresh(m.clients.Values - old(m.clients.Values))
    ensures KeysMove(users.naming, users.mended, State(old(users.Cache()), old(users.index)), turn, call,
      State(users.Cache(), users.index))
    ensures stopped <==> turn.Reads? && call.outcome.Stopped?
    ensures stopped ==> m.View() == old(m.View())
    ensures !stopped ==>
      IsStep(turn, call, step, render) && O.Proper(old(m.View()), step) && O.Moves(old(m.View()), step, m.View())
  {
    hide *;
    stopped, call := false, Reload(K.Done, "", [], map[]);
    ghost var keys := State(users.Cache(), users.index);
    var move;
    if turn.Reads? {
      var answer;
      stopped, answer, call := ReadAnew(users, turn.backend, render);
      KeysRead(users.naming, users.mended, keys, turn, call, State(users.Cache(), users.index));
      move, step := O.Brings(answer), O.Brings(answer);
      if stopped {
        return;
      }
      ReadMeans(m.View(), turn, call, answer, render);
    } else {
      move := if turn.Happens? then O.Happens(turn.event) else O.Ends(turn.user);
      step := move;
      TurnMeans(m.View(), turn, step);
      KeysStay(users.naming, users.mended, keys, turn, call);
    }
    O.Take(m, move);
  }

  // userManager.update, as far as its answer goes.
  method ReadAnew(users: K.UserManager, b: Backend, render: Network -> string)
    returns (stopped: bool, answer: UpdateAnswer, ghost call: Reload)
    requires users.Valid() && C.Sound(users.index) && users.Configured() && Ordered(b.conf)
    modifies users, users.users.Values
    ensures users.Valid() && C.Sound(users.index) && users.Configured()
    ensures fresh(users.users.Values - old(users.users.Values))
    ensures Reloads(users.naming, users.mended, State(old(users.Cache()), old(users.index)), b, call,
      State(users.Cache(), users.index))
    ensures stopped <==> call.outcome.Stopped?
    ensures Tells(answer, call.outcome, b, render)
  {
    hide *;
    var configs, outcome;
    configs, call, outcome := ReloadOnce(users, b, render);
    stopped, answer := outcome.Stopped?, Failed(true);
    if outcome.Done? {
      AnsweredFrom(configs, b, render);
      answer := Updated(Infos(configs));
      TellsConfigs(configs, outcome, b, render);
    } else {
      TellsFailure(outcome, b, render);
    }
  }

  ghost predicate Tells(answer: UpdateAnswer, outcome: K.Outcome, b: Backend, render: Network -> string) {
    if outcome.Done? then exists configs :: Answered(configs, b, render) && answer == Updated(Infos(configs))
    else answer.Failed?
  }

  lemma TellsConfigs(configs: map<string, K.VpnUser>, outcome: K.Outcome, b: Backend, render: Network -> string)
    requires outcome.Done? && Answered(configs, b, render)
    ensures Tells(Updated(Infos(configs)), outcome, b, render)
  {
  }

  lemma TellsFailure(outcome: K.Outcome, b: Backend, render: Network -> string)
    requires !outcome.Done?
    ensures Tells(Failed(true), outcome, b, render)
  {
  }

  lemma TurnMeans(s: Session, turn: Turn, step: O.Step)
    requires ProperTurn(s, turn) && !turn.Reads?
    requires step == if turn.Happens? then O.Happens(turn.event) else O.Ends(turn.user)
    ensures O.Proper(s, step)
    ensures forall call: Reload, render: Network -> string :: IsStep(turn, call, step, render)
  {
    hide Expected;
  }

  lemma ReadMeans(
    s: Session, turn: Turn, call: Reload, answer: UpdateAnswer, render: Network -> string)
    requires turn.Reads? && !call.outcome.Stopped? && Tells(answer, call.outcome, turn.backend, render)
    ensures O.Proper(s, O.Brings(answer)) && IsStep(turn, call, O.Brings(answer), render)
  {
    hide Tells;
  }

  lemma KeysStay(n: K.Naming, mended: bool, a: State, turn: Turn, call: Reload)
    requires C.Sound(a.index) && !turn.Reads?
    ensures KeysMove(n, mended, a, turn, call, a)
  {
  }

  lemma KeysRead(n: K.Naming, mended: bool, a: State, turn: Turn, call: Reload, z: State)
    requires C.Sound(a.index) && turn.Reads? && Reloads(n, mended, a, turn.backend, call, z)
    ensures KeysMove(n, mended, a, turn, call, z)
  {
  }

  // A run of turns: the policies at the start, and the states of both managers before, between and after.
  datatype Trace = Trace(
    configs: map<string, K.VpnUser>, boot: seq<(string, UserConfig)>, keys: seq<State>, calls: seq<Reload>,
    steps: seq<O.Step>, sessions: seq<Session>)

  ghost predicate IsTrace(
    t: Trace, n: K.Naming, keysMended: bool, first: Backend, turns: seq<Turn>, mended: bool, render: Network -> string)
  {
    && Starts(t, first, mended, render)
    && |t.keys| == |turns| + 1 && |t.calls| == |t.steps| == |turns| && |t.sessions| == |turns| + 1
    && forall k | 0 <= k < |turns| :: TurnTaken(t, k, n, keysMended, turns[k], render)
  }

  ghost predicate Starts(t: Trace, first: Backend, mended: bool, render: Network -> string) {
    && Answered(t.configs, first, render) && ListsAll(t.boot, t.configs)
    && t.sessions != [] && t.sessions[0] == Booted(t.boot, mended)
  }

  ghost predicate TurnTaken(
    t: Trace, k: nat, n: K.Naming, keysMended: bool, turn: Turn, render: Network -> string)
    requires k < |t.calls| == |t.steps| && |t.keys| == |t.sessions| == |t.calls| + 1
  {
    && C.Sound(t.keys[k].index) && KeysMove(n, keysMended, t.keys[k], turn, t.calls[k], t.keys[k + 1])
    && IsStep(turn, t.calls[k], t.steps[k], render)
    && O.Proper(t.sessions[k], t.steps[k]) && O.Moves(t.sessions[k], t.steps[k], t.sessions[k + 1])
  }

  // The configuration in force for a user: the last one read that has answered the user, or the first.
  ghost function InForceFor(first: Backend, mended: bool, turns: seq<Turn>, calls: seq<Reload>, user: string): Backend
    requires |calls| == |turns|
  {
    if turns == [] then first
    else
      var n := |turns| - 1;
      if mended && turns[n].Reads? && calls[n].outcome.Done? && HasAccess(turns[n].backend, user)
      then turns[n].backend
      else InForceFor(first, mended, turns[..n], calls[..n], user)
  }

  // The configuration in force for the user lets the packet pass.
  ghost predicate PermitsNow(
    first: Backend, mended: bool, turns: seq<Turn>, calls: seq<Reload>, user: string, p: Packet)
    requires |calls| == |turns|
  {
    Permits(InForceFor(first, mended, turns, calls, user), user, p)
  }

  // What the routes in force for a user pass is what the configuration in force permits.
  lemma {:induction false} ForceMeans(
    t: Trace, first: Backend, turns: seq<Turn>, mended: bool, render: Network -> string, user: string, p: Packet)
    requires Answered(t.configs, first, render) && ListsAll(t.boot, t.configs)
    requires |t.calls| == |t.steps| == |turns|
    requires forall k | 0 <= k < |turns| :: IsStep(turns[k], t.calls[k], t.steps[k], render)
    ensures O.PassesNow(t.boot, mended, t.steps, user, p) <==> PermitsNow(first, mended, turns, t.calls, user, p)
    decreases |turns|
  {
    hide IsStep, Answered, ListsAll, Permits, HasAccess, Rules, Matches, BootRoutes, O.PolicyAfter, Infos, GivesRoutes;
    if turns == [] {
      PassesByConfiguration(t.boot, t.configs, first, render, user, p);
      StartsWith(t.boot, mended, user, p);
    } else {
      var n := |turns| - 1;
      var before := t.(calls := t.calls[..n], steps := t.steps[..n]);
      ForceMeans(before, first, turns[..n], mended, render, user, p);
      assert IsStep(turns[n], t.calls[n], t.steps[n], render);
      StepMeans(t.boot, mended, t.steps, turns[n], t.calls[n], render, user, p);
    }
  }

  lemma StartsWith(boot: seq<(string, UserConfig)>, mended: bool, user: string, p: Packet)
    ensures O.PassesNow(boot, mended, [], user, p) <==> PassesBy(boot, user, p)
  {
  }

  lemma StepMeans(
    boot: seq<(string, UserConfig)>, mended: bool, steps: seq<O.Step>, turn: Turn, call: Reload,
    render: Network -> string, user: string, p: Packet)
    requires steps != [] && IsStep(turn, call, steps[|steps| - 1], render)
    ensures O.PassesNow(boot, mended, steps, user, p) <==>
      if mended && turn.Reads? && call.outcome.Done? && HasAccess(turn.backend, user)
      then Permits(turn.backend, user, p)
      else O.PassesNow(boot, mended, steps[..|steps| - 1], user, p)
  {
    hide Answered, HasAccess, Rules, Matches, SectionsPermit, Describes, SectionsOf;
    var last := steps[|steps| - 1];
    if turn.Reads? && call.outcome.Done? {
      var b := turn.backend;
      var configs: map<string, K.VpnUser> :| Answered(configs, b, render) && last.answer == Updated(Infos(configs));
      AnswersMean(configs, b, render, user);
      NetworksKnown(configs, b, render);
      if user in configs {
        PolicyPermits(configs[user].config, SectionsOf(b, user), b.info.value, render, p);
      }
    }
  }

  lemma NetworksKnown(configs: map<string, K.VpnUser>, b: Backend, render: Network -> string)
    requires Answered(configs, b, render)
    ensures b.info.Some?
  {
  }

  /**
   Right after an update that came through, mended: the configuration it read decides for everybody exactly if
   nobody it denies was let through before. Users without access are not in its answer, so that they keep
   their policy.
   */
  lemma LatestDecidesIff(first: Backend, turns: seq<Turn>, calls: seq<Reload>, b: Backend, call: Reload)
    requires |calls| == |turns| && call.outcome.Done?
    ensures (forall user, p :: PermitsNow(first, true, turns + [Reads(b)], calls + [call], user, p) <==>
        Permits(b, user, p)) <==>
      forall user, p | PermitsNow(first, true, turns, calls, user, p) :: HasAccess(b, user)
  {
    hide SectionsPermit, SectionsOf, HasAccess;
    assert (turns + [Reads(b)])[..|turns|] == turns && (calls + [call])[..|turns|] == calls;
    forall user, p
      ensures PermitsNow(first, true, turns + [Reads(b)], calls + [call], user, p) <==>
        if HasAccess(b, user) then Permits(b, user, p) else PermitsNow(first, true, turns, calls, user, p)
    {
    }
    assert forall user, p :: Permits(b, user, p) ==> HasAccess(b, user);
  }

  // So a user dropped from the configuration goes on being let through.
  lemma DroppedUserStays(first: Backend, b: Backend, call: Reload, user: string, p: Packet)
    requires Permits(first, user, p) && !HasAccess(b, user) && call.outcome.Done?
    ensures !Permits(b, user, p) && PermitsNow(first, true, [Reads(b)], [call], user, p)
  {
    hide HasAccess, SectionsPermit, SectionsOf;
    assert [Reads(b)][..0] == [] && [call][..0] == [];
    assert PermitsNow(first, true, [], [], user, p);
  }

  // A connected client has the source, and the configuration in force for its user lets the packet pass.
  ghost predicate LetsNow(
    s: Session, first: Backend, mended: bool, turns: seq<Turn>, calls: seq<Reload>, p: Packet)
    requires |calls| == |turns|
  {
    exists id :: id in s.clients && HasSource(s.clients[id], p)
      && PermitsNow(first, mended, turns, calls, s.clients[id].user, p)
  }

  /**
   BootVPN and everything after it: events, ends, and updates that read configuration, groups and key lists
   anew, up to the first turn that is not proper or in which withdrawing a key stops the server. A packet
   passes exactly when a connected client has its source and the configuration in force for the client's user
   permits it: as written that of the start, mended the last one that came through and answered the user.
   */
  method RunReconfigured(
    users: K.UserManager, first: Backend, turns: seq<Turn>, mended: bool, render: Network -> string)
    returns (
      outcome: K.Outcome, m: Manager?, fw: FW.Firewall?, handled: nat, stopped: bool, ghost start: Reload,
      ghost t: Trace, ghost last: Reload)
    requires users.Valid() && C.Sound(users.index) && users.Configured() && Ordered(first.conf)
    requires forall turn | turn in turns && turn.Reads? :: Ordered(turn.backend.conf)
    modifies users, users.users.Values
    ensures users.Valid() && C.Sound(users.index) && users.Configured()
    ensures outcome == start.outcome && handled <= |turns|
    ensures t.keys != [] && C.Sound(t.keys[0].index)
    ensures Reloads(users.naming, users.mended, State(old(users.Cache()), old(users.index)), first, start, t.keys[0])
    ensures outcome.Done? <==> m != null && fw != null
    ensures outcome.Done? ==>
      IsTrace(t, users.naming, users.mended, first, turns[..handled], mended, render)
      && C.Sound(t.keys[handled].index) && t.sessions[handled] == m.View() && InStep(m.View())
    ensures outcome.Done? && stopped ==>
      handled < |turns| && turns[handled].Reads? && last.outcome.Stopped?
      && Reloads(users.naming, users.mended, t.keys[handled], turns[handled].backend, last,
           State(users.Cache(), users.index))
    ensures outcome.Done? && !stopped ==>
      State(users.Cache(), users.index) == t.keys[handled]
      && (handled < |turns| ==> !ProperTurn(m.View(), turns[handled]))
    ensures outcome.Done? ==> forall p ::
      fw.Forwards(p) <==> LetsNow(m.View(), first, mended, turns[..handled], t.calls, p)
  {
    hide *;
    m, fw, handled, stopped := null, null, 0, false;
    var configs;
    configs, start, outcome := ReloadOnce(users, first, render);
    last := start;
    ghost var keys := State(users.Cache(), users.index);
    t := Trace(configs, [], [keys], [], [], []);
    if !outcome.Done? {
      return;
    }
    AnsweredFrom(configs, first, render);
    var boot := ListConfigs(configs);
    m := Boot(boot, configs, mended);
    t := Trace(configs, boot, [keys], [], [], [m.View()]);
    TraceStarts(t, users.naming, users.mended, first, mended, render);
    handled, stopped, t, last := TakeTurns(users, m, first, turns, mended, render, t);
    O.StepMeans(m.View());
    FollowMeans(m.View(), boot, mended, t.steps);
    ghost var chains;
    fw, chains := Enforce(m.View().calls, mended);
    forall p
      ensures fw.Forwards(p) <==> LetsNow(m.View(), first, mended, turns[..handled], t.calls, p)
    {
      ConnectedClientsOnly(m.View(), fw, p);
      O.NowMeans(m.View(), boot, mended, t.steps, p);
      NowMeans(m.View(), t, users.naming, users.mended, first, turns[..handled], mended, render, p);
    }
  }

  // A new manager, with the policies handed over.
  method Boot(boot: seq<(string, UserConfig)>, ghost configs: map<string, K.VpnUser>, mended: bool)
    returns (m: Manager)
    requires ListsAll(boot, configs)
    ensures fresh(m) && fresh(m.clients.Values) && m.Valid() && m.View() == Booted(boot, mended) && InStep(m.View())
    ensures Follow(m.View(), boot, mended, [])
  {
    hide *;
    ListedOnce(boot, configs);
    BootedInStep(boot, mended);
    m := new Manager(mended);
    HandOver(m, boot);
    FollowStarts(boot, mended);
  }

  // The turns, one by one, up to the first that is not proper or stops the server.
  method TakeTurns(
    users: K.UserManager, m: Manager, ghost first: Backend, turns: seq<Turn>, ghost mended: bool,
    render: Network -> string, ghost from: Trace)
    returns (handled: nat, stopped: bool, ghost t: Trace, ghost last: Reload)
    requires users.Valid() && C.Sound(users.index) && users.Configured()
    requires forall turn | turn in turns && turn.Reads? :: Ordered(turn.backend.conf)
    requires m.Valid() && InStep(m.View())
    requires IsTrace(from, users.naming, users.mended, first, [], mended, render)
    requires from.keys == [State(users.Cache(), users.index)] && from.sessions == [m.View()]
    requires from.steps == [] && from.calls == []
    requires Follow(m.View(), from.boot, mended, [])
    modifies users, users.users.Values, m, m.clients.Values
    ensures users.Valid() && C.Sound(users.index) && users.Configured() && m.Valid() && InStep(m.View())
    ensures fresh(users.users.Values - old(users.users.Values)) && fresh(m.clients.Values - old(m.clients.Values))
    ensures handled <= |turns| && IsTrace(t, users.naming, users.mended, first, turns[..handled], mended, render)
    ensures |t.keys| == handled + 1 && |t.calls| == handled && t.boot == from.boot && t.keys[0] == from.keys[0]
    ensures Follow(m.View(), t.boot, mended, t.steps)
    ensures C.Sound(t.keys[handled].index) && t.sessions[handled] == m.View()
    ensures stopped ==>
      handled < |turns| && turns[handled].Reads? && last.outcome.Stopped?
      && Reloads(users.naming, users.mended, t.keys[handled], turns[handled].backend, last,
           State(users.Cache(), users.index))
    ensures !stopped ==>
      State(users.Cache(), users.index) == t.keys[handled]
      && (handled < |turns| ==> !ProperTurn(m.View(), turns[handled]))
  {
    hide *;
    handled, stopped, t, last := 0, false, from, Reload(K.Done, "", [], map[]);
    while handled < |turns| && ProperTurn(m.View(), turns[handled])
      invariant users.Valid() && C.Sound(users.index) && users.Configured() && m.Valid() && InStep(m.View())
      invariant fresh(users.users.Values - old(users.users.Values))
      invariant fresh(m.clients.Values - old(m.clients.Values))
      invariant handled <= |turns|
      invariant IsTrace(t, users.naming, users.mended, first, turns[..handled], mended, render)
      invariant |t.calls| == handled && |t.keys| == |t.sessions| == handled + 1
      invariant t.boot == from.boot && t.keys[0] == from.keys[0]
      invariant State(users.Cache(), users.index) == t.keys[handled] && t.sessions[handled] == m.View()
      invariant Follow(m.View(), t.boot, mended, t.steps)
    {
      ghost var before, step := m.View(), O.Ends("");
      stopped, last, step := TakeTurn(users, m, turns[handled], render);
      ghost var keys := State(users.Cache(), users.index);
      if stopped {
        ReadMoves(users.naming, users.mended, t.keys[handled], turns[handled], last, keys);
        return;
      }
      FollowNext(before, t.boot, mended, t.steps, step, m.View());
      TraceNext(t, users.naming, users.mended, first, turns, handled, mended, render, last, step, keys, m.View());
      t := t.(keys := t.keys + [keys], calls := t.calls + [last], steps := t.steps + [step],
        sessions := t.sessions + [m.View()]);
      handled := handled + 1;
    }
  }

  // The firewall calls made are those of the steps: the latest routes are the ones in force.
  ghost predicate Follow(s: Session, boot: seq<(string, UserConfig)>, mended: bool, steps: seq<O.Step>) {
    && s.mended == mended && (mended || FW.Grows(Requests(s.calls)))
    && forall user :: LatestRoutes(s.calls, user) == O.InForce(boot, mended, steps, user)
  }

  lemma FollowMeans(s: Session, boot: seq<(string, UserConfig)>, mended: bool, steps: seq<O.Step>)
    requires Follow(s, boot, mended, steps)
    ensures mended || FW.Grows(Requests(s.calls))
    ensures forall user :: LatestRoutes(s.calls, user) == O.InForce(boot, mended, steps, user)
  {
  }

  lemma FollowStarts(boot: seq<(string, UserConfig)>, mended: bool)
    requires OncePerUser(boot)
    ensures Follow(Booted(boot, mended), boot, mended, [])
  {
    hide Booted, LatestRoutes, Requests, FW.Grows;
    BootedInStep(boot, mended);
    O.Starting(boot, mended, []);
  }

  lemma FollowNext(
    s: Session, boot: seq<(string, UserConfig)>, mended: bool, steps: seq<O.Step>, step: O.Step, t: Session)
    requires InStep(s) && O.Moves(s, step, t) && O.Proper(s, step) && Follow(s, boot, mended, steps)
    ensures InStep(t) && Follow(t, boot, mended, steps + [step])
  {
    hide InStep, O.Moves, O.Proper, LatestRoutes, Requests, FW.Grows, O.PolicyAfter;
    O.StepInStepIff(s, step, t);
    assert (steps + [step])[..|steps|] == steps;
  }

  lemma ReadMoves(n: K.Naming, mended: bool, a: State, turn: Turn, call: Reload, z: State)
    requires C.Sound(a.index) && turn.Reads? && KeysMove(n, mended, a, turn, call, z)
    ensures Reloads(n, mended, a, turn.backend, call, z)
  {
  }

  lemma TraceStarts(
    t: Trace, n: K.Naming, keysMended: bool, first: Backend, mended: bool, render: Network -> string)
    requires Answered(t.configs, first, render) && ListsAll(t.boot, t.configs)
    requires |t.keys| == 1 && t.calls == [] && t.steps == [] && t.sessions == [Booted(t.boot, mended)]
    ensures IsTrace(t, n, keysMended, first, [], mended, render)
  {
    hide Answered, ListsAll, Booted;
  }

  lemma NowMeans(
    s: Session, t: Trace, n: K.Naming, keysMended: bool, first: Backend, turns: seq<Turn>, mended: bool,
    render: Network -> string, p: Packet)
    requires IsTrace(t, n, keysMended, first, turns, mended, render)
    ensures O.LetsNow(s, t.boot, mended, t.steps, p) <==> LetsNow(s, first, mended, turns, t.calls, p)
  {
    hide IsStep, KeysMove, O.Proper, O.Moves, Answered, ListsAll, O.PassesNow, Permits, InForceFor, HasSource;
    hide PermitsNow;
    assert forall k | 0 <= k < |turns| :: IsStep(turns[k], t.calls[k], t.steps[k], render) by {
      assert forall k | 0 <= k < |turns| :: TurnTaken(t, k, n, keysMended, turns[k], render);
    }
    forall user
      ensures O.PassesNow(t.boot, mended, t.steps, user, p) <==> PermitsNow(first, mended, turns, t.calls, user, p)
    {
      ForceMeans(t, first, turns, mended, render, user, p);
    }
  }

  lemma TraceNext(
    t: Trace, n: K.Naming, keysMended: bool, first: Backend, turns: seq<Turn>, k: nat, mended: bool,
    render: Network -> string, call: Reload, step: O.Step, keys: State, next: Session)
    requires k < |turns| && IsTrace(t, n, keysMended, first, turns[..k], mended, render)
    requires C.Sound(t.keys[k].index) && KeysMove(n, keysMended, t.keys[k], turns[k], call, keys)
    requires IsStep(turns[k], call, step, render) && O.Proper(t.sessions[k], step) && O.Moves(t.sessions[k], step, next)
    ensures var t' := t.(keys := t.keys + [keys], calls := t.calls + [call], steps := t.steps + [step],
        sessions := t.sessions + [next]);
      IsTrace(t', n, keysMended, first, turns[..k + 1], mended, render)
  {
    hide KeysMove, IsStep, O.Proper, O.Moves, Answered, ListsAll, Booted, C.Sound;
    var t' := t.(keys := t.keys + [keys], calls := t.calls + [call], steps := t.steps + [step],
      sessions := t.sessions + [next]);
    assert t'.steps[..k] == t.steps;
    forall i | 0 <= i < k + 1
      ensures TurnTaken(t', i, n, keysMended, turns[i], render)
    {
      assert i < k ==> turns[..k][i] == turns[i] && TurnTaken(t, i, n, keysMended, turns[i], render);
    }
  }
}
