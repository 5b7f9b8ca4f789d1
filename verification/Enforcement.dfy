/**
 The server as a whole: client events move the session tables and call the firewall, whose chains and
 jumps decide which packets pass. What a run of firewall calls leaves behind is compared with the plain
 record of the calls, and the addresses the firewall lets in with the clients in the session table.
 */
module Enforcement {
  import opened Wrappers
  import opened Sequences
  import opened Iptables
  import opened Policy
  import opened Pipeline
  import opened Sessions
  import FW = Firewall

  // Who may use each address, by the record of the calls.
  function Owners(calls: seq<FirewallCall>): map<Network, string> {
    if calls == [] then map[] else OwnersNext(Owners(calls[..|calls| - 1]), calls[|calls| - 1])
  }

  function OwnersNext(owners: map<Network, string>, call: FirewallCall): map<Network, string> {
    match call
    case ConnectUser(user, address) => owners[address := user]
    case DisconnectUser(user, address) =>
      if address in owners && owners[address] == user then owners - {address} else owners
    case UpdateFirewall(_, _) => owners
  }

  // The rules asked for, by the record of the calls.
  function Requests(calls: seq<FirewallCall>): seq<FW.Request> {
    if calls == [] then []
    else
      Requests(calls[..|calls| - 1]) +
      match calls[|calls| - 1]
      case UpdateFirewall(user, conf) => [FW.Request(user, Rules(conf.routes))]
      case _ => []
  }

  // The routes of the latest policy handed over for the user.
  function LatestRoutes(calls: seq<FirewallCall>, user: string): seq<Route> {
    if calls == [] then []
    else
      var last := calls[|calls| - 1];
      if last.UpdateFirewall? && last.user == user then last.conf.routes else LatestRoutes(calls[..|calls| - 1], user)
  }

  // The user has been given some route, so that there is a chain to jump to.
  predicate HasChain(calls: seq<FirewallCall>, user: string) {
    exists c :: c in calls && c.UpdateFirewall? && c.user == user && c.conf.routes != []
  }

  // Addresses are connected only for users with a chain.
  ghost predicate Provided(calls: seq<FirewallCall>) {
    forall k | 0 <= k < |calls| && calls[k].ConnectUser? :: HasChain(calls[..k], calls[k].user)
  }

  // The firewall is where the record of the calls says.
  ghost predicate Enforces(fw: FW.Firewall, calls: seq<FirewallCall>)
    reads fw, fw.tables
  {
    && FW.Faithful(fw, Requests(calls))
    && fw.ForwardSynced() && fw.ChainsExist()
    && fw.connections == Owners(calls)
    && forall user | HasChain(calls, user) :: user in fw.tables.userChains
  }

  // The jumps are where the record says, and the chains where its requests have led, step by step.
  ghost predicate Follows(fw: FW.Firewall, calls: seq<FirewallCall>, states: seq<FW.Twins>)
    reads fw, fw.tables
  {
    && fw.ForwardSynced() && fw.ChainsExist()
    && fw.connections == Owners(calls)
    && (forall user | HasChain(calls, user) :: user in fw.tables.userChains)
    && (forall user :: fw.Matched(user)) && (fw.mended ==> forall user :: fw.InSync(user))
    && FW.IsRun(fw.mended, states, Requests(calls)) && states[|Requests(calls)|] == fw.Twins()
  }

  lemma CallsNext(calls: seq<FirewallCall>, call: FirewallCall)
    ensures Owners(calls + [call]) == OwnersNext(Owners(calls), call)
    ensures Requests(calls + [call]) ==
      if call.UpdateFirewall? then Requests(calls) + [FW.Request(call.user, Rules(call.conf.routes))]
      else Requests(calls)
    ensures forall user :: HasChain(calls + [call], user) <==>
      HasChain(calls, user) || (call.UpdateFirewall? && call.user == user && call.conf.routes != [])
  {
    assert (calls + [call])[..|calls|] == calls;
    forall user | HasChain(calls, user)
      ensures HasChain(calls + [call], user)
    {
      var c :| c in calls && c.UpdateFirewall? && c.user == user && c.conf.routes != [];
      assert c in calls + [call];
    }
    assert call in calls + [call];
  }

  lemma SomeRule(routes: seq<Route>)
    requires routes != []
    ensures Elements(Rules(routes)) != {}
  {
    var rules := RouteRules(routes[0]);
    assert rules[0] in rules;
    RulesFrom(routes, rules[0]);
    assert rules[0] in Elements(Rules(routes));
  }

  lemma LatestNext(requests: seq<FW.Request>, user: string, rules: seq<ChainRule>)
    ensures FW.Latest(requests + [FW.Request(user, rules)], user) == Elements(rules)
    ensures forall u | u != user :: FW.Latest(requests + [FW.Request(user, rules)], u) == FW.Latest(requests, u)
  {
    assert (requests + [FW.Request(user, rules)])[..|requests|] == requests;
  }

  // A chain once there stays, and a request for some rule makes one.
  lemma ChainsStay(mended: bool, a: FW.Twins, r: FW.Request, b: FW.Twins)
    requires FW.Updated(mended, a, r, b)
    ensures a.Keys <= b.Keys && (r.rules != [] ==> r.user in b)
  {
    forall user | user in a
      ensures user in b
    {
      assert FW.TwinIn(a, user).Some?;
      assert user != r.user ==> FW.TwinIn(b, user) == FW.TwinIn(a, user);
    }
  }

  lemma ChainsOf(fw: FW.Firewall)
    requires forall user :: fw.Matched(user)
    ensures fw.Twins().Keys == fw.tables.userChains.Keys
  {
    forall user
      ensures user in fw.Twins() <==> user in fw.tables.userChains
    {
      assert fw.Matched(user);
    }
  }

  lemma RequestNext(
    mended: bool, states: seq<FW.Twins>, calls: seq<FirewallCall>, user: string, conf: UserConfig, next: FW.Twins)
    requires FW.IsRun(mended, states, Requests(calls))
    requires FW.Updated(mended, states[|Requests(calls)|], FW.Request(user, Rules(conf.routes)), next)
    ensures var requests := Requests(calls + [UpdateFirewall(user, conf)]);
      FW.IsRun(mended, states + [next], requests) && |requests| == |Requests(calls)| + 1
  {
    hide FW.Updated, Rules, Requests;
    CallsNext(calls, UpdateFirewall(user, conf));
    var requests := Requests(calls + [UpdateFirewall(user, conf)]);
    assert requests[..|Requests(calls)|] == Requests(calls) && requests[..|requests|] == requests;
    FW.RunNext(mended, states, requests, |Requests(calls)|, next);
  }

  // The update branch of Execute.
  method ExecuteUpdate(
    fw: FW.Firewall, user: string, conf: UserConfig, ghost calls: seq<FirewallCall>, ghost states: seq<FW.Twins>)
    returns (ghost next: seq<FW.Twins>)
    requires Follows(fw, calls, states)
    modifies fw`mirror, fw.tables`userChains
    ensures Follows(fw, calls + [UpdateFirewall(user, conf)], next)
  {
    hide Rules, Owners, Requests, HasChain, FW.IsRun, FW.Updated, FW.JumpsFor, FW.Firewall.ForwardSynced;
    hide FW.Firewall.Matched, FW.Firewall.InSync, FW.Firewall.Twins;
    CallsNext(calls, UpdateFirewall(user, conf));
    if conf.routes != [] {
      SomeRule(conf.routes);
    }
    ghost var before := fw.Twins();
    ChainsOf(fw);
    var rules := Expand(conf.routes);
    FW.UpdateNext(fw, FW.Request(user, rules));
    ChainsOf(fw);
    ChainsStay(fw.mended, before, FW.Request(user, rules), fw.Twins());
    RunLength(fw.mended, states, Requests(calls));
    RequestNext(fw.mended, states, calls, user, conf, fw.Twins());
    next := states + [fw.Twins()];
  }

  lemma RunLength(mended: bool, states: seq<FW.Twins>, requests: seq<FW.Request>)
    requires FW.IsRun(mended, states, requests)
    ensures |states| == |requests| + 1
  {
  }

  // One call of the firewall.
  method Execute(
    fw: FW.Firewall, call: FirewallCall, ghost calls: seq<FirewallCall>, ghost states: seq<FW.Twins>)
    returns (ghost next: seq<FW.Twins>)
    requires Follows(fw, calls, states)
    requires call.ConnectUser? ==> HasChain(calls, call.user)
    modifies fw, fw.tables
    ensures Follows(fw, calls + [call], next)
  {
    hide Rules, Owners, Requests, HasChain, FW.IsRun;
    CallsNext(calls, call);
    next := states;
    match call
    case ConnectUser(user, address) =>
      var _ := fw.ConnectUser(user, address);
    case DisconnectUser(user, address) =>
      var _ := fw.DisconnectUser(user, address);
    case UpdateFirewall(user, conf) =>
      next := ExecuteUpdate(fw, user, conf, calls, states);
  }

  /**
   Any run of firewall calls that connects addresses only for users with a chain: afterwards there is one jump
   per owned address, to its owner, and the chains are where the requests of the run lead. If it is mended, or
   the run withdraws no rule, every chain grants the latest rules of its user.
   */
  method Enforce(calls: seq<FirewallCall>, mended: bool) returns (fw: FW.Firewall, ghost states: seq<FW.Twins>)
    requires Provided(calls)
    ensures fresh(fw) && fw.mended == mended && Follows(fw, calls, states)
    ensures mended || FW.Grows(Requests(calls)) ==> Enforces(fw, calls)
  {
    hide Requests, Owners, Follows, Enforces, HasChain, FW.Grows;
    fw := new FW.Firewall(mended);
    NewFollows(fw);
    states := [map[]];
    for k := 0 to |calls|
      invariant fresh(fw) && fresh(fw.tables) && fw.mended == mended && Follows(fw, calls[..k], states)
    {
      assert calls[..k + 1] == calls[..k] + [calls[k]];
      states := Execute(fw, calls[k], calls[..k], states);
    }
    assert calls[..|calls|] == calls;
    if mended || FW.Grows(Requests(calls)) {
      FollowsEnforces(fw, calls, states);
    }
  }

  lemma NewFollows(fw: FW.Firewall)
    requires fw.mirror == map[] && fw.connections == map[]
    requires fw.tables.userChains == map[] && fw.tables.forward == []
    ensures Follows(fw, [], [map[]])
  {
    FW.NewFirewall(fw);
  }

  lemma FollowsEnforces(fw: FW.Firewall, calls: seq<FirewallCall>, states: seq<FW.Twins>)
    requires Follows(fw, calls, states) && (fw.mended || FW.Grows(Requests(calls)))
    ensures Enforces(fw, calls)
  {
    hide Requests, Owners, HasChain, FW.Grows, FW.Latest, FW.Updated, FW.JumpsFor;
    var requests := Requests(calls);
    FW.AlwaysAsAskedIffGrows(fw.mended, states, requests);
    FW.TwinsMean(fw);
    assert requests[..|requests|] == requests;
    assert FW.AsAsked(states[|requests|], requests[..|requests|]);
    assert forall user :: FW.GrantOf(fw.Twins(), user) == fw.RuleSet(user);
  }

  // Some policy once handed over for the user has a rule for the packet.
  ghost predicate OnceAllowed(calls: seq<FirewallCall>, user: string, p: Packet) {
    exists c :: c in calls && c.UpdateFirewall? && c.user == user
      && exists rule :: rule in Rules(c.conf.routes) && Matches(rule, p)
  }

  lemma {:induction false} EverHandedOver(calls: seq<FirewallCall>, user: string, rule: ChainRule)
    requires rule in FW.Ever(Requests(calls), user)
    ensures exists c :: c in calls && c.UpdateFirewall? && c.user == user && rule in Rules(c.conf.routes)
  {
    hide Rules;
    if calls != [] {
      var before, last := calls[..|calls| - 1], calls[|calls| - 1];
      assert before + [last] == calls;
      CallsNext(before, last);
      if last.UpdateFirewall? {
        var request := FW.Request(last.user, Rules(last.conf.routes));
        assert (Requests(before) + [request])[..|Requests(before)|] == Requests(before);
      }
      if rule in FW.Ever(Requests(before), user) {
        EverHandedOver(before, user, rule);
      } else {
        assert last in calls;
      }
    }
  }

  /**
   Even as written, and whatever is withdrawn: a packet passes only if somebody owns, by the record, an address
   that covers its source and some policy once handed over for the owner allows it.
   */
  lemma PassesOnlyOnceAllowed(fw: FW.Firewall, calls: seq<FirewallCall>, states: seq<FW.Twins>, p: Packet)
    requires Follows(fw, calls, states) && fw.Forwards(p)
    ensures exists a :: a in Owners(calls) && Covers(a, p.src) && OnceAllowed(calls, Owners(calls)[a], p)
  {
    hide Matches, Covers, Rules, Owners, Requests, FW.Ever, FW.Updated;
    fw.ForwardDecision(p);
    var a :| a in fw.connections && Covers(a, p.src) && fw.Granted(fw.connections[a], p);
    var user := fw.connections[a];
    var rule :| rule in fw.RuleSet(user) && Matches(rule, p);
    FW.TwinsMean(fw);
    FW.NothingNeverAsked(fw.mended, states, Requests(calls), user);
    assert rule in FW.GrantOf(fw.Twins(), user);
    EverHandedOver(calls, user, rule);
  }

  lemma {:induction false} LatestIsRoutes(calls: seq<FirewallCall>, user: string)
    ensures FW.Latest(Requests(calls), user) == Elements(Rules(LatestRoutes(calls, user)))
  {
    hide Rules;
    if calls == [] {
      NoRules();
    } else {
      var before, last := calls[..|calls| - 1], calls[|calls| - 1];
      assert before + [last] == calls;
      LatestIsRoutes(before, user);
      CallsNext(before, last);
      if last.UpdateFirewall? {
        LatestNext(Requests(before), last.user, Rules(last.conf.routes));
      }
    }
  }

  lemma NoRules()
    ensures Elements(Rules([])) == {}
  {
  }

  // The latest policy of the user has a rule for the packet.
  ghost predicate MayPass(calls: seq<FirewallCall>, user: string, p: Packet) {
    exists rule :: rule in Rules(LatestRoutes(calls, user)) && Matches(rule, p)
  }

  /**
   After any such run, a packet passes exactly when the record says somebody owns an address that covers its
   source and the latest policy of the owner allows it.
   */
  lemma PacketDecision(fw: FW.Firewall, calls: seq<FirewallCall>, p: Packet)
    requires Enforces(fw, calls)
    ensures fw.Forwards(p) <==>
      exists a :: a in Owners(calls) && Covers(a, p.src) && MayPass(calls, Owners(calls)[a], p)
  {
    hide Matches, Covers, Rules, FW.Latest;
    fw.ForwardDecision(p);
    forall user
      ensures fw.Granted(user, p) <==> MayPass(calls, user, p)
    {
      LatestIsRoutes(calls, user);
      assert fw.RuleSet(user) == Elements(Rules(LatestRoutes(calls, user)));
    }
  }

  // A client as the firewall sees it.
  datatype Seat = Seat(user: string, address: Option<Network>)

  function Seats(s: Session): map<nat, Seat> {
    map id | id in s.clients :: Seat(s.clients[id].user, s.clients[id].address)
  }

  // The addresses the firewall lets in are those of the clients in the table, each for its own user.
  ghost predicate Registered(seats: map<nat, Seat>, owners: map<Network, string>) {
    && (forall id | id in seats && seats[id].address.Some? ::
          seats[id].address.value in owners && owners[seats[id].address.value] == seats[id].user)
    && (forall a | a in owners :: exists id :: id in seats && seats[id].address == Some(a))
    && forall i, j |
         i in seats && j in seats && seats[i].address.Some? && seats[i].address == seats[j].address :: i == j
  }

  // The session tables are in order, and so are the addresses with the firewall.
  ghost predicate InOrder(s: Session) {
    Good(s) && Registered(Seats(s), Owners(s.calls))
  }

  // What keeps it so. As written: an address is announced for a known client, is nobody else's and does not
  // change; no record with an address is replaced; and a hang-up finds what it looks for. Mended: an address
  // announced for a known client is nobody else's and does not change.
  predicate Orderly(s: Session, e: Event) {
    match e
    case Connect(id, _, login) => s.mended || (login.Success? && id in s.clients ==> s.clients[id].address.None?)
    case Reauth(id, user, login) =>
      || s.mended
      || (login.Success? ==> ReauthFits(s, id, user) && (id in s.clients ==> s.clients[id].address.None?))
    case Address(id, address) => if id in s.clients then MayHave(Seats(s), id, address) else s.mended
    case Disconnect(id) => s.mended || (id in s.clients ==> s.clients[id].user in s.current)
    case Ignored => true
  }

  predicate MayHave(seats: map<nat, Seat>, id: nat, address: Network)
    requires id in seats
  {
    && (seats[id].address.Some? ==> seats[id].address.value == address)
    && forall other | other in seats && other != id :: seats[other].address != Some(address)
  }

  lemma NewSeatIffFree(seats: map<nat, Seat>, owners: map<Network, string>, id: nat, user: string)
    requires Registered(seats, owners)
    ensures Registered(seats[id := Seat(user, None)], owners) <==> (id in seats ==> seats[id].address.None?)
  {
    var next := seats[id := Seat(user, None)];
    if id in seats && seats[id].address.Some? {
      var a := seats[id].address.value;
      assert forall other | other in next :: next[other].address != Some(a);
    } else {
      forall a | a in owners
        ensures exists other :: other in next && next[other].address == Some(a)
      {
        var other :| other in seats && seats[other].address == Some(a);
        assert next[other].address == Some(a);
      }
    }
  }

  lemma AddressIffMayHave(seats: map<nat, Seat>, owners: map<Network, string>, id: nat, address: Network)
    requires Registered(seats, owners) && id in seats
    ensures Registered(seats[id := Seat(seats[id].user, Some(address))], owners[address := seats[id].user])
      <==> MayHave(seats, id, address)
  {
    var next := seats[id := Seat(seats[id].user, Some(address))];
    var now := owners[address := seats[id].user];
    assert next[id].address == Some(address);
    if MayHave(seats, id, address) {
      forall a | a in now
        ensures exists other :: other in next && next[other].address == Some(a)
      {
        if a != address {
          var other :| other in seats && seats[other].address == Some(a);
          assert next[other].address == Some(a);
        }
      }
    } else if other :| other in seats && other != id && seats[other].address == Some(address) {
      assert next[other].address == Some(address);
    } else {
      var a := seats[id].address.value;
      assert a in now && forall other | other in next :: next[other].address != Some(a);
    }
  }

  lemma SeatLeft(seats: map<nat, Seat>, owners: map<Network, string>, id: nat)
    requires Registered(seats, owners) && id in seats
    ensures Registered(seats - {id},
      if seats[id].address.Some? then OwnersNext(owners, DisconnectUser(seats[id].user, seats[id].address.value))
      else owners)
  {
    var left := seats - {id};
    var now := if seats[id].address.Some?
      then OwnersNext(owners, DisconnectUser(seats[id].user, seats[id].address.value)) else owners;
    forall a | a in now
      ensures exists other :: other in left && left[other].address == Some(a)
    {
      var other :| other in seats && seats[other].address == Some(a);
      assert left[other].address == Some(a);
    }
  }

  // What an event asks of the firewall.
  function CallsFor(s: Session, e: Event): seq<FirewallCall> {
    match e
    case Connect(id, _, login) => if login.Success? then CallsOfReplacing(s, id) else []
    case Reauth(id, user, login) => if login.Success? && !Renews(s, id, user) then CallsOfReplacing(s, id) else []
    case Address(id, address) => if id in s.clients then [ConnectUser(s.clients[id].user, address)] else []
    case Disconnect(id) => if id in s.clients then TakenBack(s.clients[id]) else []
    case Ignored => []
  }

  // Mended, a record that is replaced gives its address back.
  function CallsOfReplacing(s: Session, id: nat): seq<FirewallCall> {
    if s.mended && id in s.clients then TakenBack(s.clients[id]) else []
  }

  function SeatsAfter(s: Session, e: Event): map<nat, Seat> {
    var seats := Seats(s);
    match e
    case Connect(id, user, login) => if login.Success? then seats[id := Seat(user, None)] else seats
    case Reauth(id, user, login) =>
      if login.Failure? || (s.mended && Renews(s, id, user)) then seats else seats[id := Seat(user, None)]
    case Address(id, address) => if id in seats then seats[id := Seat(seats[id].user, Some(address))] else seats
    case Disconnect(id) => seats - {id}
    case Ignored => seats
  }

  lemma NextSeats(s: Session, e: Event)
    requires !Stops(s, e)
    ensures Next(s, e).calls == s.calls + CallsFor(s, e)
    ensures Seats(Next(s, e)) == SeatsAfter(s, e)
    ensures Next(s, e).mended == s.mended
  {
    hide Connected, Renewed;
    match e
    case Connect(id, user, login) => LoginSeats(s, id, user, login, false);
    case Reauth(id, user, login) => LoginSeats(s, id, user, login, true);
    case Address(id, address) =>
    case Disconnect(id) =>
    case Ignored =>
  }

  lemma LoginSeats(s: Session, id: nat, user: string, login: Result<Login, string>, reauth: bool)
    ensures var next := Authorized(s, id, user, login, reauth);
      && next.mended == s.mended
      && (login.Failure? ==> next.calls == s.calls && Seats(next) == Seats(s))
      && (login.Success? && reauth && s.mended && Renews(s, id, user) ==>
            next.calls == s.calls && Seats(next) == Seats(s))
      && (login.Success? && !(reauth && s.mended && Renews(s, id, user)) ==>
            Seats(next) == Seats(s)[id := Seat(user, None)]
            && next.calls == s.calls + if reauth && Renews(s, id, user) then [] else CallsOfReplacing(s, id))
  {
    hide TakenBack;
    assert s.calls + [] == s.calls;
    if login.Success? {
      RenewedSeats(s, id, user, login.value);
      ConnectedSeats(s, id, user, login.value);
    }
  }

  lemma RenewedSeats(s: Session, id: nat, user: string, login: Login)
    ensures var next := Renewed(s, id, user, login);
      && next.calls == s.calls && next.mended == s.mended
      && (s.mended && Renews(s, id, user) ==> Seats(next) == Seats(s))
      && (!s.mended ==> Seats(next) == Seats(s)[id := Seat(user, None)])
  {
  }

  lemma ConnectedSeats(s: Session, id: nat, user: string, login: Login)
    ensures var next := Connected(s, id, user, login);
      && next.mended == s.mended && Seats(next) == Seats(s)[id := Seat(user, None)]
      && next.calls == s.calls + CallsOfReplacing(s, id)
  {
    hide TakenBack;
    assert s.calls + [] == s.calls;
  }

  // A record that goes and gives its address back.
  lemma SeatGone(s: Session, id: nat)
    requires Registered(Seats(s), Owners(s.calls)) && id in s.clients
    ensures Registered(Seats(s) - {id}, Owners(s.calls + TakenBack(s.clients[id])))
  {
    hide Owners, Registered;
    SeatLeft(Seats(s), Owners(s.calls), id);
    if s.clients[id].address.Some? {
      CallsNext(s.calls, DisconnectUser(s.clients[id].user, s.clients[id].address.value));
    } else {
      assert s.calls + [] == s.calls;
    }
  }

  lemma SeatReplaced(s: Session, id: nat, user: string)
    requires Registered(Seats(s), Owners(s.calls))
    ensures Registered(Seats(s)[id := Seat(user, None)], Owners(s.calls + CallsOfReplacing(s, id))) <==>
      (s.mended || (id in s.clients ==> s.clients[id].address.None?))
  {
    hide Owners, Registered, TakenBack;
    if s.mended && id in s.clients {
      SeatGone(s, id);
      NewSeatIffFree(Seats(s) - {id}, Owners(s.calls + TakenBack(s.clients[id])), id, user);
      assert (Seats(s) - {id})[id := Seat(user, None)] == Seats(s)[id := Seat(user, None)];
    } else {
      assert s.calls + [] == s.calls;
      NewSeatIffFree(Seats(s), Owners(s.calls), id, user);
    }
  }

  lemma SeatsRegisteredIff(s: Session, e: Event)
    requires Registered(Seats(s), Owners(s.calls)) && !Stops(s, e)
    ensures Registered(SeatsAfter(s, e), Owners(s.calls + CallsFor(s, e))) <==>
      match e
      case Connect(id, _, login) => s.mended || (login.Success? && id in s.clients ==> s.clients[id].address.None?)
      case Reauth(id, _, login) => s.mended || (login.Success? && id in s.clients ==> s.clients[id].address.None?)
      case Address(id, address) => id in s.clients ==> MayHave(Seats(s), id, address)
      case Disconnect(_) => true
      case Ignored => true
  {
    hide Owners, Registered, MayHave, TakenBack, Renews;
    assert s.calls + [] == s.calls;
    match e
    case Connect(id, user, login) => SeatReplaced(s, id, user);
    case Reauth(id, user, login) =>
      SeatReplaced(s, id, user);
      if !s.mended {
        assert CallsOfReplacing(s, id) == [];
      }
    case Address(id, address) =>
      if id in s.clients {
        AddressIffMayHave(Seats(s), Owners(s.calls), id, address);
        CallsNext(s.calls, ConnectUser(s.clients[id].user, address));
      }
    case Disconnect(id) =>
      if id in s.clients {
        SeatGone(s, id);
      } else {
        assert Seats(s) - {id} == Seats(s);
      }
    case Ignored =>
  }

  /** An event keeps session tables and addresses in order, without ending the server, if and only if it is orderly. */
  lemma StaysInOrderIff(s: Session, e: Event)
    requires InOrder(s)
    ensures !Stops(s, e) && InOrder(Next(s, e)) <==> Orderly(s, e)
  {
    hide Good, Registered, Owners, MayHave, ReauthFits, Next, CallsFor, SeatsAfter;
    if !Stops(s, e) {
      NextGoodIffFits(s, e);
      NextSeats(s, e);
      SeatsRegisteredIff(s, e);
    }
  }

  // An orderly event that connects an address only for a user with a chain.
  predicate Expected(s: Session, e: Event) {
    Orderly(s, e) && (e.Address? && e.clientId in s.clients ==> HasChain(s.calls, s.clients[e.clientId].user))
  }

  // In order, and every address the firewall was asked to let in had a chain to go to.
  ghost predicate InStep(s: Session) {
    InOrder(s) && Provided(s.calls)
  }

  // Calls that connect an address at most once, and hand over no policy.
  lemma SmallCalls(calls: seq<FirewallCall>, more: seq<FirewallCall>)
    requires |more| <= 1 && forall c | c in more :: !c.UpdateFirewall?
    ensures Provided(calls + more) <==>
      Provided(calls) && forall c | c in more && c.ConnectUser? :: HasChain(calls, c.user)
    ensures Requests(calls + more) == Requests(calls)
    ensures forall user :: LatestRoutes(calls + more, user) == LatestRoutes(calls, user)
    ensures forall user :: HasChain(calls + more, user) <==> HasChain(calls, user)
  {
    hide HasChain;
    if more == [] {
      assert calls + more == calls;
    } else {
      CallsNext(calls, more[0]);
      assert more == [more[0]];
      assert (calls + more)[..|calls|] == calls;
      assert forall k | 0 <= k < |calls| :: (calls + more)[..k] == calls[..k];
      assert (calls + more)[|calls|] == more[0];
    }
  }

  lemma EventCalls(s: Session, e: Event)
    requires Provided(s.calls)
    ensures Provided(s.calls + CallsFor(s, e)) <==>
      (e.Address? && e.clientId in s.clients ==> HasChain(s.calls, s.clients[e.clientId].user))
    ensures Requests(s.calls + CallsFor(s, e)) == Requests(s.calls)
    ensures forall user :: LatestRoutes(s.calls + CallsFor(s, e), user) == LatestRoutes(s.calls, user)
  {
    hide HasChain, Provided, Requests, LatestRoutes, Renews;
    SmallCalls(s.calls, CallsFor(s, e));
  }

  lemma StaysInStepIff(s: Session, e: Event)
    requires InStep(s)
    ensures !Stops(s, e) && InStep(Next(s, e)) <==> Expected(s, e)
    ensures Expected(s, e) ==> Requests(Next(s, e).calls) == Requests(s.calls)
    ensures Expected(s, e) ==> forall user :: LatestRoutes(Next(s, e).calls, user) == LatestRoutes(s.calls, user)
  {
    hide Good, Registered, Owners, Provided, Requests, LatestRoutes, Orderly, HasChain, CallsFor, Next;
    StaysInOrderIff(s, e);
    if !Stops(s, e) {
      NextSeats(s, e);
      EventCalls(s, e);
    }
  }

  // The first k events are expected, each in the state the ones before it lead to.
  ghost predicate AllExpected(s: Session, events: seq<Event>, k: nat)
    requires k <= |events|
  {
    forall i | 0 <= i < k :: ExpectedAt(s, events, i)
  }

  ghost predicate ExpectedAt(s: Session, events: seq<Event>, i: nat)
    requires i < |events|
  {
    After(s, events[..i]).Some? && Expected(After(s, events[..i]).value, events[i])
  }

  ghost predicate InStepAt(s: Session, events: seq<Event>, k: nat)
    requires k <= |events|
  {
    After(s, events[..k]).Some? && InStep(After(s, events[..k]).value)
  }

  /**
   A run stays in step through its first k events exactly when these are expected: the first event that is
   not is where the server ends or something goes out of step. Policies handed over before stay the latest.
   */
  lemma {:induction false} RunInStepIff(s: Session, events: seq<Event>, k: nat)
    requires InStep(s) && k <= |events|
    ensures (forall i | 0 <= i <= k :: InStepAt(s, events, i)) <==> AllExpected(s, events, k)
    ensures AllExpected(s, events, k) ==>
      && InStepAt(s, events, k)
      && Requests(After(s, events[..k]).value.calls) == Requests(s.calls)
      && forall user :: LatestRoutes(After(s, events[..k]).value.calls, user) == LatestRoutes(s.calls, user)
  {
    hide InStep, Expected, Stops, Next, Requests, LatestRoutes;
    if k == 0 {
      assert events[..0] == [];
      assert InStepAt(s, events, 0);
    } else {
      RunInStepIff(s, events, k - 1);
      AfterNext(s, events, k - 1);
      if InStepAt(s, events, k - 1) {
        StaysInStepIff(After(s, events[..k - 1]).value, events[k - 1]);
        assert InStepAt(s, events, k) <==> ExpectedAt(s, events, k - 1);
      }
      assert AllExpected(s, events, k) <==> AllExpected(s, events, k - 1) && ExpectedAt(s, events, k - 1);
      assert (forall i | 0 <= i <= k :: InStepAt(s, events, i)) <==>
        (forall i | 0 <= i <= k - 1 :: InStepAt(s, events, i)) && InStepAt(s, events, k);
    }
  }

  /** A run of events, up to the first that is not expected. */
  method ServeAll(m: Manager, events: seq<Event>) returns (handled: nat)
    requires m.Valid() && InStep(m.View())
    modifies m, m.clients.Values
    ensures m.Valid() && handled <= |events|
    ensures After(old(m.View()), events[..handled]) == Some(m.View())
    ensures AllExpected(old(m.View()), events, handled)
    ensures handled < |events| ==> !Expected(m.View(), events[handled])
  {
    hide InStep, Expected, Stops, Next, Records, Holders;
    handled := 0;
    ghost var start := m.View();
    assert events[..0] == [];
    while handled < |events| && Expected(m.View(), events[handled])
      invariant handled <= |events| && m.Valid() && InStep(m.View())
      invariant After(start, events[..handled]) == Some(m.View())
      invariant AllExpected(start, events, handled)
      invariant fresh(m.clients.Values - old(m.clients.Values))
    {
      StaysInStepIff(m.View(), events[handled]);
      AfterNext(start, events, handled);
      assert ExpectedAt(start, events, handled);
      var _ := m.ProcessClientEvent(events[handled]);
      handled := handled + 1;
    }
  }

  // The first updates of the firewall: each user once, in any order.
  function Updates(boot: seq<(string, UserConfig)>): seq<FirewallCall> {
    if boot == [] then []
    else
      var last := boot[|boot| - 1];
      Updates(boot[..|boot| - 1]) + [UpdateFirewall(last.0, last.1)]
  }

  function BootRoutes(boot: seq<(string, UserConfig)>, user: string): seq<Route> {
    if boot == [] then []
    else
      var last := boot[|boot| - 1];
      if last.0 == user then last.1.routes else BootRoutes(boot[..|boot| - 1], user)
  }

  ghost predicate OncePerUser(boot: seq<(string, UserConfig)>) {
    forall i, j | 0 <= i < j < |boot| :: boot[i].0 != boot[j].0
  }

  lemma {:induction false} UpdatesRecord(boot: seq<(string, UserConfig)>)
    requires OncePerUser(boot)
    ensures Owners(Updates(boot)) == map[] && Provided(Updates(boot))
    ensures |Requests(Updates(boot))| == |boot|
    ensures forall i | 0 <= i < |boot| :: Requests(Updates(boot))[i] == FW.Request(boot[i].0, Rules(boot[i].1.routes))
    ensures forall user :: LatestRoutes(Updates(boot), user) == BootRoutes(boot, user)
  {
    hide Rules, Owners, Requests, LatestRoutes, Provided;
    if boot == [] {
      NoCalls();
    } else {
      var most, last := boot[..|boot| - 1], boot[|boot| - 1];
      UpdatesRecord(most);
      CallsNext(Updates(most), UpdateFirewall(last.0, last.1));
      UpdateRecord(Updates(most), last.0, last.1);
    }
  }

  lemma NoCalls()
    ensures Owners([]) == map[] && Provided([]) && Requests([]) == [] && forall user :: LatestRoutes([], user) == []
  {
  }

  lemma UpdateRecord(calls: seq<FirewallCall>, user: string, conf: UserConfig)
    ensures Provided(calls + [UpdateFirewall(user, conf)]) <==> Provided(calls)
    ensures forall u ::
      LatestRoutes(calls + [UpdateFirewall(user, conf)], u) == if u == user then conf.routes else LatestRoutes(calls, u)
  {
    hide HasChain;
    var more := calls + [UpdateFirewall(user, conf)];
    assert more[..|calls|] == calls;
    assert forall k | 0 <= k < |calls| :: more[..k] == calls[..k] && more[k] == calls[k];
  }

  lemma {:induction false} LatestOfAbsent(requests: seq<FW.Request>, user: string)
    requires forall r | r in requests :: r.user != user
    ensures FW.Latest(requests, user) == {}
  {
    if requests != [] {
      LatestOfAbsent(requests[..|requests| - 1], user);
    }
  }

  lemma BootGrows(boot: seq<(string, UserConfig)>)
    requires OncePerUser(boot)
    ensures FW.Grows(Requests(Updates(boot)))
  {
    hide Rules, Requests, Updates, FW.Latest;
    UpdatesRecord(boot);
    var requests := Requests(Updates(boot));
    forall k | 0 <= k < |requests|
      ensures FW.Latest(requests[..k], requests[k].user) <= Elements(requests[k].rules)
    {
      LatestOfAbsent(requests[..k], requests[k].user);
    }
  }

  // A connected client has an address that covers the source, and the latest policy of its user lets the packet pass.
  ghost predicate ClientMayPass(s: Session, p: Packet) {
    exists id :: id in s.clients && HasSource(s.clients[id], p) && MayPass(s.calls, s.clients[id].user, p)
  }

  predicate HasSource(c: Client, p: Packet) {
    c.address.Some? && Covers(c.address.value, p.src)
  }

  /**
   Packets pass for connected clients only, each by the latest policy of its user, wherever the firewall
   has followed the calls and the addresses are registered.
   */
  lemma ConnectedClientsOnly(s: Session, fw: FW.Firewall, p: Packet)
    requires InOrder(s) && Enforces(fw, s.calls)
    ensures fw.Forwards(p) <==> ClientMayPass(s, p)
  {
    hide Owners, MayPass, Covers, Enforces, Good;
    PacketDecision(fw, s.calls, p);
    var seats, owners := Seats(s), Owners(s.calls);
    assert forall id | id in seats :: seats[id] == Seat(s.clients[id].user, s.clients[id].address);
    if a :| a in owners && Covers(a, p.src) && MayPass(s.calls, owners[a], p) {
      var id :| id in seats && seats[id].address == Some(a);
      assert HasSource(s.clients[id], p);
    }
    if id :| id in s.clients && HasSource(s.clients[id], p) && MayPass(s.calls, s.clients[id].user, p) {
      assert seats[id].address.value in owners;
    }
  }

  // The server when the policies have been handed over and nobody has connected yet.
  function Booted(boot: seq<(string, UserConfig)>, mended: bool): Session {
    Idle(mended).(calls := Updates(boot))
  }

  lemma BootedInStep(boot: seq<(string, UserConfig)>, mended: bool)
    requires OncePerUser(boot)
    ensures InStep(Booted(boot, mended))
    ensures forall user :: LatestRoutes(Booted(boot, mended).calls, user) == BootRoutes(boot, user)
    ensures FW.Grows(Requests(Booted(boot, mended).calls))
  {
    hide Provided, Requests, LatestRoutes, BootRoutes, FW.Grows, Updates;
    UpdatesRecord(boot);
    BootGrows(boot);
  }

  // A connected client has the source, and the policy of its user at the start lets the packet pass.
  ghost predicate Lets(s: Session, boot: seq<(string, UserConfig)>, p: Packet) {
    exists id :: id in s.clients && HasSource(s.clients[id], p) && PassesBy(boot, s.clients[id].user, p)
  }

  ghost predicate PassesBy(boot: seq<(string, UserConfig)>, user: string, p: Packet) {
    exists rule :: rule in Rules(BootRoutes(boot, user)) && Matches(rule, p)
  }

  // The first updates of the firewall, one user after the other.
  method HandOver(m: Manager, boot: seq<(string, UserConfig)>)
    requires m.View() == Idle(m.mended)
    modifies m`calls
    ensures m.View() == Booted(boot, m.mended)
  {
    hide Records, Holders;
    for i := 0 to |boot|
      invariant m.View() == Booted(boot[..i], m.mended)
    {
      assert boot[..i + 1][..i] == boot[..i];
      m.calls := m.calls + [UpdateFirewall(boot[i].0, boot[i].1)];
    }
    assert boot[..|boot|] == boot;
  }

  /**
   The server from its start on: the policies are handed over once, then any events come in. Up to the
   first event that is not expected, as written and mended, the tables are those the events lead to, and a
   packet passes exactly when a connected client has its source address and the policy handed over for
   that client's user lets it pass.
   */
  method RunServer(boot: seq<(string, UserConfig)>, events: seq<Event>, mended: bool)
    returns (m: Manager, fw: FW.Firewall, handled: nat)
    requires OncePerUser(boot)
    ensures handled <= |events| && After(Booted(boot, mended), events[..handled]) == Some(m.View())
    ensures AllExpected(Booted(boot, mended), events, handled)
    ensures handled < |events| ==> !Expected(m.View(), events[handled])
    ensures Enforces(fw, m.View().calls)
    ensures forall p :: fw.Forwards(p) <==> Lets(m.View(), boot, p)
  {
    hide *;
    BootedInStep(boot, mended);
    m := new Manager(mended);
    HandOver(m, boot);
    handled := ServeAll(m, events);
    RunProvides(boot, mended, events, handled);
    ghost var chains;
    fw, chains := Enforce(m.View().calls, mended);
    forall p
      ensures fw.Forwards(p) <==> Lets(m.View(), boot, p)
    {
      PacketsOfRun(boot, mended, events, handled, fw, p);
    }
  }

  // What a run of expected events leaves to the firewall.
  lemma RunProvides(boot: seq<(string, UserConfig)>, mended: bool, events: seq<Event>, k: nat)
    requires OncePerUser(boot) && k <= |events| && AllExpected(Booted(boot, mended), events, k)
    ensures After(Booted(boot, mended), events[..k]).Some?
    ensures var s := After(Booted(boot, mended), events[..k]).value;
      && InOrder(s) && Provided(s.calls) && FW.Grows(Requests(s.calls))
      && forall user :: LatestRoutes(s.calls, user) == BootRoutes(boot, user)
  {
    hide InOrder, Provided, Requests, LatestRoutes, BootRoutes, FW.Grows, Updates, ExpectedAt;
    BootedInStep(boot, mended);
    RunInStepIff(Booted(boot, mended), events, k);
  }

  lemma PacketsOfRun(
    boot: seq<(string, UserConfig)>, mended: bool, events: seq<Event>, k: nat, fw: FW.Firewall, p: Packet)
    requires OncePerUser(boot) && k <= |events| && AllExpected(Booted(boot, mended), events, k)
    requires After(Booted(boot, mended), events[..k]).Some?
    requires Enforces(fw, After(Booted(boot, mended), events[..k]).value.calls)
    ensures fw.Forwards(p) <==> Lets(After(Booted(boot, mended), events[..k]).value, boot, p)
  {
    hide InOrder, Provided, Requests, LatestRoutes, BootRoutes, Updates, ExpectedAt, AllExpected, Enforces, Rules;
    hide Matches, Covers;
    RunProvides(boot, mended, events, k);
    ConnectedClientsOnly(After(Booted(boot, mended), events[..k]).value, fw, p);
  }

  lemma SeatDroppedIffFree(seats: map<nat, Seat>, owners: map<Network, string>, id: nat)
    requires Registered(seats, owners) && id in seats
    ensures Registered(seats - {id}, owners) <==> seats[id].address.None?
  {
    var left := seats - {id};
    if seats[id].address.Some? {
      assert forall other | other in left :: left[other].address != seats[id].address;
    } else {
      forall a | a in owners
        ensures exists other :: other in left && left[other].address == Some(a)
      {
        var other :| other in seats && seats[other].address == Some(a);
        assert left[other].address == Some(a);
      }
    }
  }

  /**
   A connection the manager itself ends is forgotten before it hangs up. As written its address then stays with
   the firewall: order is kept exactly if it had none.
   */
  lemma EndedInOrderIff(s: Session, user: string)
    requires InOrder(s)
    ensures InOrder(Ended(s, user)) <==>
      s.mended || (user in s.current ==> s.clients[s.current[user].clientId].address.None?)
  {
    hide Owners, Registered, Killed, Good, TakenBack;
    EndedGood(s, user);
    if user in s.current {
      CurrentClient(s, user);
      var id := s.current[user].clientId;
      assert Seats(Ended(s, user)) == Seats(s) - {id};
      if s.mended {
        SeatGone(s, id);
      } else {
        SeatDroppedIffFree(Seats(s), Owners(s.calls), id);
        assert s.calls + [] == s.calls;
      }
    }
  }

  lemma CurrentClient(s: Session, user: string)
    requires Good(s) && user in s.current
    ensures s.current[user].clientId in s.clients
  {
  }

  /**
   A run after which nobody is connected and an address is still let in: the REAUTH replaces the record
   that had it, so the hang-up does not take it back.
   */
  lemma ReauthLosesAddress(
    user: string, conf: UserConfig, login: Login, id: nat, address: Network, fw: FW.Firewall, p: Packet)
    requires Enforces(fw, [UpdateFirewall(user, conf), ConnectUser(user, address)]) && Covers(address, p.src)
    ensures var events := [
        Connect(id, user, Success(login)), Address(id, address), Reauth(id, user, Success(login)), Disconnect(id)];
      var end := After(Booted([(user, conf)], false), events);
      end.Some? && end.value.clients == map[]
      && end.value.calls == [UpdateFirewall(user, conf), ConnectUser(user, address)]
    ensures fw.Forwards(p) <==> exists rule :: rule in Rules(conf.routes) && Matches(rule, p)
  {
    hide Rules, Matches, Covers, Enforces, Next, Stops;
    var events := [
      Connect(id, user, Success(login)), Address(id, address), Reauth(id, user, Success(login)), Disconnect(id)];
    var start := Booted([(user, conf)], false);
    FirstAddress(user, conf, login, id, address);
    assert events[..2] == [Connect(id, user, Success(login)), Address(id, address)] && events[..4] == events;
    AfterNext(start, events, 2);
    AfterNext(start, events, 3);
    RenewedAndGone(user, login, id, address, After(start, events[..2]).value);
    StrayPackets(user, conf, address, fw, p);
  }

  lemma RenewedAndGone(user: string, login: Login, id: nat, address: Network, s: Session)
    requires s.clients == map[id := Client(user, login, Some(address))] && s.current == map[user := Holder(id, login)]
    requires !s.mended
    ensures !Stops(s, Reauth(id, user, Success(login)))
    ensures var next := Next(s, Reauth(id, user, Success(login)));
      && !Stops(next, Disconnect(id))
      && Next(next, Disconnect(id)).clients == map[] && Next(next, Disconnect(id)).calls == s.calls
  {
    var next := Next(s, Reauth(id, user, Success(login)));
    assert next.clients == map[id := Client(user, login, None)];
    assert s.calls + [] == s.calls;
  }

  // What such a record means for packets.
  lemma StrayPackets(user: string, conf: UserConfig, address: Network, fw: FW.Firewall, p: Packet)
    requires Enforces(fw, [UpdateFirewall(user, conf), ConnectUser(user, address)]) && Covers(address, p.src)
    ensures fw.Forwards(p) <==> exists rule :: rule in Rules(conf.routes) && Matches(rule, p)
  {
    hide Rules, Matches, Covers, Enforces, Owners, LatestRoutes;
    OneAddress(user, conf, address);
    PacketDecision(fw, [UpdateFirewall(user, conf), ConnectUser(user, address)], p);
    assert address in map[address := user];
  }

  // One user's policy, and one client of theirs with an address.
  lemma FirstAddress(user: string, conf: UserConfig, login: Login, id: nat, address: Network)
    ensures After(Booted([(user, conf)], false), [Connect(id, user, Success(login)), Address(id, address)])
      == Some(Session(map[id := Client(user, login, Some(address))], map[user := Holder(id, login)],
                      [Auth(id)], [UpdateFirewall(user, conf), ConnectUser(user, address)], false))
  {
    var events := [Connect(id, user, Success(login)), Address(id, address)];
    assert events[..2] == events && events[..0] == [];
    AfterNext(Booted([(user, conf)], false), events, 0);
    AfterNext(Booted([(user, conf)], false), events, 1);
    assert [(user, conf)][..0] == [];
    assert Updates([(user, conf)]) == [UpdateFirewall(user, conf)];
    var first := Next(Booted([(user, conf)], false), events[0]);
    assert first == Session(map[id := Client(user, login, None)], map[user := Holder(id, login)], [Auth(id)],
                            [UpdateFirewall(user, conf)], false);
    var second := Next(first, events[1]);
    assert second.clients == map[id := Client(user, login, Some(address))];
    assert second.calls == [UpdateFirewall(user, conf), ConnectUser(user, address)];
  }

  lemma OneAddress(user: string, conf: UserConfig, address: Network)
    ensures var calls := [UpdateFirewall(user, conf), ConnectUser(user, address)];
      Owners(calls) == map[address := user] && LatestRoutes(calls, user) == conf.routes
  {
    var calls := [UpdateFirewall(user, conf), ConnectUser(user, address)];
    assert calls[..1] == [UpdateFirewall(user, conf)] && calls[..1][..0] == [];
    assert Owners([]) == map[] && Owners(calls[..1]) == OwnersNext(Owners([]), calls[0]);
    assert Owners(calls) == OwnersNext(Owners(calls[..1]), calls[1]);
  }

  /** The same for a connection that the server ends itself. */
  lemma EndedLosesAddress(
    user: string, conf: UserConfig, login: Login, id: nat, address: Network, fw: FW.Firewall, p: Packet)
    requires Enforces(fw, [UpdateFirewall(user, conf), ConnectUser(user, address)]) && Covers(address, p.src)
    ensures var events := [Connect(id, user, Success(login)), Address(id, address)];
      var before := After(Booted([(user, conf)], false), events);
      && before.Some? && Ended(before.value, user).clients == map[]
      && Ended(before.value, user).calls == [UpdateFirewall(user, conf), ConnectUser(user, address)]
    ensures fw.Forwards(p) <==> exists rule :: rule in Rules(conf.routes) && Matches(rule, p)
  {
    hide Rules, Matches, Covers, Enforces;
    FirstAddress(user, conf, login, id, address);
    StrayPackets(user, conf, address, fw, p);
  }

  /** And an address that gets no jump, for a user whose policy has no route. */
  lemma AddressWithoutChain(user: string, conf: UserConfig, login: Login, id: nat, address: Network)
    requires conf.routes == []
    ensures var end := After(Booted([(user, conf)], false), [Connect(id, user, Success(login)), Address(id, address)]);
      end.Some? && InOrder(end.value) && !Provided(end.value.calls)
  {
    hide InOrder, Provided, Updates, Owners, Next;
    var events := [Connect(id, user, Success(login)), Address(id, address)];
    var boot := [(user, conf)];
    FirstAddress(user, conf, login, id, address);
    NotProvided(user, conf, address);
    BootedInStep(boot, false);
    assert events[..0] == [] && events[..2] == events;
    AfterNext(Booted(boot, false), events, 0);
    AfterNext(Booted(boot, false), events, 1);
    StaysInOrderIff(Booted(boot, false), events[0]);
    StaysInOrderIff(Next(Booted(boot, false), events[0]), events[1]);
    OnlySeat(Booted(boot, false), events[0], address);
  }

  lemma NotProvided(user: string, conf: UserConfig, address: Network)
    requires conf.routes == []
    ensures !Provided([UpdateFirewall(user, conf), ConnectUser(user, address)])
  {
    var calls := [UpdateFirewall(user, conf), ConnectUser(user, address)];
    assert calls[..1] == [UpdateFirewall(user, conf)] && calls[1].ConnectUser?;
  }

  lemma OnlySeat(s: Session, e: Event, address: Network)
    requires s.clients == map[] && e.Connect? && e.login.Success?
    ensures Orderly(s, e) && Orderly(Next(s, e), Address(e.clientId, address))
  {
  }
}
