/**
 The session tables of the VPN manager: who is connected, and which connection is each user's
 current one. Every method is one critical section of the manager; the management commands it leads
 to are appended to a log in the order they are sent, and so are its calls to the firewall.

 A `Session` is the manager by value, and `After` runs client events on it. The class is proved to follow
 that for every run; what is kept and where the server ends is proved of the values.

 The source is the manager with `mended == false`. With `mended == true`: a REAUTH of a user's current
 connection carries its address over, and any other REAUTH is treated like a CONNECT; a record that goes
 without a hang-up gives its address back to the firewall; an ADDRESS or DISCONNECT that finds nothing is
 passed over; and updateConfig goes to work when the update brings users and no error.
 */
module Sessions {
  import opened Wrappers
  import opened Sequences
  import opened Iptables
  import opened Policy

  datatype Command = Auth(clientId: nat) | Deny(clientId: nat) | Kill(clientId: nat)

  datatype FirewallCall =
    | ConnectUser(user: string, address: Network)
    | DisconnectUser(user: string, address: Network)
    | UpdateFirewall(user: string, conf: UserConfig)

  // The last command about a client was to kill it.
  predicate Killed(log: seq<Command>, clientId: nat) {
    log != [] &&
    var last := log[|log| - 1];
    if last == Kill(clientId) then true
    else if last == Auth(clientId) then false
    else Killed(log[..|log| - 1], clientId)
  }

  // What authenticateUser answers: the user's configuration and the alias of the key, or an error.
  datatype Login = Login(conf: UserConfig, key: string)

  datatype Event =
    | Connect(clientId: nat, user: string, login: Result<Login, string>)
    | Reauth(clientId: nat, user: string, login: Result<Login, string>)
    | Address(clientId: nat, address: Network)
    | Disconnect(clientId: nat)
    | Ignored

  // A user's entry in a configuration update.
  datatype UserInfo = UserInfo(keys: set<string>, conf: UserConfig)

  // A client's record.
  datatype Client = Client(user: string, login: Login, address: Option<Network>)

  // What a user's current connection is: it need not be the record of its client any more.
  datatype Holder = Holder(clientId: nat, login: Login)

  datatype Session = Session(
    clients: map<nat, Client>, current: map<string, Holder>, commands: seq<Command>, calls: seq<FirewallCall>,
    mended: bool)

  function Idle(mended: bool): Session {
    Session(map[], map[], [], [], mended)
  }

  // A client leaves both tables.
  function Dropped(s: Session, id: nat): Session
    requires id in s.clients
  {
    var user := s.clients[id].user;
    s.(clients := s.clients - {id},
       current := if user in s.current && s.current[user].clientId == id then s.current - {user} else s.current)
  }

  // The firewall is asked to take back what the record had.
  function TakenBack(c: Client): seq<FirewallCall> {
    if c.address.Some? then [DisconnectUser(c.user, c.address.value)] else []
  }

  // A record that goes without a hang-up.
  function Released(s: Session, id: nat): Session
    requires id in s.clients
  {
    if s.mended then HungUp(s, id) else Dropped(s, id)
  }

  // A record that goes by a DISCONNECT. As written the address is lost if a REAUTH has replaced the record.
  function HungUp(s: Session, id: nat): Session
    requires id in s.clients
  {
    Dropped(s, id).(calls := s.calls + TakenBack(s.clients[id]))
  }

  // A new record in both tables.
  function Installed(s: Session, id: nat, user: string, login: Login, address: Option<Network>): Session {
    s.(clients := s.clients[id := Client(user, login, address)], current := s.current[user := Holder(id, login)])
  }

  function Told(s: Session, more: seq<Command>): Session {
    s.(commands := s.commands + more)
  }

  // A CONNECT replaces an earlier connection under the same id and tells the user's current one to go.
  function Connected(s: Session, id: nat, user: string, login: Login): Session {
    var left := if id in s.clients then Released(s, id) else s;
    var superseded := if user in left.current then [Kill(left.current[user].clientId)] else [];
    Told(Installed(left, id, user, login, None), superseded + [Auth(id)])
  }

  lemma ConnectedMeans(s: Session, left: Session, id: nat, user: string, login: Login)
    requires left == if id in s.clients then Released(s, id) else s
    ensures Connected(s, id, user, login) ==
      if user in left.current
      then Told(Told(Installed(left, id, user, login, None), [Kill(left.current[user].clientId)]), [Auth(id)])
      else Told(Installed(left, id, user, login, None), [Auth(id)])
  {
    assert forall kill, auth: Command :: s.commands + [kill] + [auth] == s.commands + ([kill] + [auth]);
    assert forall auth: Command :: [] + [auth] == [auth];
  }

  // The client is this user's current connection.
  predicate Renews(s: Session, id: nat, user: string) {
    id in s.clients && s.clients[id].user == user && user in s.current && s.current[user].clientId == id
  }

  // A REAUTH puts a new record in both tables, as written without the address.
  function Renewed(s: Session, id: nat, user: string, login: Login): Session {
    Told(Installed(s, id, user, login, if s.mended && id in s.clients then s.clients[id].address else None), [Auth(id)])
  }

  function Authorized(s: Session, id: nat, user: string, login: Result<Login, string>, reauth: bool): Session {
    if login.Failure? then Told(s, [Deny(id)])
    else if reauth && (!s.mended || Renews(s, id, user)) then Renewed(s, id, user, login.value)
    else Connected(s, id, user, login.value)
  }

  lemma AuthorizedMeans(s: Session, id: nat, user: string, login: Result<Login, string>, reauth: bool)
    ensures login.Failure? ==> Authorized(s, id, user, login, reauth) == Told(s, [Deny(id)])
    ensures login.Success? && reauth && (!s.mended || Renews(s, id, user)) ==>
      Authorized(s, id, user, login, reauth)
        == Told(Installed(s, id, user, login.value,
                          if s.mended && id in s.clients then s.clients[id].address else None), [Auth(id)])
    ensures login.Success? && !(reauth && (!s.mended || Renews(s, id, user))) ==>
      Authorized(s, id, user, login, reauth) == Connected(s, id, user, login.value)
  {
  }

  // The handler dereferences a missing record, which ends the server.
  predicate Stops(s: Session, e: Event) {
    && !s.mended
    && (|| (e.Address? && e.clientId !in s.clients)
        || (e.Disconnect? && e.clientId in s.clients && s.clients[e.clientId].user !in s.current))
  }

  function Next(s: Session, e: Event): Session
    requires !Stops(s, e)
  {
    match e
    case Connect(id, user, login) => Authorized(s, id, user, login, false)
    case Reauth(id, user, login) => Authorized(s, id, user, login, true)
    case Address(id, address) => if id in s.clients then Addressed(s, id, address) else s
    case Disconnect(id) => if id in s.clients then HungUp(s, id) else s
    case Ignored => s
  }

  function Addressed(s: Session, id: nat, address: Network): Session
    requires id in s.clients
  {
    s.(clients := s.clients[id := s.clients[id].(address := Some(address))],
       calls := s.calls + [ConnectUser(s.clients[id].user, address)])
  }

  // The state after a run of events, unless one of them ends the server.
  function After(s: Session, events: seq<Event>): Option<Session> {
    if events == [] then Some(s)
    else
      var before := After(s, events[..|events| - 1]);
      var e := events[|events| - 1];
      if before.None? || Stops(before.value, e) then None else Some(Next(before.value, e))
  }

  lemma AfterNext(s: Session, events: seq<Event>, k: nat)
    requires k < |events|
    ensures After(s, events[..k + 1]) ==
      var before := After(s, events[..k]);
      if before.None? || Stops(before.value, events[k]) then None else Some(Next(before.value, events[k]))
  {
    assert events[..k + 1][..k] == events[..k];
  }

  // A user's current connection is that of the client it names.
  ghost predicate Linked(s: Session) {
    forall u | u in s.current ::
      var id := s.current[u].clientId;
      id in s.clients && s.clients[id].user == u && s.clients[id].login == s.current[u].login
  }

  predicate IsCurrent(s: Session, id: nat)
    requires id in s.clients
  {
    var user := s.clients[id].user;
    user in s.current && s.current[user].clientId == id
  }

  // A client is its user's current connection, or it has been told to go; never both.
  ghost predicate Settled(s: Session) {
    forall id | id in s.clients :: IsCurrent(s, id) <==> !Killed(s.commands, id)
  }

  ghost predicate Good(s: Session) {
    Linked(s) && Settled(s)
  }

  /** At most one connection of a user has not been told to go. */
  lemma OneLiveConnection(s: Session, a: nat, b: nat)
    requires Good(s) && a in s.clients && b in s.clients && s.clients[a].user == s.clients[b].user
    requires !Killed(s.commands, a) && !Killed(s.commands, b)
    ensures a == b
  {
    assert IsCurrent(s, a) && IsCurrent(s, b);
  }

  lemma KilledAppend(log: seq<Command>, command: Command, id: nat)
    ensures Killed(log + [command], id) ==
      if command == Kill(id) then true else if command == Auth(id) then false else Killed(log, id)
  {
    assert (log + [command])[..|log|] == log;
  }

  // Calls of the firewall do not concern the tables.
  lemma CalledGood(s: Session, called: Session)
    requires called == s.(calls := called.calls)
    ensures Good(called) <==> Good(s)
    ensures Linked(called) <==> Linked(s)
  {
    assert forall id | id in s.clients :: IsCurrent(called, id) == IsCurrent(s, id);
  }

  lemma DroppedGood(s: Session, id: nat)
    requires id in s.clients
    ensures Linked(s) ==>
      Linked(Dropped(s, id)) && forall u | u in Dropped(s, id).current :: Dropped(s, id).current[u].clientId != id
    ensures Good(s) ==> Good(Dropped(s, id))
  {
    hide Killed;
    var left := Dropped(s, id);
    if Good(s) {
      forall other | other in left.clients
        ensures IsCurrent(left, other) <==> IsCurrent(s, other)
      {
      }
    }
  }

  lemma GoneGood(s: Session, id: nat)
    requires id in s.clients
    ensures Linked(s) ==> Linked(HungUp(s, id)) && Linked(Released(s, id))
    ensures Good(s) ==> Good(HungUp(s, id)) && Good(Released(s, id))
  {
    hide Good, Linked, Dropped;
    DroppedGood(s, id);
    CalledGood(Dropped(s, id), HungUp(s, id));
  }

  lemma DeniedGood(s: Session, id: nat)
    ensures Linked(Told(s, [Deny(id)])) <==> Linked(s)
    ensures Good(s) ==> Good(Told(s, [Deny(id)]))
  {
    hide Killed;
    forall other | other in s.clients
      ensures Killed(s.commands + [Deny(id)], other) == Killed(s.commands, other)
      ensures IsCurrent(Told(s, [Deny(id)]), other) == IsCurrent(s, other)
    {
      KilledAppend(s.commands, Deny(id), other);
    }
  }

  // A record for a client that is in neither table; the connection it supersedes is told to go.
  lemma InstalledGood(s: Session, id: nat, user: string, login: Login)
    requires id !in s.clients
    ensures Linked(s) ==> Linked(Connected(s, id, user, login))
    ensures Good(s) ==> Good(Connected(s, id, user, login))
  {
    hide Killed;
    var superseded := if user in s.current then [Kill(s.current[user].clientId)] else [];
    var next := Connected(s, id, user, login);
    assert s.commands + (superseded + [Auth(id)]) == s.commands + superseded + [Auth(id)];
    if Good(s) {
      forall other | other in next.clients
        ensures IsCurrent(next, other) <==> !Killed(next.commands, other)
      {
        KilledAppend(s.commands + superseded, Auth(id), other);
        if user in s.current {
          KilledAppend(s.commands, Kill(s.current[user].clientId), other);
        } else {
          assert s.commands + [] == s.commands;
        }
      }
    }
  }

  /** A CONNECT keeps the tables in order. */
  lemma ConnectedGood(s: Session, id: nat, user: string, login: Login)
    ensures Linked(s) ==> Linked(Connected(s, id, user, login))
    ensures Good(s) ==> Good(Connected(s, id, user, login))
  {
    hide Killed, Good, Linked;
    if id in s.clients {
      GoneGood(s, id);
      InstalledGood(Released(s, id), id, user, login);
    } else {
      InstalledGood(s, id, user, login);
    }
  }

  // What a REAUTH has to find: the user's current connection is this client, or there is none, and
  // this client is not the current connection of somebody else.
  predicate ReauthFits(s: Session, id: nat, user: string) {
    (user in s.current ==> s.current[user].clientId == id) && !TakesOver(s, id, user)
  }

  // The client is the current connection of somebody else.
  predicate TakesOver(s: Session, id: nat, user: string) {
    id in s.clients && s.clients[id].user != user && IsCurrent(s, id)
  }

  /** A REAUTH keeps the tables linked exactly unless it takes somebody's current connection over. */
  lemma RenewedLinkedIff(s: Session, id: nat, user: string, login: Login)
    requires Linked(s)
    ensures Linked(Renewed(s, id, user, login)) <==> !TakesOver(s, id, user)
  {
    hide Killed;
    var next := Renewed(s, id, user, login);
    if TakesOver(s, id, user) {
      var v := s.clients[id].user;
      assert next.current[v].clientId == id && next.clients[id].user == user;
    }
  }

  /** And it keeps them in order exactly when it fits them. */
  lemma RenewedGoodIffFits(s: Session, id: nat, user: string, login: Login)
    requires Good(s)
    ensures Good(Renewed(s, id, user, login)) <==> ReauthFits(s, id, user)
  {
    hide Killed, Linked;
    RenewedLinkedIff(s, id, user, login);
    if !TakesOver(s, id, user) {
      RenewedSettledIff(s, id, user, login);
    }
  }

  lemma RenewedSettledIff(s: Session, id: nat, user: string, login: Login)
    requires Good(s) && !TakesOver(s, id, user)
    ensures Settled(Renewed(s, id, user, login)) <==> (user in s.current ==> s.current[user].clientId == id)
  {
    hide Killed;
    var next := Renewed(s, id, user, login);
    forall other
      ensures Killed(next.commands, other) <==> other != id && Killed(s.commands, other)
    {
      KilledAppend(s.commands, Auth(id), other);
    }
    if user in s.current && s.current[user].clientId != id {
      var other := s.current[user].clientId;
      assert IsCurrent(s, other) && !IsCurrent(next, other);
    }
  }

  predicate Fits(s: Session, e: Event) {
    e.Reauth? && e.login.Success? ==> s.mended || ReauthFits(s, e.clientId, e.user)
  }

  // A REAUTH for another user than the one whose current connection the client is.
  predicate Usurps(s: Session, e: Event) {
    e.Reauth? && e.login.Success? && !s.mended && TakesOver(s, e.clientId, e.user)
  }

  lemma AuthorizedGood(s: Session, id: nat, user: string, login: Result<Login, string>, reauth: bool)
    ensures Linked(s) ==>
      (Linked(Authorized(s, id, user, login, reauth)) <==>
         !(reauth && login.Success? && !s.mended && TakesOver(s, id, user)))
    ensures Good(s) ==>
      (Good(Authorized(s, id, user, login, reauth)) <==>
         (reauth && login.Success? ==> s.mended || ReauthFits(s, id, user)))
  {
    hide Good, Linked, Connected, Renewed;
    GoodIsLinked(s);
    DeniedGood(s, id);
    if login.Success? {
      ConnectedGood(s, id, user, login.value);
      if Linked(s) {
        RenewedLinkedIff(s, id, user, login.value);
      }
      if Good(s) {
        RenewedGoodIffFits(s, id, user, login.value);
      }
    }
  }

  lemma GoodIsLinked(s: Session)
    ensures Good(s) ==> Linked(s)
  {
  }

  lemma AddressedGood(s: Session, id: nat, address: Network)
    requires id in s.clients
    ensures Linked(s) ==> Linked(Addressed(s, id, address))
    ensures Good(s) ==> Good(Addressed(s, id, address))
  {
    hide Killed;
    assert forall other | other in s.clients :: IsCurrent(Addressed(s, id, address), other) == IsCurrent(s, other);
  }

  /** An event keeps the tables in order exactly unless it is a REAUTH that does not fit them. */
  lemma NextGoodIffFits(s: Session, e: Event)
    requires Good(s) && !Stops(s, e)
    ensures Good(Next(s, e)) <==> Fits(s, e)
  {
    hide Good, ReauthFits, Authorized, HungUp, Addressed;
    match e
    case Connect(id, user, login) => AuthorizedGood(s, id, user, login, false);
    case Reauth(id, user, login) => AuthorizedGood(s, id, user, login, true);
    case Address(id, address) =>
      if id in s.clients {
        AddressedGood(s, id, address);
      }
    case Disconnect(id) =>
      if id in s.clients {
        GoneGood(s, id);
      }
    case Ignored =>
  }

  /** And keeps them linked exactly unless it usurps somebody's current connection. */
  lemma NextLinkedIff(s: Session, e: Event)
    requires Linked(s) && !Stops(s, e)
    ensures Linked(Next(s, e)) <==> !Usurps(s, e)
  {
    hide Linked, TakesOver, Authorized, HungUp, Addressed;
    match e
    case Connect(id, user, login) => AuthorizedGood(s, id, user, login, false);
    case Reauth(id, user, login) => AuthorizedGood(s, id, user, login, true);
    case Address(id, address) =>
      if id in s.clients {
        AddressedGood(s, id, address);
      }
    case Disconnect(id) =>
      if id in s.clients {
        GoneGood(s, id);
      }
    case Ignored =>
  }

  // The run gets as far as its k-th event.
  ghost predicate GoodAt(s: Session, events: seq<Event>, k: nat)
    requires k <= |events|
  {
    After(s, events[..k]).Some? && Good(After(s, events[..k]).value)
  }

  ghost predicate FitsAt(s: Session, events: seq<Event>, k: nat)
    requires k < |events|
  {
    After(s, events[..k]).Some? && Fits(After(s, events[..k]).value, events[k])
  }

  /** Over any run that does not end the server, the tables are in order throughout exactly when every REAUTH fits. */
  lemma {:induction false} RunGoodIffFits(s: Session, events: seq<Event>)
    requires Good(s) && After(s, events).Some?
    ensures (forall k | 0 <= k <= |events| :: GoodAt(s, events, k)) <==>
      forall k | 0 <= k < |events| :: FitsAt(s, events, k)
  {
    hide Good, Fits, Next, Stops;
    assert events[..|events|] == events;
    if events == [] {
      assert GoodAt(s, events, 0);
    } else {
      var n := |events| - 1;
      var most := events[..n];
      AfterNext(s, events, n);
      RunGoodIffFits(s, most);
      assert forall k | 0 <= k <= n :: most[..k] == events[..k];
      assert forall k | 0 <= k <= n :: GoodAt(s, most, k) <==> GoodAt(s, events, k);
      assert forall k | 0 <= k < n :: FitsAt(s, most, k) <==> FitsAt(s, events, k);
      if GoodAt(s, most, n) {
        NextGoodIffFits(After(s, most).value, events[n]);
        assert GoodAt(s, events, n + 1) <==> FitsAt(s, events, n);
      }
      assert (forall k | 0 <= k <= n + 1 :: GoodAt(s, events, k)) <==>
        (forall k | 0 <= k <= n :: GoodAt(s, events, k)) && GoodAt(s, events, n + 1);
      assert (forall k | 0 <= k < n + 1 :: FitsAt(s, events, k)) <==>
        (forall k | 0 <= k < n :: FitsAt(s, events, k)) && FitsAt(s, events, n);
    }
  }

  ghost predicate LinkedAt(s: Session, events: seq<Event>, k: nat)
    requires k <= |events|
  {
    After(s, events[..k]).Some? && Linked(After(s, events[..k]).value)
  }

  ghost predicate HonestAt(s: Session, events: seq<Event>, k: nat)
    requires k < |events|
  {
    After(s, events[..k]).Some? && !Usurps(After(s, events[..k]).value, events[k])
  }

  /**
   Over any run that does not end the server, every user's current connection is that of its client throughout
   exactly when no REAUTH usurps one.
   */
  lemma {:induction false} RunLinkedIff(s: Session, events: seq<Event>)
    requires Linked(s) && After(s, events).Some?
    ensures (forall k | 0 <= k <= |events| :: LinkedAt(s, events, k)) <==>
      forall k | 0 <= k < |events| :: HonestAt(s, events, k)
  {
    hide Linked, Usurps, Next, Stops;
    assert events[..|events|] == events;
    if events == [] {
      assert LinkedAt(s, events, 0);
    } else {
      var n := |events| - 1;
      var most := events[..n];
      AfterNext(s, events, n);
      RunLinkedIff(s, most);
      assert forall k | 0 <= k <= n :: most[..k] == events[..k];
      assert forall k | 0 <= k <= n :: LinkedAt(s, most, k) <==> LinkedAt(s, events, k);
      assert forall k | 0 <= k < n :: HonestAt(s, most, k) <==> HonestAt(s, events, k);
      if LinkedAt(s, most, n) {
        NextLinkedIff(After(s, most).value, events[n]);
        assert LinkedAt(s, events, n + 1) <==> HonestAt(s, events, n);
      }
      assert (forall k | 0 <= k <= n + 1 :: LinkedAt(s, events, k)) <==>
        (forall k | 0 <= k <= n :: LinkedAt(s, events, k)) && LinkedAt(s, events, n + 1);
      assert (forall k | 0 <= k < n + 1 :: HonestAt(s, events, k)) <==>
        (forall k | 0 <= k < n :: HonestAt(s, events, k)) && HonestAt(s, events, n);
    }
  }

  /** Mended, no run of events ends the server or leaves the tables out of order. */
  lemma {:induction false} MendedAlwaysGood(s: Session, events: seq<Event>)
    requires Good(s) && s.mended
    ensures After(s, events).Some? && Good(After(s, events).value) && After(s, events).value.mended
  {
    hide Good;
    if events != [] {
      var n := |events| - 1;
      MendedAlwaysGood(s, events[..n]);
      NextGoodIffFits(After(s, events[..n]).value, events[n]);
    }
  }

  /** A run that ends the server: a superseded connection hangs up after the one that superseded it. */
  lemma LateDisconnectPanics(user: string, login: Login, a: nat, b: nat)
    requires a != b
    ensures var events := [
        Connect(a, user, Success(login)), Connect(b, user, Success(login)), Disconnect(b), Disconnect(a)];
      After(Idle(false), events).None? && After(Idle(false), events[..3]).Some?
  {
    var events := [
      Connect(a, user, Success(login)), Connect(b, user, Success(login)), Disconnect(b), Disconnect(a)];
    assert events[..4] == events && events[..0] == [];
    AfterNext(Idle(false), events, 0);
    AfterNext(Idle(false), events, 1);
    AfterNext(Idle(false), events, 2);
    AfterNext(Idle(false), events, 3);
    hide Next, Stops;
    TwoConnected(user, login, a, b);
    HungUpSecond(user, login, a, b, [Auth(a), Kill(a), Auth(b)]);
  }

  // Two connections of one user, the first of them told to go.
  function Two(user: string, login: Login, a: nat, b: nat, commands: seq<Command>): Session {
    var client := Client(user, login, None);
    Session(map[a := client, b := client], map[user := Holder(b, login)], commands, [], false)
  }

  lemma TwoConnected(user: string, login: Login, a: nat, b: nat)
    requires a != b
    ensures !Stops(Idle(false), Connect(a, user, Success(login)))
    ensures var first := Next(Idle(false), Connect(a, user, Success(login)));
      && !Stops(first, Connect(b, user, Success(login)))
      && Next(first, Connect(b, user, Success(login))) == Two(user, login, a, b, [Auth(a), Kill(a), Auth(b)])
  {
    var first := Next(Idle(false), Connect(a, user, Success(login)));
    assert first
        == Session(map[a := Client(user, login, None)], map[user := Holder(a, login)], [Auth(a)], [], false);
    var second := Next(first, Connect(b, user, Success(login)));
    assert second.commands == [Auth(a), Kill(a), Auth(b)];
    assert second.clients == Two(user, login, a, b, []).clients;
  }

  lemma HungUpSecond(user: string, login: Login, a: nat, b: nat, commands: seq<Command>)
    requires a != b
    ensures !Stops(Two(user, login, a, b, commands), Disconnect(b))
    ensures Stops(Next(Two(user, login, a, b, commands), Disconnect(b)), Disconnect(a))
  {
  }

  // DisconnectUser: the user's current connection leaves the tables and is told to go.
  function Ended(s: Session, user: string): Session {
    if user !in s.current then s
    else
      var id := s.current[user].clientId;
      Told(s.(clients := s.clients - {id}, current := s.current - {user},
              calls := s.calls + if s.mended && id in s.clients then TakenBack(s.clients[id]) else []),
           [Kill(id)])
  }

  lemma EndedGood(s: Session, user: string)
    ensures Linked(s) ==> Linked(Ended(s, user))
    ensures Good(s) ==> Good(Ended(s, user))
  {
    hide Killed;
    if user in s.current {
      var id := s.current[user].clientId;
      if Good(s) {
        DroppedGood(s, id);
        var next := Ended(s, user);
        forall other | other in next.clients
          ensures Killed(next.commands, other) == Killed(s.commands, other)
          ensures IsCurrent(next, other) == IsCurrent(Dropped(s, id), other)
        {
          KilledAppend(s.commands, Kill(id), other);
        }
      }
    }
  }

  predicate MustGo(s: Session, user: string, info: UserInfo) {
    user in s.current && Disagrees(s.current[user].login, info)
  }

  // The body of updateConfig's loop.
  function Refreshed(s: Session, user: string, info: UserInfo): Session {
    var called := s.(calls := s.calls + [UpdateFirewall(user, info.conf)]);
    if MustGo(s, user, info) then Ended(called, user) else called
  }

  // The loop, in some order of the users.
  function RefreshedAll(s: Session, order: seq<string>, configs: map<string, UserInfo>): Session
    requires forall u | u in order :: u in configs
  {
    if order == [] then s
    else
      var last := order[|order| - 1];
      Refreshed(RefreshedAll(s, order[..|order| - 1], configs), last, configs[last])
  }

  function Leaving(s: Session, users: set<string>, configs: map<string, UserInfo>): set<string>
    requires users <= configs.Keys
  {
    set u | u in users && MustGo(s, u, configs[u])
  }

  function KillsFor(s: Session, order: seq<string>, configs: map<string, UserInfo>): seq<Command>
    requires forall u | u in order :: u in configs
  {
    if order == [] then []
    else
      var last := order[|order| - 1];
      KillsFor(s, order[..|order| - 1], configs)
        + if MustGo(s, last, configs[last]) then [Kill(s.current[last].clientId)] else []
  }

  // Each user's policy, and what is taken back from a client that goes.
  function RefreshCalls(s: Session, order: seq<string>, configs: map<string, UserInfo>): seq<FirewallCall>
    requires forall u | u in order :: u in configs
  {
    if order == [] then []
    else
      var last := order[|order| - 1];
      RefreshCalls(s, order[..|order| - 1], configs) + [UpdateFirewall(last, configs[last].conf)]
        + if MustGo(s, last, configs[last]) then CallsOfEnd(s, last) else []
  }

  function CallsOfEnd(s: Session, user: string): seq<FirewallCall>
    requires user in s.current
  {
    var id := s.current[user].clientId;
    if s.mended && id in s.clients then TakenBack(s.clients[id]) else []
  }

  /**
   Whatever the order: exactly those users lose their current connection that disagree with the update,
   exactly their clients go, each is told so once and nothing else is sent, and each user of the update
   gets one firewall call. Where the tables are linked, so does each client that goes and had an address.
   */
  lemma {:induction false} RefreshedAllMeans(s: Session, order: seq<string>, configs: map<string, UserInfo>)
    requires Distinct(order) && Elements(order) <= configs.Keys
    ensures RefreshedAll(s, order, configs).mended == s.mended
    ensures RefreshedAll(s, order, configs).current == s.current - Leaving(s, Elements(order), configs)
    ensures RefreshedAll(s, order, configs).clients == s.clients - ClientsOf(s, Leaving(s, Elements(order), configs))
    ensures RefreshedAll(s, order, configs).commands == s.commands + KillsFor(s, order, configs)
    ensures !s.mended || Linked(s) ==>
      RefreshedAll(s, order, configs).calls == s.calls + RefreshCalls(s, order, configs)
    ensures Linked(s) ==> Linked(RefreshedAll(s, order, configs))
    ensures Good(s) ==> Good(RefreshedAll(s, order, configs))
  {
    hide Good, Linked, Refreshed, Leaving, ClientsOf, MustGo, KillsFor, RefreshCalls, CallsOfEnd;
    if order == [] {
      NobodyLeaves(s, configs);
      assert s.commands + [] == s.commands && s.calls + [] == s.calls;
    } else {
      var most, last := order[..|order| - 1], order[|order| - 1];
      assert order == most + [last];
      ElementsAppend(most, last);
      RefreshedAllMeans(s, most, configs);
      var before := RefreshedAll(s, most, configs);
      assert Elements(order) == Elements(most) + {last};
      LeavingNext(s, before, Elements(most), last, configs);
      RefreshedMeans(s, before, last, configs[last]);
      LogsNext(s, most, last, configs);
    }
  }

  lemma LogsNext(s: Session, most: seq<string>, last: string, configs: map<string, UserInfo>)
    requires (forall u | u in most :: u in configs) && last in configs
    ensures MustGo(s, last, configs[last]) ==>
      last in s.current
      && s.calls + RefreshCalls(s, most, configs) + ([UpdateFirewall(last, configs[last].conf)] + CallsOfEnd(s, last))
           == s.calls + RefreshCalls(s, most + [last], configs)
      && s.commands + KillsFor(s, most, configs) + [Kill(s.current[last].clientId)]
           == s.commands + KillsFor(s, most + [last], configs)
    ensures !MustGo(s, last, configs[last]) ==>
      s.calls + RefreshCalls(s, most, configs) + [UpdateFirewall(last, configs[last].conf)]
        == s.calls + RefreshCalls(s, most + [last], configs)
      && KillsFor(s, most, configs) == KillsFor(s, most + [last], configs)
  {
    hide Disagrees, CallsOfEnd;
    assert (most + [last])[..|most|] == most;
  }

  ghost function ClientsOf(s: Session, users: set<string>): set<nat> {
    set u | u in users && u in s.current :: s.current[u].clientId
  }

  lemma NobodyLeaves(s: Session, configs: map<string, UserInfo>)
    ensures Elements<string>([]) == {} && Leaving(s, {}, configs) == {} && ClientsOf(s, {}) == {}
    ensures s.current - {} == s.current && s.clients - {} == s.clients
    ensures KillsFor(s, [], configs) == [] && RefreshCalls(s, [], configs) == []
  {
  }

  lemma LeavingNext(s: Session, before: Session, users: set<string>, last: string, configs: map<string, UserInfo>)
    requires users <= configs.Keys && last in configs && last !in users
    requires before.current == s.current - Leaving(s, users, configs)
    requires before.clients == s.clients - ClientsOf(s, Leaving(s, users, configs)) && before.mended == s.mended
    ensures last in s.current ==> last in before.current && before.current[last] == s.current[last]
    ensures last !in s.current ==> last !in before.current
    ensures last in s.current && (!s.mended || Linked(s)) ==> CallsOfEnd(before, last) == CallsOfEnd(s, last)
    ensures !MustGo(s, last, configs[last]) ==> Leaving(s, users + {last}, configs) == Leaving(s, users, configs)
    ensures MustGo(s, last, configs[last]) ==>
      && before.current - {last} == s.current - Leaving(s, users + {last}, configs)
      && before.clients - {s.current[last].clientId} == s.clients - ClientsOf(s, Leaving(s, users + {last}, configs))
    ensures MustGo(s, last, configs[last]) ==> last in s.current
  {
    hide Disagrees;
    var leaving, more := Leaving(s, users, configs), Leaving(s, users + {last}, configs);
    assert more == leaving + if MustGo(s, last, configs[last]) then {last} else {};
    if MustGo(s, last, configs[last]) {
      assert ClientsOf(s, more) == ClientsOf(s, leaving) + {s.current[last].clientId};
    }
  }

  // One round, of a user who is in the table as at the start.
  lemma RefreshedMeans(s: Session, before: Session, user: string, info: UserInfo)
    requires user in s.current ==> user in before.current && before.current[user] == s.current[user]
    requires user !in s.current ==> user !in before.current
    ensures var next := Refreshed(before, user, info);
      && next.mended == before.mended
      && (!MustGo(s, user, info) ==>
            next == before.(calls := before.calls + [UpdateFirewall(user, info.conf)]))
      && (MustGo(s, user, info) ==>
            user in s.current && user in before.current &&
            var id := s.current[user].clientId;
            next == before.(clients := before.clients - {id}, current := before.current - {user},
              commands := before.commands + [Kill(id)],
              calls := before.calls + ([UpdateFirewall(user, info.conf)] + CallsOfEnd(before, user))))
    ensures Linked(before) ==> Linked(Refreshed(before, user, info))
    ensures Good(before) ==> Good(Refreshed(before, user, info))
  {
    hide Good, Linked, Disagrees;
    var update := [UpdateFirewall(user, info.conf)];
    var called := before.(calls := before.calls + update);
    CalledGood(before, called);
    EndedGood(called, user);
    if MustGo(s, user, info) {
      assert before.calls + update + CallsOfEnd(before, user) == before.calls + (update + CallsOfEnd(before, user));
    }
  }

  class ClientConnection {
    const user: string
    const clientId: nat
    const login: Login  // key and conf
    var address: Option<Network>

    constructor (user: string, clientId: nat, login: Login, address: Option<Network>)
      ensures this.user == user && this.clientId == clientId && this.login == login && this.address == address
    {
      this.user, this.clientId, this.login, this.address := user, clientId, login, address;
    }
  }

  function Records(clients: map<nat, ClientConnection>): map<nat, Client>
    reads clients.Values
  {
    map id | id in clients :: Client(clients[id].user, clients[id].login, clients[id].address)
  }

  function Holders(current: map<string, ClientConnection>): map<string, Holder> {
    map u | u in current :: Holder(current[u].clientId, current[u].login)
  }

  lemma TablesMean(clients: map<nat, ClientConnection>, current: map<string, ClientConnection>)
    ensures Records(clients).Keys == clients.Keys && Holders(current).Keys == current.Keys
    ensures forall id | id in clients ::
      Records(clients)[id] == Client(clients[id].user, clients[id].login, clients[id].address)
    ensures forall u | u in current :: Holders(current)[u] == Holder(current[u].clientId, current[u].login)
  {
  }

  lemma TablesLess(clients: map<nat, ClientConnection>, current: map<string, ClientConnection>, id: nat, user: string)
    ensures Records(clients - {id}) == Records(clients) - {id}
    ensures Holders(current - {user}) == Holders(current) - {user}
  {
  }

  lemma TablesMore(
    clients: map<nat, ClientConnection>, current: map<string, ClientConnection>, id: nat, user: string,
    c: ClientConnection)
    ensures Records(clients[id := c]) == Records(clients)[id := Client(c.user, c.login, c.address)]
    ensures Holders(current[user := c]) == Holders(current)[user := Holder(c.clientId, c.login)]
  {
  }

  // Every record is filed under its own id or user. Where a user's connection names a client of that user, it
  // is the very record of the client, so that what one table learns the other knows.
  ghost predicate Filed(clients: map<nat, ClientConnection>, current: map<string, ClientConnection>) {
    && (forall id | id in clients :: clients[id].clientId == id)
    && forall u | u in current ::
         var c := current[u];
         c.user == u && (c.clientId in clients && clients[c.clientId].user == u ==> clients[c.clientId] == c)
  }

  // Every user's connection is the very record of its client.
  ghost predicate SameRecords(clients: map<nat, ClientConnection>, current: map<string, ClientConnection>) {
    forall u | u in current ::
      var c := current[u];
      c.user == u && c.clientId in clients && clients[c.clientId] == c
  }

  // Both tables without a client that hangs up, or is replaced.
  lemma FiledLess(clients: map<nat, ClientConnection>, current: map<string, ClientConnection>, id: nat)
    requires Filed(clients, current) && id in clients
    ensures Filed(clients - {id}, CurrentWithout(clients, current, id))
    ensures SameRecords(clients, current) ==> SameRecords(clients - {id}, CurrentWithout(clients, current, id))
  {
  }

  // Both tables without a user's connection.
  lemma FiledWithout(clients: map<nat, ClientConnection>, current: map<string, ClientConnection>, user: string)
    requires Filed(clients, current) && user in current
    ensures var id := current[user].clientId;
      && Filed(clients - {id}, current - {user})
      && (SameRecords(clients, current) ==> SameRecords(clients - {id}, current - {user}))
  {
  }

  // The user's table without a client that goes.
  function CurrentWithout(clients: map<nat, ClientConnection>, current: map<string, ClientConnection>, id: nat)
    : map<string, ClientConnection>
    requires id in clients
  {
    var user := clients[id].user;
    if user in current && current[user].clientId == id then current - {user} else current
  }

  // What a client that goes gives back.
  function GivenBack(c: ClientConnection): seq<FirewallCall>
    reads c
  {
    if c.address.Some? then [FirewallCall.DisconnectUser(c.user, c.address.value)] else []
  }

  lemma GoneShown(
    clients: map<nat, ClientConnection>, current: map<string, ClientConnection>, commands: seq<Command>,
    calls: seq<FirewallCall>, mended: bool, id: nat)
    requires id in clients
    ensures var s := Session(Records(clients), Holders(current), commands, calls, mended);
      var now := Session(
        Records(clients - {id}), Holders(CurrentWithout(clients, current, id)), commands, calls, mended);
      && id in s.clients
      && now.(calls := calls + GivenBack(clients[id])) == HungUp(s, id)
      && now.(calls := calls + if mended then GivenBack(clients[id]) else []) == Released(s, id)
  {
    hide Records, Holders;
    TablesMean(clients, current);
    TablesLess(clients, current, id, clients[id].user);
    assert calls + [] == calls;
  }

  lemma EndShown(
    clients: map<nat, ClientConnection>, current: map<string, ClientConnection>, commands: seq<Command>,
    calls: seq<FirewallCall>, mended: bool, user: string)
    requires user in current
    ensures var id := current[user].clientId;
      Session(Records(clients - {id}), Holders(current - {user}), commands + [Kill(id)],
        calls + (if mended && id in clients then GivenBack(clients[id]) else []), mended)
      == Ended(Session(Records(clients), Holders(current), commands, calls, mended), user)
  {
    hide Records, Holders;
    TablesMean(clients, current);
    TablesLess(clients, current, current[user].clientId, user);
    assert calls + [] == calls;
  }

  class Manager {
    const mended: bool
    var clients: map<nat, ClientConnection>
    var userConnections: map<string, ClientConnection>
    var commands: seq<Command>
    var calls: seq<FirewallCall>

    constructor (mended: bool)
      ensures Valid() && View() == Idle(mended) && clients == map[] && this.mended == mended
    {
      this.mended := mended;
      clients, userConnections, commands, calls := map[], map[], [], [];
    }

    ghost predicate Valid()
      reads this`clients, this`userConnections
    {
      Filed(clients, userConnections)
    }

    ghost predicate Shared()
      reads this`clients, this`userConnections
    {
      SameRecords(clients, userConnections)
    }

    function View(): Session
      reads this, clients.Values
    {
      Session(Records(clients), Holders(userConnections), commands, calls, mended)
    }

    lemma ViewMeans()
      ensures View().clients.Keys == clients.Keys && View().current.Keys == userConnections.Keys
      ensures View().mended == mended
      ensures forall id | id in clients :: View().clients[id].user == clients[id].user
      ensures forall id | id in clients :: View().clients[id].address == clients[id].address
      ensures forall u | u in userConnections :: View().current[u].clientId == userConnections[u].clientId
    {
    }

    /** The tables share their records exactly where they are linked by value. */
    lemma SharedIffLinked()
      requires Valid()
      ensures Shared() <==> Linked(View())
    {
      hide Records, Holders;
      TablesMean(clients, userConnections);
    }

    /**
     authorizeClient, from the answer of authenticateUser on. A login that succeeds puts one new record of
     that user into both tables.
     */
    method AuthorizeClient(clientId: nat, user: string, login: Result<Login, string>, reauth: bool)
      requires Valid()
      modifies this
      ensures Valid() && View() == Authorized(old(View()), clientId, user, login, reauth)
      ensures login.Success? ==>
        && clientId in clients && user in userConnections && clients[clientId] == userConnections[user]
        && fresh(clients[clientId])
      ensures fresh(clients.Values - old(clients.Values))
    {
      hide *;
      ViewMeans();
      CurrentMeans(clientId, user);
      AuthorizedMeans(View(), clientId, user, login, reauth);
      ghost var start := View();
      if login.Failure? {
        Send(Deny(clientId));
        return;
      }
      var oldConnection: ClientConnection? := null;
      var address: Option<Network> := None;
      if reauth && (!mended || IsCurrentOf(clientId, user)) {
        address := if mended then clients[clientId].address else None;
      } else {
        LeaveTables(clientId);
        ViewMeans();
        oldConnection := if user in userConnections then userConnections[user] else null;
        ConnectedMeans(start, View(), clientId, user, login.value);
      }
      Install(clientId, user, login.value, address);
      if oldConnection != null {
        Send(Kill(oldConnection.clientId));
      }
      Send(Auth(clientId));
    }

    // The client is this user's current connection.
    predicate IsCurrentOf(clientId: nat, user: string)
      reads this`clients, this`userConnections
      ensures IsCurrentOf(clientId, user) ==> clientId in clients
    {
      && clientId in clients && clients[clientId].user == user
      && user in userConnections && userConnections[user].clientId == clientId
    }

    lemma CurrentMeans(clientId: nat, user: string)
      ensures IsCurrentOf(clientId, user) <==> Renews(View(), clientId, user)
    {
    }

    method Send(command: Command)
      requires Valid()
      modifies this`commands
      ensures Valid() && View() == Told(old(View()), [command])
    {
      commands := commands + [command];
    }

    // A new record goes into both tables.
    method Install(clientId: nat, user: string, login: Login, address: Option<Network>)
      requires Valid()
      modifies this`clients, this`userConnections
      ensures Valid() && View() == Installed(old(View()), clientId, user, login, address)
      ensures clientId in clients && user in userConnections && clients[clientId] == userConnections[user]
      ensures fresh(clients[clientId]) && clients[clientId].user == user
      ensures fresh(clients.Values - old(clients.Values))
    {
      hide Records, Holders;
      var connection := new ClientConnection(user, clientId, login, address);
      TablesMore(clients, userConnections, clientId, user, connection);
      clients := clients[clientId := connection];
      userConnections := userConnections[user := connection];
    }

    // The first part of a CONNECT: an earlier connection under the same client id is dropped.
    method LeaveTables(clientId: nat)
      requires Valid()
      modifies this`clients, this`userConnections, this`calls
      ensures Valid() && View() == if clientId in old(clients) then Released(old(View()), clientId) else old(View())
      ensures old(Shared()) ==> Shared()
      ensures clients.Values <= old(clients.Values)
    {
      hide Records, Holders, Filed, SameRecords, Released, Dropped;
      if clientId in clients {
        GoneShown(clients, userConnections, commands, calls, mended, clientId);
        FiledLess(clients, userConnections, clientId);
        var oldConnection := clients[clientId];
        clients := clients - {clientId};
        if oldConnection.user in userConnections && userConnections[oldConnection.user].clientId == clientId {
          userConnections := userConnections - {oldConnection.user};
        }
        if mended {
          calls := calls + GivenBack(oldConnection);
        }
      }
    }

    /** DisconnectUser. The tables go on sharing their records. */
    method DisconnectUser(user: string)
      requires Valid()
      modifies this
      ensures Valid() && View() == Ended(old(View()), user)
      ensures old(Shared()) ==> Shared()
      ensures clients.Values <= old(clients.Values)
    {
      hide Records, Holders, Filed, SameRecords, Ended;
      if user in userConnections {
        EndShown(clients, userConnections, commands, calls, mended, user);
        FiledWithout(clients, userConnections, user);
        var connection := userConnections[user];
        var id := connection.clientId;
        if mended && id in clients {
          calls := calls + GivenBack(clients[id]);
        }
        userConnections := userConnections - {user};
        clients := clients - {id};
        commands := commands + [Kill(id)];
      } else {
        NobodyEnds(user);
      }
    }

    lemma NobodyEnds(user: string)
      requires user !in userConnections
      ensures Ended(View(), user) == View()
    {
    }

    method Announce(id: nat, address: Network)
      requires Valid() && id in clients
      modifies this`calls, clients[id]
      ensures View() == Addressed(old(View()), id, address)
    {
      clients[id].address := Some(address);
      calls := calls + [ConnectUser(clients[id].user, address)];
    }

    /**
     processClientEvent, in whatever state. The tables go on sharing their records exactly unless a REAUTH
     usurps somebody's current connection.
     */
    method ProcessClientEvent(e: Event) returns (panicked: bool)
      requires Valid()
      modifies this, clients.Values
      ensures panicked <==> Stops(old(View()), e)
      ensures !panicked ==> Valid() && View() == Next(old(View()), e)
      ensures !panicked && old(Shared()) ==> (Shared() <==> !Usurps(old(View()), e))
      ensures fresh(clients.Values - old(clients.Values))
    {
      hide Authorized, HungUp, Addressed, Records, Holders, Linked, Usurps, Shared, Valid;
      panicked := false;
      ghost var start := View();
      SharedIffLinked();
      TablesMean(clients, userConnections);
      match e {
        case Connect(id, user, login) => AuthorizeClient(id, user, login, false);
        case Reauth(id, user, login) => AuthorizeClient(id, user, login, true);
        case Address(id, address) =>
          if id in clients {
            Announce(id, address);
          } else if !mended {
            return true;
          }
        case Disconnect(id) =>
          if id in clients {
            panicked := HangUp(id);
            if panicked {
              return;
            }
          }
        case Ignored =>
      }
      SharedIffLinked();
      if Linked(start) {
        NextLinkedIff(start, e);
      }
    }

    // The DISCONNECT of a known client.
    method HangUp(id: nat) returns (panicked: bool)
      requires Valid() && id in clients
      modifies this
      ensures panicked <==> Stops(old(View()), Disconnect(id))
      ensures !panicked ==> Valid() && View() == HungUp(old(View()), id) && (old(Shared()) ==> Shared())
      ensures clients.Values <= old(clients.Values)
    {
      hide Records, Holders, Filed, SameRecords, HungUp, Dropped;
      TablesMean(clients, userConnections);
      GoneShown(clients, userConnections, commands, calls, mended, id);
      FiledLess(clients, userConnections, id);
      var conn := clients[id];
      clients := clients - {id};
      if conn.user !in userConnections && !mended {
        return true;
      }
      if conn.user in userConnections && userConnections[conn.user].clientId == id {
        userConnections := userConnections - {conn.user};
      }
      calls := calls + GivenBack(conn);
      return false;
    }

    /**
     handleEvents: the state after any run of events, up to the event that ends the server, if one does. The
     tables still share their records if no REAUTH has usurped a connection.
     */
    method HandleEvents(events: seq<Event>) returns (handled: nat, panicked: bool)
      requires Valid()
      modifies this, clients.Values
      ensures handled <= |events| && After(old(View()), events[..handled]).Some?
      ensures panicked <==> handled < |events|
      ensures panicked ==> Stops(After(old(View()), events[..handled]).value, events[handled])
      ensures !panicked ==> Valid() && After(old(View()), events) == Some(View())
      ensures !panicked && old(Shared()) && (forall k | 0 <= k < |events| :: HonestAt(old(View()), events, k)) ==>
        Shared()
    {
      hide Next, Stops, Usurps, Records, Holders, Valid, Shared, Linked;
      handled, panicked := 0, false;
      ghost var start := View();
      SharedIffLinked();
      assert events[..0] == [] && events[..|events|] == events;
      while handled < |events|
        invariant handled <= |events| && Valid() && !panicked
        invariant After(start, events[..handled]) == Some(View())
        invariant fresh(clients.Values - old(clients.Values))
      {
        AfterNext(start, events, handled);
        panicked := ProcessClientEvent(events[handled]);
        if panicked {
          return;
        }
        handled := handled + 1;
      }
      SharedIffLinked();
      if old(Shared()) && forall k | 0 <= k < |events| :: HonestAt(start, events, k) {
        RunLinkedIff(start, events);
        assert LinkedAt(start, events, |events|);
      }
    }

    // The body of updateConfig's loop.
    method RefreshUser(user: string, info: UserInfo)
      requires Valid()
      modifies this
      ensures Valid() && View() == Refreshed(old(View()), user, info)
      ensures old(Shared()) ==> Shared()
      ensures clients.Values <= old(clients.Values)
    {
      hide Ended, Records, Holders, Filed, SameRecords;
      TablesMean(clients, userConnections);
      ghost var start := View();
      var killConn := false;
      if user in userConnections {
        var userConn := userConnections[user];
        assert start.current[user].login == userConn.login;
        if userConn.login.key !in info.keys || userConn.login.conf.dns.Off? != info.conf.dns.Off? {
          killConn := true;
        } else {
          killConn := CompareRoutes(userConn.login.conf.routes, info.conf.routes);
        }
      }
      calls := calls + [UpdateFirewall(user, info.conf)];
      assert View() == start.(calls := start.calls + [UpdateFirewall(user, info.conf)]);
      if killConn {
        DisconnectUser(user);
      }
    }

    /**
     updateConfig. As written its loop is guarded by `users != nil && err != nil`, and no answer of
     userManager.update has both, so nothing happens. With the guard mended, each user of the update gets
     one firewall call, in some order; exactly those current connections go that disagree with it, with
     their clients; each is told so, and no other command is sent. The tables go on sharing their records.
     */
    method UpdateConfig(answer: UpdateAnswer) returns (ghost order: seq<string>)
      requires Valid()
      modifies this
      ensures Valid() && Distinct(order) && clients.Values <= old(clients.Values)
      ensures Elements(order) == if mended && answer.Updated? then answer.configs.Keys else {}
      ensures !(mended && answer.Updated?) ==> View() == old(View())
      ensures mended && answer.Updated? ==>
        var leaving := Leaving(old(View()), answer.configs.Keys, answer.configs);
        && View() == RefreshedAll(old(View()), order, answer.configs)
        && View().current == old(View()).current - leaving
        && View().clients == old(View()).clients - ClientsOf(old(View()), leaving)
        && View().commands == old(View()).commands + KillsFor(old(View()), order, answer.configs)
        && (Linked(old(View())) ==>
              View().calls == old(View()).calls + RefreshCalls(old(View()), order, answer.configs))
      ensures old(Shared()) ==> Shared()
      ensures Good(old(View())) ==> Good(View())
    {
      hide Refreshed, Leaving, KillsFor, ClientsOf, RefreshCalls, Good, Linked, Records, Holders, Filed, SameRecords;
      order := [];
      if answer.users().Some? && (if mended then !answer.err() else answer.err()) {
        var users := answer.configs;
        ghost var start := View();
        var pending := users.Keys;
        while pending != {}
          invariant Valid() && pending <= users.Keys
          invariant clients.Values <= old(clients.Values)
          invariant Distinct(order) && Elements(order) == users.Keys - pending && forall u | u in order :: u in users
          invariant View() == RefreshedAll(start, order, users)
          invariant old(Shared()) ==> Shared()
          decreases pending
        {
          var user :| user in pending;
          pending := pending - {user};
          RefreshUser(user, users[user]);
          assert (order + [user])[..|order|] == order;
          ElementsAppend(order, user);
          order := order + [user];
        }
        RefreshedAllMeans(start, order, users);
      }
    }
  }

  // userManager.update: an error, possibly silent, or the users' new configurations.
  datatype UpdateAnswer = Failed(reported: bool) | Updated(configs: map<string, UserInfo>) {
    function users(): Option<map<string, UserInfo>> {
      if Updated? then Some(configs) else None
    }

    predicate err() {
      Failed? && reported
    }
  }

  // IP.Equal and the mask bits; the address size is not compared.
  predicate SameNetwork(a: Network, b: Network) {
    a.ip == b.ip && a.mask == b.mask
  }

  predicate RoutesMatch(a: seq<Route>, b: seq<Route>) {
    |a| == |b| && forall i | 0 <= i < |a| :: SameNetwork(a[i].network, b[i].network)
  }

  // The kill decision: the key is gone, the DNS push changed, or the route lists differ somewhere.
  predicate Disagrees(login: Login, info: UserInfo) {
    || login.key !in info.keys || login.conf.dns.Off? != info.conf.dns.Off?
    || !RoutesMatch(login.conf.routes, info.conf.routes)
  }

  method CompareRoutes(a: seq<Route>, b: seq<Route>) returns (killConn: bool)
    ensures killConn <==> !RoutesMatch(a, b)
  {
    killConn := false;
    if |a| != |b| {
      killConn := true;
    } else {
      for i := 0 to |a|
        invariant !killConn && forall k | 0 <= k < i :: SameNetwork(a[k].network, b[k].network)
      {
        if a[i].network.ip != b[i].network.ip {
          killConn := true;
          break;
        }
        if a[i].network.mask != b[i].network.mask {
          killConn := true;
          break;
        }
      }
    }
  }

  ghost predicate OneFamily(a: UserConfig, b: UserConfig) {
    forall m, n | m in Networks(a) + Networks(b) && n in Networks(a) + Networks(b) :: m.size == n.size
  }

  /**
   The decision is about sets: for two results of GetUserConfig within one address family, a
   connection stays exactly when its key is still listed, its DNS push is unchanged, and the same
   networks are pushed.
   */
  lemma StaysIffSameNetworks(
    login: Login, info: UserInfo, render: Network -> string,
    before: set<Section>, after: set<Section>, infoBefore: NetworkInfo, infoAfter: NetworkInfo)
    requires Describes(login.conf, before, infoBefore, render) && Describes(info.conf, after, infoAfter, render)
    requires OneFamily(login.conf, info.conf) && Injective(render, Networks(login.conf))
    ensures !Disagrees(login, info) <==>
      && login.key in info.keys && login.conf.dns.Off? == info.conf.dns.Off?
      && Networks(login.conf) == Networks(info.conf)
  {
    RoutesMatchIffSets(login.conf, info.conf, render, before, after, infoBefore, infoAfter);
  }

  lemma RoutesMatchIffSets(
    a: UserConfig, b: UserConfig, render: Network -> string,
    before: set<Section>, after: set<Section>, infoBefore: NetworkInfo, infoAfter: NetworkInfo)
    requires Describes(a, before, infoBefore, render) && Describes(b, after, infoAfter, render)
    requires OneFamily(a, b) && Injective(render, Networks(a))
    ensures RoutesMatch(a.routes, b.routes) <==> Networks(a) == Networks(b)
  {
    hide Merges, Granted, Decides, Lists, Canonical, Elements, Injective;
    var natA, tableA :| Decides(before, Nat, All, natA)
        && Merges(tableA, Granted(before, natA, infoBefore)) && Lists(a.routes, tableA, render);
    var natB, tableB :| Decides(after, Nat, All, natB)
        && Merges(tableB, Granted(after, natB, infoAfter)) && Lists(b.routes, tableB, render);
    ListedNetworks(a, tableA, render);
    ListedNetworks(b, tableB, render);
    MatchIffSameList(a, b);
    if Networks(a) == Networks(b) {
      SameOrder(NetworkList(a.routes), NetworkList(b.routes), render);
    }
  }

  lemma MatchIffSameList(a: UserConfig, b: UserConfig)
    requires OneFamily(a, b)
    ensures RoutesMatch(a.routes, b.routes) <==> NetworkList(a.routes) == NetworkList(b.routes)
  {
    forall i | 0 <= i < |a.routes|
      ensures NetworkList(a.routes)[i] == a.routes[i].network && a.routes[i].network in Networks(a)
    {
      assert a.routes[i] in a.routes;
    }
    forall i | 0 <= i < |b.routes|
      ensures NetworkList(b.routes)[i] == b.routes[i].network && b.routes[i].network in Networks(b)
    {
      assert b.routes[i] in b.routes;
    }
  }
}
