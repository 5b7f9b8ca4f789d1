/**
 The server's firewall: a mirror of each user's chain and the table of connected addresses, kept in
 step with iptables by UpdateUser, ConnectUser and DisconnectUser.

 The source is the firewall with `mended == false`: its update loops pass 0-based positions where
 iptables counts from 1, the port form of "replace" is a malformed append, and the delete loop
 repeats one position and never shortens the mirror. With `mended == true` the two loops are the ones
 the code evidently intends: number + 1, --replace for every rule, toDelete[i] and a shorter mirror.
 */
module Firewall {
  import opened Wrappers
  import opened Sequences
  import opened Iptables
  import opened ChainEdits

  ghost predicate SameElsewhere<K(!new), V>(key: K, m: map<K, V>, m': map<K, V>) {
    forall k | k != key :: (k in m <==> k in m') && (k in m ==> m[k] == m'[k])
  }

  // The positions of the mirror whose rule is no longer requested, in ascending order.
  ghost predicate IsStaleList(stale: seq<nat>, current: seq<ChainRule>, upTo: nat, requested: set<ChainRule>) {
    && upTo <= |current|
    && (forall i, j | 0 <= i < j < |stale| :: stale[i] < stale[j])
    && (forall i | 0 <= i < |stale| :: stale[i] < upTo)
    && forall p | 0 <= p < upTo :: p in stale <==> current[p] !in requested
  }

  // One jump per connected address, to the chain of its user, and no other.
  ghost predicate JumpsFor(jumps: multiset<Jump>, connections: map<Network, string>) {
    forall j: Jump :: jumps[j] == if j.source in connections && connections[j.source] == j.user then 1 else 0
  }

  lemma JumpRemoved(jumps: multiset<Jump>, connections: map<Network, string>, addr: Network)
    requires JumpsFor(jumps, connections) && addr in connections
    ensures Jump(addr, connections[addr]) in jumps
    ensures JumpsFor(jumps - multiset{Jump(addr, connections[addr])}, connections - {addr})
  {
    assert jumps[Jump(addr, connections[addr])] == 1;
  }

  lemma JumpAdded(jumps: multiset<Jump>, connections: map<Network, string>, addr: Network, user: string)
    requires JumpsFor(jumps, connections - {addr})
    ensures JumpsFor(jumps + multiset{Jump(addr, user)}, connections[addr := user])
    ensures !JumpsFor(jumps, connections[addr := user])
  {
    assert jumps[Jump(addr, user)] == 0;
    assert connections[addr := user] == (connections - {addr})[addr := user];
  }

  class Firewall {
    const tables: Tables
    const mended: bool
    var mirror: map<string, seq<ChainRule>>   // userChains
    var connections: map<Network, string>

    constructor (mended: bool)
      ensures fresh(tables) && this.mended == mended && mirror == map[] && connections == map[]
      ensures tables.userChains == map[] && tables.forward == []
    {
      this.mended := mended;
      tables := new Tables();
      mirror := map[];
      connections := map[];
    }

    // The mirror of one user agrees with the chain, rule by rule, and repeats none.
    ghost predicate InSync(user: string)
      reads this`mirror, tables`userChains
    {
      && (user in mirror <==> user in tables.userChains)
      && (user in mirror ==> mirror[user] == tables.userChains[user] && Distinct(mirror[user]))
    }

    // What the user's chain grants; a user without a chain is granted nothing.
    ghost function RuleSet(user: string): set<ChainRule>
      reads tables`userChains
    {
      if user in tables.userChains then Elements(tables.userChains[user]) else {}
    }

    // The user has a mirror exactly if there is a chain for it.
    ghost predicate Matched(user: string)
      reads this`mirror, tables`userChains
    {
      user in mirror <==> user in tables.userChains
    }

    ghost function TwinOf(user: string): Option<Twin>
      reads this`mirror, tables`userChains
    {
      if user in mirror && user in tables.userChains then Some(Twin(mirror[user], tables.userChains[user])) else None
    }

    // Mirror and chain of all users.
    ghost function Twins(): Twins
      reads this`mirror, tables`userChains
    {
      map user | user in mirror && user in tables.userChains :: Twin(mirror[user], tables.userChains[user])
    }

    // Whether UpdateUser has anything to do; a rule list of another length always counts as a change.
    predicate NeedsUpdate(user: string, rules: Option<seq<ChainRule>>, requested: set<ChainRule>)
      reads this`mirror
    {
      var length := if rules.None? then 0 else |rules.value|;
      if user !in mirror then length != 0
      else |mirror[user]| != length || exists r | r in mirror[user] :: r !in requested
    }

    // dropChain.
    method DropChain(user: string) returns (ok: bool)
      modifies tables`userChains
      ensures old(user in tables.userChains) && (forall j | j in tables.forward :: j.user != user) ==>
        ok && tables.userChains == old(tables.userChains) - {user}
      ensures !ok ==> tables.userChains.Keys == old(tables.userChains.Keys)
      ensures SameElsewhere(user, old(tables.userChains), tables.userChains)
    {
      ok := tables.Flush(user);
      if ok {
        ok := tables.DeleteChain(user);
      }
    }

    // The branch for a user without a chain. The rules are appended in any order.
    method CreateUser(user: string, requested: set<ChainRule>) returns (ok: bool)
      requires user !in mirror
      modifies this`mirror, tables`userChains
      ensures ok == old(user !in tables.userChains)
      ensures ok ==> InSync(user) && RuleSet(user) == requested
      ensures SameElsewhere(user, old(mirror), mirror)
      ensures SameElsewhere(user, old(tables.userChains), tables.userChains)
      ensures !ok ==> mirror == old(mirror) && tables.userChains == old(tables.userChains)
    {
      ok := tables.NewChain(user);
      if !ok {
        return;
      }
      var current: seq<ChainRule> := [];
      var pending := requested;
      while pending != {}
        invariant ok && mirror == old(mirror) && tables.userChains == old(tables.userChains)[user := current]
        invariant Distinct(current) && Elements(current) == requested - pending && pending <= requested
        decreases pending
      {
        var entry :| entry in pending;
        pending := pending - {entry};
        ok := tables.Append(user, entry);  // cannot fail: the chain is there
        ElementsAppend(current, entry);
        current := current + [entry];
      }
      mirror := mirror[user := current];
    }

    // The first loop of the update branch: what stays, what is new, and where the rest stands.
    method Partition(current: seq<ChainRule>, requested: set<ChainRule>)
      returns (pending: set<ChainRule>, stale: seq<nat>)
      ensures pending == requested - Elements(current)
      ensures stale == StaleIn(current, |current|, requested)
    {
      pending, stale := requested, [];
      for index := 0 to |current|
        invariant pending == requested - Elements(current[..index])
        invariant stale == StaleIn(current, index, requested)
      {
        var entry := current[index];
        assert current[..index + 1] == current[..index] + [entry];
        if entry in pending {
          pending := pending - {entry};
        } else {
          stale := stale + [index];
        }
      }
      assert current[..|current|] == current;
    }

    // replaceRule: the port form is an --append with a stray argument, which iptables rejects.
    method ReplaceRule(user: string, index: nat, rule: ChainRule) returns (ok: bool)
      modifies tables`userChains
      ensures ok ==
        (rule.port == 0 && user in old(tables.userChains) && ValidNumber(old(tables.userChains)[user], index))
      ensures tables.userChains == if user in old(tables.userChains)
        then old(tables.userChains)[user := ReplacedIn(old(tables.userChains)[user], index, rule)]
        else old(tables.userChains)
    {
      if rule.port == 0 {
        ok := tables.Replace(user, index, rule);
      } else {
        ok := false;
      }
    }

    // The second loop: new rules take the places of stale ones from the front, then go to the end.
    method ReplaceStale(user: string, start: seq<ChainRule>, new_: set<ChainRule>, stale: seq<nat>)
      returns (current: seq<ChainRule>, deletePointer: nat, ghost order: seq<ChainRule>)
      requires user in tables.userChains && forall i | 0 <= i < |stale| :: stale[i] < |start|
      modifies tables`userChains
      ensures SameElsewhere(user, old(tables.userChains), tables.userChains) && user in tables.userChains
      ensures IsOrder(order, new_) && deletePointer == if |order| < |stale| then |order| else |stale|
      ensures Twin(current, tables.userChains[user]) ==
        Placed(Twin(start, old(tables.userChains)[user]), order, stale)
    {
      current, deletePointer, order := start, 0, [];
      var pending := new_;
      while pending != {}
        invariant SameElsewhere(user, old(tables.userChains), tables.userChains) && user in tables.userChains
        invariant pending <= new_ && IsOrder(order, new_ - pending)
        invariant deletePointer == if |order| < |stale| then |order| else |stale|
        invariant Twin(current, tables.userChains[user]) ==
          Placed(Twin(start, old(tables.userChains)[user]), order, stale)
        decreases pending
      {
        var entry :| entry in pending;
        OrderNext(order, new_ - pending, entry);
        pending := pending - {entry};
        PlacedNext(Twin(start, old(tables.userChains)[user]), order, stale, entry);
        order := order + [entry];
        if deletePointer < |stale| {
          var rulenum := stale[deletePointer];
          deletePointer := deletePointer + 1;
          var _ := ReplaceRule(user, rulenum, entry);
          current := current[rulenum := entry];
        } else {
          var _ := tables.Append(user, entry);
          current := current + [entry];
        }
        assert IsOrder(order, new_ - pending) by {
          assert new_ - pending == new_ - (pending + {entry}) + {entry};
        }
      }
      assert new_ - {} == new_;
    }

    // The third loop. It deletes by one and the same number each time, and the mirror keeps its length.
    method DeleteStale(user: string, changed: seq<ChainRule>, stale: seq<nat>, deletePointer: nat)
      returns (current: seq<ChainRule>)
      requires user in tables.userChains && deletePointer <= |stale|
      requires forall i | 0 <= i < |stale| :: stale[i] < |changed|
      modifies tables`userChains
      ensures SameElsewhere(user, old(tables.userChains), tables.userChains) && user in tables.userChains
      ensures Twin(current, tables.userChains[user]) ==
        var t := Twin(changed, old(tables.userChains)[user]);
        if deletePointer < |stale| then Dropped(t, stale[deletePointer], |stale| - deletePointer) else t
    {
      hide Dropped;
      current := changed;
      var i := |stale| - 1;
      DroppedNever(Twin(changed, tables.userChains[user]));
      while i >= deletePointer
        invariant deletePointer - 1 <= i < |stale|
        invariant SameElsewhere(user, old(tables.userChains), tables.userChains) && user in tables.userChains
        invariant |current| == |changed|
        invariant Twin(current, tables.userChains[user]) ==
          var t := Twin(changed, old(tables.userChains)[user]);
          if deletePointer < |stale| then Dropped(t, stale[deletePointer], |stale| - 1 - i) else t
        decreases i
      {
        var rulenum := stale[deletePointer];
        DroppedNext(Twin(changed, old(tables.userChains)[user]), rulenum, |stale| - 1 - i);
        var _ := tables.Delete(user, rulenum);
        current := current[..rulenum] + current[rulenum + 1..] + [current[|current| - 1]];
        i := i - 1;
      }
    }

    /** The update branch as written, whatever mirror and chain hold. */
    method UpdateChain(user: string, requested: set<ChainRule>)
      requires user in mirror && user in tables.userChains
      modifies this`mirror, tables`userChains
      ensures SameElsewhere(user, old(mirror), mirror)
      ensures SameElsewhere(user, old(tables.userChains), tables.userChains)
      ensures user in mirror && user in tables.userChains
      ensures Rewritten(
        Twin(old(mirror)[user], old(tables.userChains)[user]), requested, Twin(mirror[user], tables.userChains[user]))
    {
      hide Placed, Dropped, StaleIn, IsOrder;
      var start := mirror[user];
      var pending, stale := Partition(start, requested);
      var current, deletePointer;
      ghost var order;
      current, deletePointer, order := ReplaceStale(user, start, pending, stale);
      current := DeleteStale(user, current, stale, deletePointer);
      mirror := mirror[user := current];
    }

    // The second loop with the numbers and the command mended.
    method ReplaceMended(
      user: string, start: seq<ChainRule>, requested: set<ChainRule>, new_: set<ChainRule>, stale: seq<nat>)
      returns (current: seq<ChainRule>, deletePointer: nat)
      requires user in tables.userChains && tables.userChains[user] == start && Distinct(start)
      requires IsStaleList(stale, start, |start|, requested) && new_ == requested - Elements(start)
      modifies tables`userChains
      ensures SameElsewhere(user, old(tables.userChains), tables.userChains)
      ensures user in tables.userChains && tables.userChains[user] == current && Distinct(current)
      ensures deletePointer <= |stale| && IsStaleList(stale[deletePointer..], current, |current|, requested)
      ensures requested <= Elements(current)
    {
      current, deletePointer := start, 0;
      var pending := new_;
      while pending != {}
        invariant SameElsewhere(user, old(tables.userChains), tables.userChains)
        invariant user in tables.userChains && tables.userChains[user] == current && Distinct(current)
        invariant deletePointer <= |stale| && IsStaleList(stale[deletePointer..], current, |current|, requested)
        invariant pending == requested - Elements(current)
        decreases pending
      {
        var entry :| entry in pending;
        if deletePointer < |stale| {
          var rulenum := stale[deletePointer];
          assert stale[deletePointer..][0] == rulenum;
          ReplaceStep(current, stale[deletePointer..], requested, entry);
          deletePointer := deletePointer + 1;
          var _ := tables.Replace(user, rulenum + 1, entry);
          current := current[rulenum := entry];
        } else {
          AppendStep(current, requested, entry);
          var _ := tables.Append(user, entry);
          current := current + [entry];
        }
        pending := pending - {entry};
      }
      assert forall x | x in requested && x !in Elements(current) :: x in pending;
    }

    // The third loop with its index and the shortening of the mirror mended.
    method DeleteMended(
      user: string, changed: seq<ChainRule>, requested: set<ChainRule>, stale: seq<nat>, deletePointer: nat)
      returns (current: seq<ChainRule>)
      requires user in tables.userChains && tables.userChains[user] == changed && Distinct(changed)
      requires deletePointer <= |stale| && IsStaleList(stale[deletePointer..], changed, |changed|, requested)
      requires requested <= Elements(changed)
      modifies tables`userChains
      ensures SameElsewhere(user, old(tables.userChains), tables.userChains)
      ensures user in tables.userChains && tables.userChains[user] == current && Distinct(current)
      ensures Elements(current) == requested
    {
      hide Distinct, Elements, IsStaleList;
      current := changed;
      var i := |stale| - 1;
      assert stale[deletePointer..|stale|] == stale[deletePointer..];
      while i >= deletePointer
        invariant deletePointer - 1 <= i < |stale|
        invariant SameElsewhere(user, old(tables.userChains), tables.userChains)
        invariant user in tables.userChains && tables.userChains[user] == current && Distinct(current)
        invariant IsStaleList(stale[deletePointer..i + 1], current, |current|, requested)
        invariant requested <= Elements(current)
        decreases i
      {
        var rulenum := stale[i];
        ghost var rest := stale[deletePointer..i + 1];
        assert rest[|rest| - 1] == rulenum && rest[..|rest| - 1] == stale[deletePointer..i];
        DeleteStep(current, rest, requested);
        var _ := tables.Delete(user, rulenum + 1);
        current := Without(current, rulenum);
        i := i - 1;
      }
      assert stale[deletePointer..i + 1] == [];
      NoneStale(current, requested);
      assert Elements(current) == requested;
    }

    method UpdateChainMended(user: string, requested: set<ChainRule>)
      requires user in mirror && InSync(user)
      modifies this`mirror, tables`userChains
      ensures SameElsewhere(user, old(mirror), mirror)
      ensures SameElsewhere(user, old(tables.userChains), tables.userChains)
      ensures user in mirror && user in tables.userChains
      ensures InSync(user) && RuleSet(user) == requested
    {
      var start := mirror[user];
      var pending, stale := Partition(start, requested);
      StaleList(start, |start|, requested);
      var current, deletePointer := ReplaceMended(user, start, requested, pending, stale);
      current := DeleteMended(user, current, requested, stale, deletePointer);
      mirror := mirror[user := current];
    }

    /**
     UpdateUser, on whatever mirror and chain there are (`Updates`). Where they are in step before, the chain
     holds exactly the requested rules afterwards, with the loops as written, if and only if every rule it
     held before is requested again; with the mended loops it always does.
     */
    method UpdateUser(user: string, rules: Option<seq<ChainRule>>) returns (ok: bool)
      requires Matched(user) && (mended ==> InSync(user))
      modifies this`mirror, tables`userChains
      ensures SameElsewhere(user, old(mirror), mirror)
      ensures SameElsewhere(user, old(tables.userChains), tables.userChains)
      ensures rules.Some? ==> ok && Matched(user) && (mended ==> InSync(user))
      ensures rules.Some? ==> Updates(mended, old(TwinOf(user)), rules.value, TwinOf(user))
      ensures rules.Some? && old(user in tables.userChains) ==> user in tables.userChains
      ensures rules.Some? && old(InSync(user)) ==>
        var requested := Elements(rules.value);
        && (InSync(user) && RuleSet(user) == requested <==> mended || old(RuleSet(user)) <= requested)
        && (RuleSet(user) == requested <==> mended || old(RuleSet(user)) <= requested)
        && (!mended && !(old(RuleSet(user)) <= requested) ==>
              exists rule :: rule in old(RuleSet(user)) && rule !in requested && rule in RuleSet(user))
      ensures rules.None? && old(InSync(user)) && (forall j | j in tables.forward :: j.user != user) ==>
        ok && InSync(user) && RuleSet(user) == {}
    {
      hide Rewritten;
      var requested := if rules.None? then {} else Elements(rules.value);
      ok := true;
      if rules.Some? && user in mirror {
        ChangesMeans(mirror[user], rules.value);
      }
      ghost var before := TwinOf(user);
      if NeedsUpdate(user, rules, requested) {
        if rules.None? {
          if user in mirror {
            mirror := mirror - {user};
            ok := DropChain(user);
          }
        } else if user !in mirror {
          ok := CreateUser(user, requested);
          assert rules.value[0] in requested;
        } else if mended {
          UpdateChainMended(user, requested);
        } else {
          UpdateChain(user, requested);
        }
      }
      if rules.Some? && old(InSync(user)) {
        SyncedUpdateIff(mended, before, rules.value, TwinOf(user));
      }
    }

    ghost predicate ForwardSynced()
      reads this`connections, tables`forward
    {
      JumpsFor(multiset(tables.forward), connections)
    }

    // Every connected user has a chain: without one, iptables refuses the jump.
    ghost predicate ChainsExist()
      reads this`connections, tables`userChains
    {
      forall a | a in connections :: connections[a] in tables.userChains
    }

    /**
     ConnectUser keeps FORWARD in step exactly for users who have a chain. For a user without one the address
     is entered as connected, but there is no jump for it any more, not even the one of its former owner.
     */
    method ConnectUser(user: string, addr: Network) returns (ok: bool)
      requires ForwardSynced() && ChainsExist()
      modifies this`connections, tables`forward
      ensures connections == old(connections)[addr := user]
      ensures ok == (user in tables.userChains)
      ensures ForwardSynced() && ChainsExist() <==> user in tables.userChains
      ensures user !in tables.userChains ==> JumpsFor(multiset(tables.forward), old(connections) - {addr})
    {
      hide JumpsFor;
      if addr in connections {
        JumpRemoved(multiset(tables.forward), connections, addr);
        ok := tables.DeleteJump(addr, connections[addr]);
        if !ok {
          return;
        }
      } else {
        assert connections - {addr} == connections;
      }
      JumpAdded(multiset(tables.forward), connections, addr, user);
      connections := connections[addr := user];
      assert addr in connections;
      ok := tables.AppendJump(addr, user);
    }

    /** DisconnectUser removes the address if the user still owns it and changes nothing for anyone else. */
    method DisconnectUser(user: string, addr: Network) returns (ok: bool)
      requires ForwardSynced() && ChainsExist()
      modifies this`connections, tables`forward
      ensures ForwardSynced() && ChainsExist()
      ensures old(addr in connections && connections[addr] == user) ==> ok && connections == old(connections) - {addr}
      ensures !old(addr in connections && connections[addr] == user) ==>
        connections == old(connections) && tables.forward == old(tables.forward)
    {
      var existingUser := if addr in connections then connections[addr] else "";
      ok := true;
      if existingUser == user {
        if addr in connections {
          JumpRemoved(multiset(tables.forward), connections, addr);
        } else {
          assert multiset(tables.forward)[Jump(addr, user)] == 0;
        }
        connections := connections - {addr};
        ok := tables.DeleteJump(addr, user);
      }
    }

    // A packet passes if some jump for its source leads to a chain that accepts it; the policy is DROP.
    ghost predicate Forwards(p: Packet)
      reads tables
    {
      exists j :: j in tables.forward && Covers(j.source, p.src)
        && j.user in tables.userChains && Accepts(tables.userChains[j.user], p)
    }

    /**
     A packet passes exactly when a connected address, whose mask may cover more than one, has its source and
     a rule of the address's user matches.
     */
    lemma ForwardDecision(p: Packet)
      requires ForwardSynced()
      ensures Forwards(p) <==>
        exists a :: a in connections && Covers(a, p.src) && Granted(connections[a], p)
    {
      hide Covers, Matches;
      if Forwards(p) {
        var j :| j in tables.forward && Covers(j.source, p.src)
          && j.user in tables.userChains && Accepts(tables.userChains[j.user], p);
        assert multiset(tables.forward)[j] > 0;
        assert j.source in connections && connections[j.source] == j.user;
        GrantedMeans(j.user, p);
      }
      if a :| a in connections && Covers(a, p.src) && Granted(connections[a], p) {
        var j := Jump(a, connections[a]);
        assert multiset(tables.forward)[j] == 1;
        assert j in tables.forward;
        GrantedMeans(j.user, p);
      }
    }

    // The user's chain has a rule for the packet.
    ghost predicate Granted(user: string, p: Packet)
      reads tables`userChains
    {
      exists rule :: rule in RuleSet(user) && Matches(rule, p)
    }

    lemma GrantedMeans(user: string, p: Packet)
      ensures Granted(user, p) <==> user in tables.userChains && Accepts(tables.userChains[user], p)
    {
      hide Matches;
      assert user in tables.userChains ==>
        forall rule :: rule in RuleSet(user) <==> rule in tables.userChains[user];
    }
  }

  datatype Request = Request(user: string, rules: seq<ChainRule>)

  // What the latest request for the user asks for.
  ghost function Latest(requests: seq<Request>, user: string): set<ChainRule> {
    if requests == [] then {}
    else
      var last := requests[|requests| - 1];
      if last.user == user then Elements(last.rules) else Latest(requests[..|requests| - 1], user)
  }

  // Every request repeats what the one before it for the same user granted.
  ghost predicate Grows(requests: seq<Request>) {
    forall k | 0 <= k < |requests| :: Latest(requests[..k], requests[k].user) <= Elements(requests[k].rules)
  }

  ghost predicate Faithful(fw: Firewall, requests: seq<Request>)
    reads fw`mirror, fw.tables`userChains
  {
    forall user :: fw.InSync(user) && fw.RuleSet(user) == Latest(requests, user)
  }

  lemma LatestNext(requests: seq<Request>, k: nat, user: string)
    requires k < |requests|
    ensures Latest(requests[..k + 1], user) ==
      if requests[k].user == user then Elements(requests[k].rules) else Latest(requests[..k], user)
  {
    assert requests[..k + 1][..k] == requests[..k];
  }

  lemma GrowsNext(requests: seq<Request>, k: nat)
    requires k < |requests|
    ensures Grows(requests[..k + 1]) <==>
      Grows(requests[..k]) && Latest(requests[..k], requests[k].user) <= Elements(requests[k].rules)
  {
    assert forall i | 0 <= i < k :: requests[..k + 1][..i] == requests[..k][..i];
    assert requests[..k + 1][..k] == requests[..k];
  }

  // The mirror and the chain of every user that has one.
  type Twins = map<string, Twin>

  function TwinIn(t: Twins, user: string): Option<Twin> {
    if user in t then Some(t[user]) else None
  }

  // What a user's chain grants.
  ghost function GrantOf(t: Twins, user: string): set<ChainRule> {
    RulesOf(TwinIn(t, user))
  }

  ghost predicate Updated(mended: bool, a: Twins, r: Request, b: Twins) {
    && Updates(mended, TwinIn(a, r.user), r.rules, TwinIn(b, r.user))
    && forall user | user != r.user :: TwinIn(b, user) == TwinIn(a, user)
  }

  // Mirrors and chains before, between and after the updates, from no chain on.
  ghost predicate IsRun(mended: bool, states: seq<Twins>, requests: seq<Request>) {
    && |states| == |requests| + 1 && states[0] == map[]
    && forall k | 0 <= k < |requests| :: Updated(mended, states[k], requests[k], states[k + 1])
  }

  lemma RunBefore(mended: bool, states: seq<Twins>, requests: seq<Request>)
    requires IsRun(mended, states, requests) && requests != []
    ensures IsRun(mended, states[..|requests|], requests[..|requests| - 1])
    ensures Updated(mended, states[|requests| - 1], requests[|requests| - 1], states[|requests|])
  {
    hide Updated;
    assert forall k | 0 <= k < |requests| - 1 :: Updated(mended, states[k], requests[k], states[k + 1]);
  }

  ghost predicate AsAsked(t: Twins, requests: seq<Request>) {
    forall user :: GrantOf(t, user) == Latest(requests, user)
  }

  ghost predicate AllSynced(t: Twins) {
    forall user | user in t :: Synced(t[user])
  }

  lemma AsAskedNext(mended: bool, a: Twins, requests: seq<Request>, k: nat, b: Twins)
    requires k < |requests| && AllSynced(a) && AsAsked(a, requests[..k]) && Updated(mended, a, requests[k], b)
    ensures AsAsked(b, requests[..k + 1]) <==>
      mended || Latest(requests[..k], requests[k].user) <= Elements(requests[k].rules)
    ensures AsAsked(b, requests[..k + 1]) ==> AllSynced(b)
  {
    hide Latest, Updates, Synced, RulesOf;
    forall user
      ensures Latest(requests[..k + 1], user) ==
        if requests[k].user == user then Elements(requests[k].rules) else Latest(requests[..k], user)
    {
      LatestNext(requests, k, user);
    }
    var user := requests[k].user;
    assert GrantOf(a, user) == Latest(requests[..k], user);
    SyncedUpdateIff(mended, TwinIn(a, user), requests[k].rules, TwinIn(b, user));
    assert forall u | u != user :: TwinIn(b, u) == TwinIn(a, u) && GrantOf(b, u) == GrantOf(a, u);
    if AsAsked(b, requests[..k + 1]) {
      assert GrantOf(b, user) == Elements(requests[k].rules);
      forall u | u in b
        ensures Synced(b[u])
      {
        assert TwinIn(b, u) == Some(b[u]) && (u != user ==> u in a && a[u] == b[u]);
      }
    }
  }

  /**
   The chains grant what was asked for after every request of a run exactly when no request takes a rule
   away, or the loops are mended.
   */
  lemma {:induction false} AlwaysAsAskedIffGrows(mended: bool, states: seq<Twins>, requests: seq<Request>)
    requires IsRun(mended, states, requests)
    ensures (forall k | 0 <= k <= |requests| :: AsAsked(states[k], requests[..k])) <==> mended || Grows(requests)
    ensures mended || Grows(requests) ==> AllSynced(states[|requests|])
  {
    hide AsAsked, Updated, Grows, AllSynced;
    NothingAsked(requests);
    if requests == [] {
      assert states[0] == map[];
    } else {
      var n := |requests| - 1;
      var most, before := requests[..n], states[..n + 1];
      assert forall k | 0 <= k <= n :: most[..k] == requests[..k];
      RunBefore(mended, states, requests);
      AlwaysAsAskedIffGrows(mended, before, most);
      assert (forall k | 0 <= k <= n :: AsAsked(before[k], most[..k])) <==>
        forall k | 0 <= k <= n :: AsAsked(states[k], requests[..k]);
      assert requests[..n + 1] == requests;
      GrowsNext(requests, n);
      if mended || Grows(most) {
        assert AsAsked(before[n], most[..n]) && most[..n] == most;
        AsAskedNext(mended, states[n], requests, n, states[n + 1]);
      }
      assert (forall k | 0 <= k <= n + 1 :: AsAsked(states[k], requests[..k])) <==>
        (forall k | 0 <= k <= n :: AsAsked(states[k], requests[..k])) && AsAsked(states[n + 1], requests[..n + 1]);
    }
  }

  lemma NothingAsked(requests: seq<Request>)
    ensures Grows([]) && Grows(requests[..0]) && AsAsked(map[], requests[..0]) && AllSynced(map[])
    ensures forall user :: Latest(requests[..0], user) == {}
  {
  }

  // Every rule ever asked for, for a user.
  ghost function Ever(requests: seq<Request>, user: string): set<ChainRule> {
    if requests == [] then {}
    else
      var last := requests[|requests| - 1];
      Ever(requests[..|requests| - 1], user) + if last.user == user then Elements(last.rules) else {}
  }

  /**
   Whatever is asked for, and even as written: nothing is ever granted that was never asked for, and the chain
   is never longer than its mirror.
   */
  lemma {:induction false} NothingNeverAsked(mended: bool, states: seq<Twins>, requests: seq<Request>, user: string)
    requires IsRun(mended, states, requests)
    ensures GrantOf(states[|requests|], user) <= Ever(requests, user)
    ensures user in states[|requests|] ==>
      var t := states[|requests|][user]; Within(t, Ever(requests, user)) && |t.chain| <= |t.mirror|
  {
    hide Updated, Rewritten, Elements;
    if requests != [] {
      var n := |requests| - 1;
      RunBefore(mended, states, requests);
      NothingNeverAsked(mended, states[..n + 1], requests[..n], user);
      var a, b, rules := TwinIn(states[n], user), TwinIn(states[n + 1], user), Ever(requests, user);
      if requests[n].user == user {
        UpdatedOne(mended, states[n], requests[n], states[n + 1]);
        if a.Some? && b.Some? && Rewritten(a.value, Elements(requests[n].rules), b.value) {
          RewrittenWithin(a.value, Elements(requests[n].rules), b.value, rules);
        }
      } else {
        assert b == a by {
          UpdatedElse(mended, states[n], requests[n], states[n + 1], user);
        }
      }
    }
  }

  lemma UpdatedOne(mended: bool, a: Twins, r: Request, b: Twins)
    requires Updated(mended, a, r, b)
    ensures Updates(mended, TwinIn(a, r.user), r.rules, TwinIn(b, r.user))
  {
  }

  lemma UpdatedElse(mended: bool, a: Twins, r: Request, b: Twins, user: string)
    requires Updated(mended, a, r, b) && user != r.user
    ensures TwinIn(b, user) == TwinIn(a, user)
  {
  }

  /** As written a user's mirror never gets shorter, and the chain never goes away. */
  lemma {:induction false} MirrorNeverShrinks(
    states: seq<Twins>, requests: seq<Request>, user: string, i: nat, j: nat)
    requires IsRun(false, states, requests) && i <= j <= |requests| && user in states[i]
    ensures user in states[j] && |states[i][user].mirror| <= |states[j][user].mirror|
    decreases j
  {
    hide Rewritten;
    if i < j {
      MirrorNeverShrinks(states, requests, user, i, j - 1);
      var a, r, b := states[j - 1], requests[j - 1], states[j - 1 + 1];
      assert Updated(false, a, r, b);
      assert TwinIn(a, user) == Some(a[user]);
      if r.user == user && TwinIn(b, user) != TwinIn(a, user) {
        var rules := Elements(a[user].mirror) + Elements(a[user].chain) + Elements(r.rules);
        RewrittenWithin(a[user], Elements(r.rules), b[user], rules);
      } else {
        assert TwinIn(b, user) == TwinIn(a, user);
      }
    }
  }

  /** The shortest run that fails as written: grant one rule, then none. The rule stays. */
  lemma WithdrawnRuleStays(states: seq<Twins>, user: string, rule: ChainRule)
    requires IsRun(false, states, [Request(user, [rule]), Request(user, [])])
    ensures GrantOf(states[1], user) == {rule} == GrantOf(states[2], user)
    ensures Latest([Request(user, [rule]), Request(user, [])], user) == {}
  {
    hide Rewritten;
    var requests := [Request(user, [rule]), Request(user, [])];
    assert Elements([rule]) == {rule} && rule in {rule};
    assert Updated(false, states[0], requests[0], states[1]);
    assert Updated(false, states[1], requests[1], states[2]);
    assert Exactly(states[1][user], {rule});
    SyncedUpdateIff(false, TwinIn(states[1], user), [], TwinIn(states[2], user));
    NothingNeverAsked(false, states, requests, user);
    EverTwice(requests, user, rule);
  }

  lemma EverTwice(requests: seq<Request>, user: string, rule: ChainRule)
    requires requests == [Request(user, [rule]), Request(user, [])]
    ensures Ever(requests, user) == {rule} && Latest(requests, user) == {}
  {
    assert requests[..1] == [Request(user, [rule])] && requests[..1][..0] == [];
    assert Ever([], user) == {};
    assert Ever(requests[..1], user) == Elements([rule]);
  }

  // Three rules, added one by one; then the middle one alone, twice.
  function MiddleKept(user: string, a: ChainRule, b: ChainRule, c: ChainRule): seq<Request> {
    [Request(user, [a]), Request(user, [a, b]), Request(user, [a, b, c]), Request(user, [b]), Request(user, [b])]
  }

  /**
   As written a rule can be lost that every later request asks for, while a withdrawn one stays: after these
   five requests the chain holds the third rule and not the second.
   */
  lemma WantedRuleLost(states: seq<Twins>, user: string, a: ChainRule, b: ChainRule, c: ChainRule)
    requires a != b && b != c && a != c && IsRun(false, states, MiddleKept(user, a, b, c))
    ensures GrantOf(states[5], user) == {c}
    ensures Latest(MiddleKept(user, a, b, c), user) == {b}
    ensures forall k | 1 <= k < 5 :: b in MiddleKept(user, a, b, c)[k].rules
  {
    hide Updates, Latest, Elements;
    var requests := MiddleKept(user, a, b, c);
    assert forall k | 0 <= k < 5 :: Updated(false, states[k], requests[k], states[k + 1]);
    LatestNext(requests, 4, user);
    assert requests[..5] == requests;
    ThreeAdded(TwinIn(states[1], user), TwinIn(states[2], user), TwinIn(states[3], user), a, b, c);
    MiddleWanted(states[3][user], a, b, c, TwinIn(states[4], user));
    MiddleWantedAgain(states[4][user], a, b, c, TwinIn(states[5], user));
    OneElement(b);
    OneElement(c);
  }

  lemma RunNext(mended: bool, states: seq<Twins>, requests: seq<Request>, k: nat, next: Twins)
    requires k < |requests| && IsRun(mended, states, requests[..k]) && Updated(mended, states[k], requests[k], next)
    ensures IsRun(mended, states + [next], requests[..k + 1])
  {
    hide Updated;
    forall i | 0 <= i <= k
      ensures Updated(mended, (states + [next])[i], requests[i], (states + [next])[i + 1])
    {
      assert i < k ==> Updated(mended, states[i], requests[..k][i], states[i + 1]);
    }
  }

  lemma TwinsMean(fw: Firewall)
    requires forall user :: fw.Matched(user)
    ensures forall user :: TwinIn(fw.Twins(), user) == fw.TwinOf(user)
    ensures forall user :: GrantOf(fw.Twins(), user) == fw.RuleSet(user)
    ensures AllSynced(fw.Twins()) <==> forall user :: fw.InSync(user)
  {
    forall user
      ensures user in fw.Twins() <==> user in fw.mirror
      ensures user in fw.Twins() ==> fw.Twins()[user] == Twin(fw.mirror[user], fw.tables.userChains[user])
    {
      assert fw.Matched(user);
    }
    forall user
      ensures fw.InSync(user) <==> (user in fw.Twins() ==> Synced(fw.Twins()[user]))
    {
      assert fw.Matched(user);
    }
  }

  // One request of a run, by value.
  method UpdateNext(fw: Firewall, request: Request)
    requires forall user :: fw.Matched(user)
    requires fw.mended ==> forall user :: fw.InSync(user)
    modifies fw`mirror, fw.tables`userChains
    ensures forall user :: fw.Matched(user)
    ensures fw.mended ==> forall user :: fw.InSync(user)
    ensures Updated(fw.mended, old(fw.Twins()), request, fw.Twins())
  {
    hide Updates, Distinct;
    TwinsMean(fw);
    var _ := fw.UpdateUser(request.user, Some(request.rules));
    forall user
      ensures fw.Matched(user)
      ensures fw.mended ==> fw.InSync(user)
      ensures user != request.user ==> fw.TwinOf(user) == old(fw.TwinOf(user))
    {
      assert old(fw.Matched(user)) && (fw.mended ==> old(fw.InSync(user)));
    }
    TwinsMean(fw);
  }

  /** UpdateUser, once for each request, on a new firewall: a run in the sense above, whatever is asked for. */
  method RunUpdates(requests: seq<Request>, mended: bool) returns (fw: Firewall, ghost states: seq<Twins>)
    ensures fresh(fw) && fw.mended == mended
    ensures IsRun(mended, states, requests) && states[|requests|] == fw.Twins()
    ensures forall user :: GrantOf(fw.Twins(), user) == fw.RuleSet(user)
    ensures mended || Grows(requests) ==> Faithful(fw, requests)
  {
    hide Grows, Latest, Updated, Firewall.InSync, Firewall.Matched, Firewall.TwinOf, Firewall.RuleSet;
    fw := new Firewall(mended);
    NewFirewall(fw);
    states := [map[]];
    for k := 0 to |requests|
      invariant fresh(fw) && fresh(fw.tables) && fw.mended == mended
      invariant forall user :: fw.Matched(user)
      invariant fw.mended ==> forall user :: fw.InSync(user)
      invariant IsRun(mended, states, requests[..k]) && states[k] == fw.Twins()
    {
      UpdateNext(fw, requests[k]);
      RunNext(mended, states, requests, k, fw.Twins());
      states := states + [fw.Twins()];
    }
    assert requests[..|requests|] == requests;
    TwinsMean(fw);
    AlwaysAsAskedIffGrows(mended, states, requests);
    if mended || Grows(requests) {
      assert AsAsked(states[|requests|], requests);
    }
  }

  lemma NewFirewall(fw: Firewall)
    requires fw.mirror == map[] && fw.tables.userChains == map[]
    ensures fw.Twins() == map[] && forall user :: fw.Matched(user) && fw.InSync(user)
  {
  }

  // Replacing the first stale rule by a new one leaves the later stale positions as they were.
  lemma ReplaceStep(current: seq<ChainRule>, stale: seq<nat>, requested: set<ChainRule>, entry: ChainRule)
    requires Distinct(current) && stale != [] && IsStaleList(stale, current, |current|, requested)
    requires entry in requested && entry !in Elements(current)
    ensures var next := current[stale[0] := entry];
      && Distinct(next) && IsStaleList(stale[1..], next, |next|, requested)
      && requested - Elements(next) == requested - Elements(current) - {entry}
  {
    var at := stale[0];
    var next := current[at := entry];
    assert current[at] !in requested;
    forall p | 0 <= p < |next|
      ensures p in stale[1..] <==> next[p] !in requested
    {
    }
    forall r | r in requested && r != entry
      ensures r in next <==> r in current
    {
      if r in current {
        var p :| 0 <= p < |current| && current[p] == r;
        assert next[p] == r;
      }
    }
    assert next[at] == entry;
  }

  lemma AppendStep(current: seq<ChainRule>, requested: set<ChainRule>, entry: ChainRule)
    requires Distinct(current) && IsStaleList([], current, |current|, requested)
    requires entry in requested && entry !in Elements(current)
    ensures var next := current + [entry];
      && Distinct(next) && IsStaleList([], next, |next|, requested)
      && requested - Elements(next) == requested - Elements(current) - {entry}
  {
    ElementsAppend(current, entry);
  }

  lemma WithoutKeeps(current: seq<ChainRule>, at: nat, requested: set<ChainRule>)
    requires at < |current| && current[at] !in requested && requested <= Elements(current)
    ensures requested <= Elements(Without(current, at))
  {
    forall r | r in requested
      ensures r in Without(current, at)
    {
      var p :| 0 <= p < |current| && current[p] == r;
      assert Without(current, at)[if p < at then p else p - 1] == r;
    }
  }

  lemma WithoutStale(current: seq<ChainRule>, stale: seq<nat>, requested: set<ChainRule>)
    requires stale != [] && IsStaleList(stale, current, |current|, requested)
    ensures var at := stale[|stale| - 1];
      at < |current| && current[at] !in requested
      && IsStaleList(stale[..|stale| - 1], Without(current, at), |current| - 1, requested)
  {
    var at := stale[|stale| - 1];
    var next := Without(current, at);
    var less := stale[..|stale| - 1];
    assert at in stale;
    forall p | 0 <= p < |next|
      ensures p in less <==> next[p] !in requested
    {
      if p < at {
        assert next[p] == current[p];
        assert p in stale <==> p in less;
      } else {
        assert next[p] == current[p + 1];
        assert p + 1 !in stale && p !in less;
      }
    }
  }

  // Deleting at the last stale position leaves the earlier stale positions as they were.
  lemma DeleteStep(current: seq<ChainRule>, stale: seq<nat>, requested: set<ChainRule>)
    requires Distinct(current) && stale != [] && IsStaleList(stale, current, |current|, requested)
    requires requested <= Elements(current)
    ensures stale[|stale| - 1] < |current|
    ensures var next := Without(current, stale[|stale| - 1]);
      && Distinct(next) && IsStaleList(stale[..|stale| - 1], next, |next|, requested)
      && requested <= Elements(next)
  {
    hide Distinct, Elements, IsStaleList;
    WithoutStale(current, stale, requested);
    WithoutDistinct(current, stale[|stale| - 1]);
    WithoutKeeps(current, stale[|stale| - 1], requested);
  }

  lemma StaleList(current: seq<ChainRule>, upTo: nat, requested: set<ChainRule>)
    requires Distinct(current) && upTo <= |current|
    ensures IsStaleList(StaleIn(current, upTo, requested), current, upTo, requested)
  {
    forall p | 0 <= p < upTo
      ensures p in StaleIn(current, upTo, requested) <==> current[p] !in requested
    {
      StaleMeans(current, upTo, requested, p);
      assert current[p] !in current[..p];
    }
  }

  lemma NoneStale(start: seq<ChainRule>, requested: set<ChainRule>)
    requires IsStaleList([], start, |start|, requested)
    ensures Elements(start) <= requested
  {
    forall x | x in start
      ensures x in requested
    {
      var p :| 0 <= p < |start| && start[p] == x;
      var none: seq<nat> := [];
      assert p !in none;
    }
  }
}
