/** The updates of the key cache as turns of a run: one user's, and those of all members. */
module KeyService {
  import opened Wrappers
  import opened Sequences
  import opened CertTables
  import opened CertRecord
  import opened KeyIndex
  import opened KeyRuns
  import K = Keys

  ghost function SystemOf(m: K.UserManager): System
    reads m`users, m`index, m.users.Values
  {
    System(m.Cache().byId, m.index)
  }

  /**
   One user's update is a turn: complete unless a key cannot be fetched. It stops the server exactly where
   its calls do, which a listing that respects the state never does.
   */
  method Refresh(
    m: K.UserManager, user: string, keys: seq<string>, answerOf: string -> K.KeyAnswer, least: nat,
    ghost extra: multiset<Entry>)
    returns (outcome: K.Outcome, ghost turn: Turn)
    requires m.Valid() && Sound(m.index) && keys != []
    modifies m`users, m`index, m.users.Values
    ensures m.Valid() && Sound(m.index)
    ensures outcome.Failed? <==> !K.Fetchable(Some(keys), K.KnownOf(old(m.Cache()).byId, user), answerOf)
    ensures turn.listing == Listing(user, Elements(keys), answerOf, least) && (turn.complete <==> !outcome.Failed?)
    ensures RoundOf(turn.round, old(SystemOf(m)).tables, turn.listing, turn.complete)
    ensures outcome.Stopped? <==> K.Reached(m.naming, m.mended, old(m.index), K.CallsIn(turn.round)).None?
    ensures !outcome.Stopped? ==> Takes(m.naming, m.mended, old(SystemOf(m)), turn, SystemOf(m))
    ensures old(InStep(SystemOf(m), m.naming, extra)) && Respects(old(SystemOf(m)).tables, turn.listing) ==>
      !outcome.Stopped?
  {
    hide *;
    ghost var a := SystemOf(m);
    ghost var l := Listing(user, Elements(keys), answerOf, least);
    SystemMeans(m);
    m.CacheMeans();
    ghost var round;
    outcome, round := m.UpdateUserKeys(user, keys, answerOf, least);
    turn := Turn(l, round, !outcome.Failed?);
    SystemMeans(m);
    m.CacheMeans();
    K.OneChanged(a.tables, m.Cache().byId, user, outcome.Failed?);
    if !outcome.Failed? {
      CurrentMeans(a.tables, m.Cache().byId, user, l, old(m.HashesOf(user)), m.HashesOf(user));
    }
    TurnMeans(m.naming, m.mended, a, turn, SystemOf(m));
    if InStep(a, m.naming, extra) && Respects(a.tables, l) {
      if turn.complete {
        TurnInStep(a, m.naming, m.mended, extra, l, round);
      } else {
        BrokenTurnInStep(a, m.naming, m.mended, extra, l, round);
      }
    }
  }

  lemma SystemMeans(m: K.UserManager)
    ensures SystemOf(m).tables == m.Cache().byId && SystemOf(m).index == m.index
  {
  }

  lemma CurrentMeans(
    before: Tables, after: Tables, user: string, l: Listing, hashes: K.Table, hashes': K.Table)
    requires user in after
    requires K.Current(K.KnownOf(before, user), hashes, l.keyIds, l.answerOf, l.least, K.KnownOf(after, user), hashes')
    ensures after[user] == K.Updated(K.KnownOf(before, user), l.keyIds, l.answerOf, l.least)
  {
  }

  lemma TurnMeans(n: K.Naming, mended: bool, a: System, t: Turn, b: System)
    requires Sound(a.index)
    ensures RoundOf(t.round, a.tables, t.listing, t.complete) <==>
      t.round.user == t.listing.user && K.RoundFor(t.round, K.KnownOf(a.tables, t.listing.user), t.listing.keyIds,
        t.listing.answerOf, t.listing.least, t.complete)
    ensures Takes(n, mended, a, t, b) <==>
      && RoundOf(t.round, a.tables, t.listing, t.complete)
      && K.Reached(n, mended, a.index, K.CallsIn(t.round)) == Some(b.index)
      && b.tables == if t.complete
           then a.tables[t.listing.user := K.Updated(K.KnownOf(a.tables, t.listing.user), t.listing.keyIds,
             t.listing.answerOf, t.listing.least)]
           else a.tables
  {
  }

  // The tables after some turns.
  function TablesOf(tables: Tables, turns: seq<Turn>): Tables {
    if turns == [] then tables else TablesAfter(TablesOf(tables, turns[..|turns| - 1]), turns[|turns| - 1])
  }

  // Turns of different users, each with the round its listing asks for in the tables at the start.
  ghost predicate Apart(tables: Tables, turns: seq<Turn>) {
    && (forall i, j | 0 <= i < j < |turns| :: turns[i].listing.user != turns[j].listing.user)
    && forall i | 0 <= i < |turns| :: RoundOf(turns[i].round, tables, turns[i].listing, turns[i].complete)
  }

  // Listings that respect the tables at the start and each other.
  ghost predicate Compatible(tables: Tables, turns: seq<Turn>) {
    && (forall i | 0 <= i < |turns| :: Respects(tables, turns[i].listing))
    && forall i, j | 0 <= i < j < |turns| :: turns[i].listing.keyIds !! turns[j].listing.keyIds
  }

  // Each user's keys after the turns: those listed in a turn that was carried through, else those at the start.
  lemma {:induction false} KnownAfter(tables: Tables, turns: seq<Turn>, user: string)
    requires forall i, j | 0 <= i < j < |turns| :: turns[i].listing.user != turns[j].listing.user
    ensures user in TablesOf(tables, turns) <==>
      user in tables || exists t :: t in turns && t.complete && t.listing.user == user
    ensures (forall t | t in turns :: t.complete ==> t.listing.user != user) ==>
      K.KnownOf(TablesOf(tables, turns), user) == K.KnownOf(tables, user)
    ensures forall t | t in turns && t.complete && t.listing.user == user ::
      K.KnownOf(TablesOf(tables, turns), user) ==
        K.Updated(K.KnownOf(tables, user), t.listing.keyIds, t.listing.answerOf, t.listing.least)
  {
    hide K.Updated;
    if turns != [] {
      var most, last := turns[..|turns| - 1], turns[|turns| - 1];
      assert forall t :: t in turns <==> t in most || t == last;
      KnownAfter(tables, most, user);
      if last.listing.user == user {
        assert forall t | t in most :: t.listing.user != user;
      }
    }
  }

  lemma StillRespects(tables: Tables, turns: seq<Turn>, l: Listing)
    requires forall i, j | 0 <= i < j < |turns| :: turns[i].listing.user != turns[j].listing.user
    requires Respects(tables, l)
    requires forall t | t in turns :: t.listing.user != l.user && t.listing.keyIds !! l.keyIds
    ensures Respects(TablesOf(tables, turns), l)
  {
    hide TablesOf, K.Updated;
    var after := TablesOf(tables, turns);
    KnownAfter(tables, turns, l.user);
    forall u, id | u in after && u != l.user && id in after[u]
      ensures id !in l.keyIds
    {
      KnownAfter(tables, turns, u);
      if t :| t in turns && t.complete && t.listing.user == u {
        assert K.KnownOf(after, u).Keys == t.listing.keyIds;
      } else {
        assert K.KnownOf(after, u) == K.KnownOf(tables, u);
      }
    }
  }

  lemma NoTurns(s: System)
    ensures AllRespect([s], [])
  {
  }

  lemma ApartPrefix(tables: Tables, turns: seq<Turn>)
    requires Apart(tables, turns) && turns != []
    ensures var most, last := turns[..|turns| - 1], turns[|turns| - 1];
      && Apart(tables, most) && RoundOf(last.round, tables, last.listing, last.complete)
      && (forall i, j | 0 <= i < j < |most| :: most[i].listing.user != most[j].listing.user)
      && (forall t | t in most :: t.listing.user != last.listing.user)
      && (Compatible(tables, turns) ==>
            Compatible(tables, most) && Respects(tables, last.listing)
            && forall t | t in most :: t.listing.keyIds !! last.listing.keyIds)
  {
    hide RoundOf, Respects;
  }

  /**
   Turns of different users, one after the other in any order, are a run, as long as none stops the server;
   and from a state in step none does if the listings respect it and each other.
   */
  lemma {:induction false} ApartIsRun(n: K.Naming, mended: bool, s: System, turns: seq<Turn>, extra: multiset<Entry>)
    returns (states: seq<System>)
    requires Sound(s.index) && Apart(s.tables, turns)
    requires
      || K.Reached(n, mended, s.index, CallsOfTurns(turns)).Some?
      || (InStep(s, n, extra) && Compatible(s.tables, turns))
    ensures IsRun(n, mended, states, turns) && states[0] == s
    ensures K.Reached(n, mended, s.index, CallsOfTurns(turns)) == Some(states[|turns|].index)
    ensures states[|turns|].tables == TablesOf(s.tables, turns)
    ensures Compatible(s.tables, turns) ==> AllRespect(states, turns)
  {
    hide Sound, InStep, K.Reached, RoundOf, Respects, TablesAfter, Apart, Compatible, AllRespect;
    if turns == [] {
      NoTurns(s);
      states := [s];
      K.ReachedNone(n, mended, s.index);
    } else {
      var k := |turns| - 1;
      var most, last := turns[..k], turns[k];
      K.ReachedConcat(n, mended, s.index, CallsOfTurns(most), K.CallsIn(last.round));
      ApartPrefix(s.tables, turns);
      states := ApartIsRun(n, mended, s, most, extra);
      var now := states[k];
      SameKnown(s.tables, most, last);
      SameRound(s.tables, now.tables, last);
      if Compatible(s.tables, turns) {
        StillRespects(s.tables, most, last.listing);
        if InStep(s, n, extra) {
          NextDoesNotStop(n, mended, states, most, extra, last);
        }
      }
      var next := System(TablesAfter(now.tables, last), K.Reached(n, mended, now.index, K.CallsIn(last.round)).value);
      OneTurnMore(n, mended, states, most, last, next);
      assert most + [last] == turns;
      states := states + [next];
    }
  }

  lemma SameKnown(tables: Tables, turns: seq<Turn>, last: Turn)
    requires forall i, j | 0 <= i < j < |turns| :: turns[i].listing.user != turns[j].listing.user
    requires forall t | t in turns :: t.listing.user != last.listing.user
    ensures K.KnownOf(TablesOf(tables, turns), last.listing.user) == K.KnownOf(tables, last.listing.user)
  {
    KnownAfter(tables, turns, last.listing.user);
  }

  lemma SameRound(a: Tables, b: Tables, t: Turn)
    requires K.KnownOf(a, t.listing.user) == K.KnownOf(b, t.listing.user)
    ensures RoundOf(t.round, a, t.listing, t.complete) <==> RoundOf(t.round, b, t.listing, t.complete)
  {
  }

  lemma OneTurnMore(
    n: K.Naming, mended: bool, states: seq<System>, turns: seq<Turn>, t: Turn, next: System)
    requires IsRun(n, mended, states, turns) && Sound(next.index) && Takes(n, mended, states[|turns|], t, next)
    ensures IsRun(n, mended, states + [next], turns + [t])
    ensures AllRespect(states, turns) && Respects(states[|turns|].tables, t.listing) ==>
      AllRespect(states + [next], turns + [t])
  {
    hide Takes, Sound, Respects;
    forall i | 0 <= i < |turns| + 1
      ensures Takes(n, mended, (states + [next])[i], (turns + [t])[i], (states + [next])[i + 1])
    {
      if i < |turns| {
        assert Takes(n, mended, states[i], turns[i], states[i + 1]);
      }
    }
    forall i | 0 <= i < |turns| && AllRespect(states, turns)
      ensures Respects((states + [next])[i].tables, (turns + [t])[i].listing)
    {
      assert Respects(states[i].tables, turns[i].listing);
    }
  }

  // What one member's turn was asked for.
  function ListingFor(
    user: string, fetchKeys: string -> Option<seq<string>>, answerOf: string -> string -> K.KeyAnswer,
    least: nat): Listing
  {
    var keys := fetchKeys(user);
    Listing(user, if keys.Some? then Elements(keys.value) else {}, answerOf(user), least)
  }

  function TurnsOf(
    rounds: seq<K.Round>, fetchKeys: string -> Option<seq<string>>, answerOf: string -> string -> K.KeyAnswer,
    least: nat, broken: Option<string>): (turns: seq<Turn>)
    ensures |turns| == |rounds|
    ensures forall i | 0 <= i < |rounds| :: turns[i].round == rounds[i]
    ensures forall i | 0 <= i < |rounds| ::
      turns[i].listing == ListingFor(rounds[i].user, fetchKeys, answerOf, least)
      && turns[i].complete == (broken != Some(rounds[i].user))
  {
    seq(|rounds|, i requires 0 <= i < |rounds| =>
      Turn(ListingFor(rounds[i].user, fetchKeys, answerOf, least), rounds[i], broken != Some(rounds[i].user)))
  }

  lemma {:induction false} CallsAgree(rounds: seq<K.Round>, turns: seq<Turn>)
    requires |turns| == |rounds| && forall i | 0 <= i < |rounds| :: turns[i].round == rounds[i]
    ensures CallsOfTurns(turns) == K.CallsOf(rounds)
  {
    if rounds != [] {
      CallsAgree(rounds[..|rounds| - 1], turns[..|turns| - 1]);
    }
  }

  lemma RoundsApart(
    rounds: seq<K.Round>, tables: Tables, fetchKeys: string -> Option<seq<string>>,
    answerOf: string -> string -> K.KeyAnswer, least: nat, broken: Option<string>)
    requires K.RoundsMeet(rounds, tables, fetchKeys, answerOf, least, broken)
    ensures Apart(tables, TurnsOf(rounds, fetchKeys, answerOf, least, broken))
    ensures forall r | r in rounds :: K.Listed(fetchKeys(r.user))
  {
    hide K.RoundFor, TurnsOf;
    var turns := TurnsOf(rounds, fetchKeys, answerOf, least, broken);
    forall i | 0 <= i < |turns|
      ensures RoundOf(turns[i].round, tables, turns[i].listing, turns[i].complete)
    {
      assert rounds[i] in rounds;
    }
  }

  lemma BroughtTables(
    a: K.Cached, rounds: seq<K.Round>, fetchKeys: string -> Option<seq<string>>,
    answerOf: string -> string -> K.KeyAnswer, least: nat, broken: Option<string>, brought: map<string, set<string>>,
    b: K.Cached)
    requires K.RoundsMeet(rounds, a.byId, fetchKeys, answerOf, least, broken)
    requires K.AllBrought(a, brought, answerOf, least, b) && brought == K.ListedKeys(brought.Keys, fetchKeys)
    requires brought.Keys == K.UsersOf(rounds) - if broken.Some? then {broken.value} else {}
    ensures TablesOf(a.byId, TurnsOf(rounds, fetchKeys, answerOf, least, broken)) == b.byId
  {
    hide K.RoundFor, K.Updated, TurnsOf, TablesOf, K.RoundMeets;
    var turns := TurnsOf(rounds, fetchKeys, answerOf, least, broken);
    var after := TablesOf(a.byId, turns);
    K.ListedMeans(brought.Keys, fetchKeys);
    forall u
      ensures u in after <==> u in b.byId
      ensures K.KnownOf(after, u) == K.KnownOf(b.byId, u)
    {
      KnownAfter(a.byId, turns, u);
      BroughtOne(a, rounds, fetchKeys, answerOf, least, broken, brought, b, turns, u);
    }
    assert forall u | u in after :: after[u] == K.KnownOf(after, u) && b.byId[u] == K.KnownOf(b.byId, u);
  }

  lemma BroughtOne(
    a: K.Cached, rounds: seq<K.Round>, fetchKeys: string -> Option<seq<string>>,
    answerOf: string -> string -> K.KeyAnswer, least: nat, broken: Option<string>, brought: map<string, set<string>>,
    b: K.Cached, turns: seq<Turn>, u: string)
    requires K.AllBrought(a, brought, answerOf, least, b)
    requires forall v | v in brought :: fetchKeys(v).Some? && brought[v] == Elements(fetchKeys(v).value)
    requires brought.Keys == K.UsersOf(rounds) - if broken.Some? then {broken.value} else {}
    requires turns == TurnsOf(rounds, fetchKeys, answerOf, least, broken)
    ensures u in brought <==> exists t :: t in turns && t.complete && t.listing.user == u
    ensures u in b.byId <==> u in a.byId || u in brought
    ensures u !in brought ==> K.KnownOf(b.byId, u) == K.KnownOf(a.byId, u)
    ensures forall t | t in turns && t.complete && t.listing.user == u ::
      K.KnownOf(b.byId, u) ==
        K.Updated(K.KnownOf(a.byId, u), t.listing.keyIds, t.listing.answerOf, t.listing.least)
  {
    hide K.Updated, TurnsOf;
    assert K.UserBrought(a, u, K.ListingOf(brought, u), answerOf, least, b);
    if u in brought {
      var r :| r in rounds && r.user == u;
      var i :| 0 <= i < |rounds| && rounds[i] == r;
      assert turns[i] in turns && turns[i].complete && turns[i].listing.user == u;
    }
    forall t | t in turns && t.complete && t.listing.user == u
      ensures u in brought && t.listing == ListingFor(u, fetchKeys, answerOf, least)
    {
      var i :| 0 <= i < |turns| && turns[i] == t;
      assert rounds[i] in rounds;
    }
  }

  /**
   The update of all members is a run of turns in some order, one for each member with listed keys, the last
   of them broken off if a key cannot be fetched. From a state in step, where the listings respect it and
   each other, it does not stop the server and ends in step: besides the certificates of the accepted keys
   on record there are those that were extra before and those that the turn broken off has made.
   */
  method RefreshAll(
    m: K.UserManager, members: set<string>, fetchKeys: string -> Option<seq<string>>,
    answerOf: string -> string -> K.KeyAnswer, least: nat, ghost extra: multiset<Entry>)
    returns (
      outcome: K.Outcome, ghost culprit: string, ghost states: seq<System>, ghost turns: seq<Turn>)
    requires m.Valid() && Sound(m.index)
    modifies m`users, m`index, m.users.Values
    ensures m.Valid() && Sound(m.index)
    ensures outcome.Failed? ==>
      culprit in members
      && !K.Fetchable(fetchKeys(culprit), K.KnownOf(old(m.Cache()).byId, culprit), answerOf(culprit))
    ensures outcome.Done? ==>
      forall u | u in members :: K.Fetchable(fetchKeys(u), K.KnownOf(old(m.Cache()).byId, u), answerOf(u))
    ensures Apart(old(SystemOf(m)).tables, turns)
    ensures forall t | t in turns :: t.listing.user in members
    ensures forall t | t in turns :: t.listing == ListingFor(t.listing.user, fetchKeys, answerOf, least)
    ensures forall t | t in turns :: t.complete <==> !(outcome.Failed? && t.listing.user == culprit)
    ensures outcome.Done? ==> forall u | u in members && K.Listed(fetchKeys(u)) ::
      exists t :: t in turns && t.listing.user == u
    ensures outcome.Stopped? <==> K.Reached(m.naming, m.mended, old(m.index), CallsOfTurns(turns)).None?
    ensures !outcome.Stopped? ==>
      IsRun(m.naming, m.mended, states, turns)
      && states[0] == old(SystemOf(m)) && states[|turns|] == SystemOf(m)
    ensures old(InStep(SystemOf(m), m.naming, extra)) && Compatible(old(SystemOf(m)).tables, turns) ==>
      !outcome.Stopped? && InStep(SystemOf(m), m.naming, extra + Left(m.naming, turns))
  {
    hide *;
    SystemMeans(m);
    states := [];
    ghost var a, start := SystemOf(m), m.Cache();
    var configs;
    ghost var rounds, brought;
    outcome, configs, culprit, rounds, brought := m.UpdateKeys(members, fetchKeys, answerOf, least);
    SystemMeans(m);
    ghost var broken := if outcome.Failed? then Some(culprit) else None;
    turns := TurnsOf(rounds, fetchKeys, answerOf, least, broken);
    RoundsApart(rounds, start.byId, fetchKeys, answerOf, least, broken);
    BroughtTables(start, rounds, fetchKeys, answerOf, least, broken, brought, m.Cache());
    CallsAgree(rounds, turns);
    FollowsMeans(m.naming, m.mended, a.index, rounds, outcome, m.index);
    TurnUsers(rounds, turns, members, fetchKeys, answerOf, least, outcome, culprit, configs);
    if !outcome.Stopped? || (InStep(a, m.naming, extra) && Compatible(a.tables, turns)) {
      states := ApartIsRun(m.naming, m.mended, a, turns, extra);
      if InStep(a, m.naming, extra) && Compatible(a.tables, turns) {
        RunInStep(m.naming, m.mended, states, turns, extra);
      }
    }
  }

  lemma FollowsMeans(n: K.Naming, mended: bool, x: Index, rounds: seq<K.Round>, outcome: K.Outcome, y: Index)
    requires Sound(x) && K.Follows(n, mended, x, rounds, outcome, y)
    ensures outcome.Stopped? <==> K.Reached(n, mended, x, K.CallsOf(rounds)).None?
    ensures !outcome.Stopped? ==> K.Reached(n, mended, x, K.CallsOf(rounds)) == Some(y)
  {
  }

  lemma TurnUsers(
    rounds: seq<K.Round>, turns: seq<Turn>, members: set<string>, fetchKeys: string -> Option<seq<string>>,
    answerOf: string -> string -> K.KeyAnswer, least: nat, outcome: K.Outcome, culprit: string,
    configs: map<string, set<string>>)
    requires K.UsersOf(rounds) <= members
    requires turns == TurnsOf(rounds, fetchKeys, answerOf, least, if outcome.Failed? then Some(culprit) else None)
    requires outcome.Done? ==> configs.Keys == K.UsersOf(rounds) && configs == K.ListedKeys(members, fetchKeys)
    ensures forall t | t in turns :: t.listing.user in members
    ensures forall t | t in turns :: t.listing == ListingFor(t.listing.user, fetchKeys, answerOf, least)
    ensures forall t | t in turns :: t.complete <==> !(outcome.Failed? && t.listing.user == culprit)
    ensures outcome.Done? ==> forall u | u in members && K.Listed(fetchKeys(u)) ::
      exists t :: t in turns && t.listing.user == u
  {
    hide Elements, TurnsOf;
    forall t | t in turns
      ensures t.listing.user in members && t.listing == ListingFor(t.listing.user, fetchKeys, answerOf, least)
      ensures t.complete <==> !(outcome.Failed? && t.listing.user == culprit)
    {
      var i :| 0 <= i < |turns| && turns[i] == t;
      assert rounds[i] in rounds && rounds[i].user in K.UsersOf(rounds);
    }
    forall u | outcome.Done? && u in members && K.Listed(fetchKeys(u))
      ensures exists t :: t in turns && t.listing.user == u
    {
      assert u in configs;
      var r :| r in rounds && r.user == u;
      var i :| 0 <= i < |rounds| && rounds[i] == r;
      assert turns[i] in turns;
    }
  }
}
