/**
 The two tables of every user over a run of updates from an empty cache on: to what key a hash leads, and
 for whom a login gets through.
 */
module KeyHistory {
  import opened Wrappers
  import opened Sequences
  import opened Policy
  import opened Membership
  import C = CertTables
  import Iptables
  import K = Keys

  // What an update has brought: the ids listed for each user reached, and what was said about new ones.
  datatype Update = Update(listed: map<string, set<string>>, answerOf: string -> string -> K.KeyAnswer, least: nat)

  ghost predicate Takes(a: K.Cached, u: Update, b: K.Cached) {
    K.AllBrought(a, u.listed, u.answerOf, u.least, b)
  }

  // The caches before, between and after the updates.
  ghost predicate IsHistory(caches: seq<K.Cached>, updates: seq<Update>) {
    && |caches| == |updates| + 1 && caches[0] == K.Cached(map[], map[])
    && forall k | 0 <= k < |updates| :: Takes(caches[k], updates[k], caches[k + 1])
  }

  ghost predicate AllLead(c: K.Cached) {
    forall u :: K.Leads(K.KnownOf(c.byId, u), K.KnownOf(c.byHash, u))
  }

  ghost predicate AllInverse(c: K.Cached) {
    forall u :: K.Inverse(K.KnownOf(c.byId, u), K.KnownOf(c.byHash, u))
  }

  ghost predicate AllDistinct(c: K.Cached) {
    forall u :: K.DistinctHashes(K.KnownOf(c.byId, u))
  }

  // No key that stays loses its hash to one that goes.
  ghost predicate KeepsHashes(c: K.Cached, u: Update) {
    forall user | user in u.listed ::
      KeepsHashesOf(K.KnownOf(c.byId, user), u.listed[user], u.answerOf(user), u.least)
  }

  ghost predicate KeepsHashesOf(known: K.Table, keyIds: set<string>, answerOf: string -> K.KeyAnswer, least: nat) {
    forall k | k in K.Kept(known, keyIds) && known[k] != "" ::
      known[k] in K.DroppedHashes(known, keyIds) ==> known[k] in K.NewKeys(known, keyIds, answerOf, least).Values
  }

  lemma UserLeads(a: K.Cached, u: Update, b: K.Cached, user: string)
    requires AllLead(a) && Takes(a, u, b)
    ensures K.Leads(K.KnownOf(b.byId, user), K.KnownOf(b.byHash, user))
  {
    hide K.Leads, K.Overwritten, K.NewKeys, K.Kept, K.DroppedHashes;
    assert K.UserBrought(a, user, K.ListingOf(u.listed, user), u.answerOf, u.least, b);
    assert K.Leads(K.KnownOf(a.byId, user), K.KnownOf(a.byHash, user));
    if user in u.listed {
      K.LeadsKept(K.KnownOf(a.byId, user), K.KnownOf(a.byHash, user), u.listed[user],
        K.NewKeys(K.KnownOf(a.byId, user), u.listed[user], u.answerOf(user), u.least), K.KnownOf(b.byHash, user));
    }
  }

  /** Over any run of updates, whatever a hash leads to is a recorded key that has it. */
  lemma {:induction false} HistoryLeads(caches: seq<K.Cached>, updates: seq<Update>, k: nat)
    requires IsHistory(caches, updates) && k <= |updates|
    ensures AllLead(caches[k])
  {
    hide Takes;
    if k == 0 {
      K.NothingLeads();
    } else {
      HistoryLeads(caches, updates, k - 1);
      forall user
        ensures K.Leads(K.KnownOf(caches[k].byId, user), K.KnownOf(caches[k].byHash, user))
      {
        assert Takes(caches[k - 1], updates[k - 1], caches[k - 1 + 1]);
        UserLeads(caches[k - 1], updates[k - 1], caches[k], user);
      }
    }
  }

  lemma UserInverseIff(a: K.Cached, u: Update, b: K.Cached, user: string)
    requires AllInverse(a) && Takes(a, u, b)
    ensures K.Inverse(K.KnownOf(b.byId, user), K.KnownOf(b.byHash, user)) <==>
      (user in u.listed ==> KeepsHashesOf(K.KnownOf(a.byId, user), u.listed[user], u.answerOf(user), u.least))
  {
    hide K.Inverse, K.Overwritten, K.NewKeys, K.Kept, K.DroppedHashes;
    assert K.UserBrought(a, user, K.ListingOf(u.listed, user), u.answerOf, u.least, b);
    assert K.Inverse(K.KnownOf(a.byId, user), K.KnownOf(a.byHash, user));
    if user in u.listed {
      K.InverseKeptIff(K.KnownOf(a.byId, user), K.KnownOf(a.byHash, user), u.listed[user],
        K.NewKeys(K.KnownOf(a.byId, user), u.listed[user], u.answerOf(user), u.least), K.KnownOf(b.byHash, user));
    }
  }

  lemma UpdateInverseIff(a: K.Cached, u: Update, b: K.Cached)
    requires AllInverse(a) && Takes(a, u, b)
    ensures AllInverse(b) <==> KeepsHashes(a, u)
  {
    hide K.Inverse, Takes, KeepsHashesOf;
    forall user
      ensures K.Inverse(K.KnownOf(b.byId, user), K.KnownOf(b.byHash, user)) <==>
        (user in u.listed ==> KeepsHashesOf(K.KnownOf(a.byId, user), u.listed[user], u.answerOf(user), u.least))
    {
      UserInverseIff(a, u, b, user);
    }
  }

  /**
   Over any run of updates, the two tables of every user are inverse throughout exactly when no update takes
   the hash of a key that stays.
   */
  lemma {:induction false} HistoryInverseIff(caches: seq<K.Cached>, updates: seq<Update>)
    requires IsHistory(caches, updates)
    ensures (forall k | 0 <= k <= |updates| :: AllInverse(caches[k])) <==>
      forall k | 0 <= k < |updates| :: KeepsHashes(caches[k], updates[k])
  {
    hide Takes, AllInverse, KeepsHashes;
    if updates == [] {
      NothingInverse();
    } else {
      var n := |updates| - 1;
      var before, most := caches[..n + 1], updates[..n];
      assert forall k | 0 <= k < n :: Takes(before[k], most[k], before[k + 1]) by {
        assert forall k | 0 <= k < n :: Takes(caches[k], updates[k], caches[k + 1]);
      }
      HistoryInverseIff(before, most);
      assert (forall k | 0 <= k <= n :: AllInverse(before[k])) <==> forall k | 0 <= k <= n :: AllInverse(caches[k]);
      assert (forall k | 0 <= k < n :: KeepsHashes(before[k], most[k])) <==>
        forall k | 0 <= k < n :: KeepsHashes(caches[k], updates[k]);
      if AllInverse(caches[n]) {
        assert Takes(caches[n], updates[n], caches[n + 1]);
        UpdateInverseIff(caches[n], updates[n], caches[n + 1]);
      }
      assert (forall k | 0 <= k <= n + 1 :: AllInverse(caches[k])) <==>
        (forall k | 0 <= k <= n :: AllInverse(caches[k])) && AllInverse(caches[n + 1]);
      assert (forall k | 0 <= k < n + 1 :: KeepsHashes(caches[k], updates[k])) <==>
        (forall k | 0 <= k < n :: KeepsHashes(caches[k], updates[k])) && KeepsHashes(caches[n], updates[n]);
    }
  }

  lemma NothingInverse()
    ensures AllInverse(K.Cached(map[], map[]))
  {
  }

  // Where hashes are distinct, no key has one to lose.
  lemma DistinctKeepsHashes(c: K.Cached, u: Update)
    requires AllDistinct(c)
    ensures KeepsHashes(c, u)
  {
    forall user | user in u.listed
      ensures KeepsHashesOf(K.KnownOf(c.byId, user), u.listed[user], u.answerOf(user), u.least)
    {
      assert K.DistinctHashes(K.KnownOf(c.byId, user));
    }
  }

  /**
   After any run of updates in which no user ever had two accepted keys of one hash on record: a hash finds a
   listed key exactly when a listed key on record has it.
   */
  lemma LoginAfterHistory(
    caches: seq<K.Cached>, updates: seq<Update>, user: string, hash: string, listed: Option<seq<string>>)
    requires IsHistory(caches, updates) && forall k | 0 <= k <= |updates| :: AllDistinct(caches[k])
    requires K.Named(K.KnownOf(caches[|updates|].byId, user), hash)
    ensures K.Inverse(K.KnownOf(caches[|updates|].byId, user), K.KnownOf(caches[|updates|].byHash, user))
    ensures K.Finds(K.KnownOf(caches[|updates|].byHash, user), hash, listed) <==>
      K.Owns(K.KnownOf(caches[|updates|].byId, user), hash, listed)
  {
    hide Takes, KeepsHashes, AllDistinct, K.Inverse, K.Finds, K.Owns, K.Named, K.DistinctHashes;
    forall k | 0 <= k < |updates|
      ensures KeepsHashes(caches[k], updates[k])
    {
      DistinctKeepsHashes(caches[k], updates[k]);
    }
    HistoryInverseIff(caches, updates);
    var last := caches[|updates|];
    assert AllInverse(last);
    DistinctOf(last, user);
    K.FindsIffOwns(K.KnownOf(last.byId, user), K.KnownOf(last.byHash, user), hash, listed);
  }

  lemma DistinctOf(c: K.Cached, user: string)
    requires AllDistinct(c)
    ensures K.DistinctHashes(K.KnownOf(c.byId, user))
  {
  }

  // A user's ids on record with their hashes, by the updates that reached the user.
  function RecordAfter(updates: seq<Update>, user: string): K.Table {
    if updates == [] then map[]
    else
      var last, before := updates[|updates| - 1], RecordAfter(updates[..|updates| - 1], user);
      if user in last.listed then K.Updated(before, last.listed[user], last.answerOf(user), last.least) else before
  }

  // The ids last listed for a user.
  function LastListed(updates: seq<Update>, user: string): set<string> {
    if updates == [] then {}
    else if user in updates[|updates| - 1].listed then updates[|updates| - 1].listed[user]
    else LastListed(updates[..|updates| - 1], user)
  }

  /** After any run of updates the ids on record for a user are those last listed, with the hashes they came with. */
  lemma {:induction false} HistoryRecords(caches: seq<K.Cached>, updates: seq<Update>, user: string)
    requires IsHistory(caches, updates)
    ensures K.KnownOf(caches[|updates|].byId, user) == RecordAfter(updates, user)
    ensures RecordAfter(updates, user).Keys == LastListed(updates, user)
  {
    hide K.Overwritten;
    if updates != [] {
      var n := |updates| - 1;
      assert IsHistory(caches[..n + 1], updates[..n]) by {
        hide Takes;
        assert forall k | 0 <= k < n :: Takes(caches[k], updates[k], caches[k + 1]);
      }
      HistoryRecords(caches[..n + 1], updates[..n], user);
      assert Takes(caches[n], updates[n], caches[n + 1]);
      assert K.UserBrought(caches[n], user, K.ListingOf(updates[n].listed, user), updates[n].answerOf,
        updates[n].least, caches[n + 1]);
    }
  }

  // What the backend says when the server asks.
  datatype Backend = Backend(
    conf: Config, info: Option<NetworkInfo>, fetchGroup: string -> Option<seq<string>>,
    fetchKeys: string -> Option<seq<string>>, answerOf: string -> string -> K.KeyAnswer, least: nat)

  // Whom the configuration lets in at all: a section of their own or a declared group, and listed keys.
  ghost predicate HasAccess(b: Backend, user: string) {
    b.fetchKeys(user) != Some([]) && !Denied(b.conf, user, GroupsOf(b.conf.groups.Keys, b.fetchGroup, user))
  }

  // The user manager's tables and the certificate manager, by value.
  datatype State = State(cache: K.Cached, index: C.Index)

  // One call of buildUserConfigs: how it ended, what it asked of the certificate manager, whom it brought up to date.
  datatype Reload = Reload(
    outcome: K.Outcome, culprit: string, rounds: seq<K.Round>, listed: map<string, set<string>>)

  // What such a call does, by value.
  ghost predicate Reloads(n: K.Naming, mended: bool, a: State, b: Backend, r: Reload, z: State)
    requires C.Sound(a.index)
  {
    && FailsWithBackend(a.cache, b, r)
    && K.RoundsMeet(r.rounds, a.cache.byId, b.fetchKeys, b.answerOf, b.least,
         if r.outcome.Failed? then Some(r.culprit) else None)
    && (forall u | u in K.UsersOf(r.rounds) :: K.Belongs(b.conf, b.fetchGroup, u))
    && K.Follows(n, mended, a.index, r.rounds, r.outcome, z.index)
    && Takes(a.cache, UpdateOf(b, r), z.cache)
    && r.listed == K.ListedKeys(r.listed.Keys, b.fetchKeys)
    && r.listed.Keys == K.UsersOf(r.rounds) - (if r.outcome.Failed? then {r.culprit} else {})
    && (r.outcome.Done? ==> forall u :: u in r.listed <==> HasAccess(b, u))
  }

  // A call fails at once without networks or groups, and else exactly at a user whose keys cannot be fetched.
  ghost predicate FailsWithBackend(c: K.Cached, b: Backend, r: Reload) {
    && (!K.Available(b.conf, b.info, b.fetchGroup) ==> r.outcome.Failed? && r.rounds == [])
    && (r.outcome.Failed? && K.Available(b.conf, b.info, b.fetchGroup) ==>
          K.Belongs(b.conf, b.fetchGroup, r.culprit)
          && !K.Fetchable(b.fetchKeys(r.culprit), K.KnownOf(c.byId, r.culprit), b.answerOf(r.culprit)))
    && (r.outcome.Done? ==> K.AllFetchable(b.conf, b.fetchGroup, b.fetchKeys, b.answerOf, c.byId))
  }

  function UpdateOf(b: Backend, r: Reload): Update {
    Update(r.listed, b.answerOf, b.least)
  }

  // The states before, between and after the calls. None but the last call stops the server.
  ghost predicate IsServed(n: K.Naming, mended: bool, states: seq<State>, backends: seq<Backend>, calls: seq<Reload>) {
    && |states| == |calls| + 1 && |calls| <= |backends| && states[0].cache == K.Cached(map[], map[])
    && (forall k | 0 <= k <= |calls| :: C.Sound(states[k].index))
    && (forall k | 0 <= k < |calls| :: Reloads(n, mended, states[k], backends[k], calls[k], states[k + 1]))
    && forall k | 0 <= k < |calls| - 1 :: !calls[k].outcome.Stopped?
  }

  function CachesOf(states: seq<State>): (caches: seq<K.Cached>)
    ensures |caches| == |states|
  {
    seq(|states|, k requires 0 <= k < |states| => states[k].cache)
  }

  function UpdatesOf(backends: seq<Backend>, calls: seq<Reload>): (updates: seq<Update>)
    requires |calls| <= |backends|
    ensures |updates| == |calls|
  {
    seq(|calls|, k requires 0 <= k < |calls| => UpdateOf(backends[k], calls[k]))
  }

  // So the theorems about histories apply.
  lemma ServedIsHistory(
    n: K.Naming, mended: bool, states: seq<State>, backends: seq<Backend>, calls: seq<Reload>)
    requires IsServed(n, mended, states, backends, calls)
    ensures IsHistory(CachesOf(states), UpdatesOf(backends, calls))
  {
    hide Takes;
    forall k | 0 <= k < |calls|
      ensures Takes(states[k].cache, UpdateOf(backends[k], calls[k]), states[k + 1].cache)
    {
      assert Reloads(n, mended, states[k], backends[k], calls[k], states[k + 1]);
    }
  }

  // The configuration in place: the last one for which the networks were known.
  function InPlace(backends: seq<Backend>): Option<(Config, NetworkInfo)> {
    if backends == [] then None
    else
      var last := backends[|backends| - 1];
      if last.info.Some? then Some((last.conf, last.info.value)) else InPlace(backends[..|backends| - 1])
  }

  // The groups of a user as remembered: from the last call that came through.
  ghost function GroupsLast(backends: seq<Backend>, calls: seq<Reload>, user: string): set<string>
    requires |calls| <= |backends|
  {
    if calls == [] then {}
    else
      var n := |calls| - 1;
      if calls[n].outcome.Done? then GroupsOf(backends[n].conf.groups.Keys, backends[n].fetchGroup, user)
      else GroupsLast(backends, calls[..n], user)
  }

  // What a user manager remembers beside the keys.
  datatype Memory = Memory(conf: Option<Config>, info: Option<NetworkInfo>, groups: Groups)

  ghost function MemoryOf(m: K.UserManager): Memory
    reads m`confFile, m`netinfo, m`userGroups
  {
    Memory(m.confFile, m.netinfo, m.userGroups)
  }

  lemma MemoryMeans(m: K.UserManager)
    ensures MemoryOf(m) == Memory(m.confFile, m.netinfo, m.userGroups)
  {
  }

  ghost predicate Recalls(memory: Memory, backends: seq<Backend>, calls: seq<Reload>)
    requires |calls| <= |backends|
  {
    && IsInPlace(memory, InPlace(backends[..|calls|]))
    && forall u :: Elements(GroupsIn(memory.groups, u)) == GroupsLast(backends, calls, u)
  }

  ghost predicate IsInPlace(memory: Memory, p: Option<(Config, NetworkInfo)>) {
    if p.None? then memory.conf.None? && memory.info.None?
    else memory.conf == Some(p.value.0) && memory.info == Some(p.value.1) && Ordered(p.value.0)
  }

  lemma NothingRecalled(memory: Memory, backends: seq<Backend>)
    requires memory.conf.None? && memory.info.None? && memory.groups == map[]
    ensures Recalls(memory, backends, [])
  {
  }

  // The configuration is remembered once the networks are known, the groups when the call comes through.
  ghost predicate Learns(before: Memory, b: Backend, outcome: K.Outcome, after: Memory) {
    && after.conf == (if b.info.Some? then Some(b.conf) else before.conf)
    && after.info == (if b.info.Some? then b.info else before.info)
    && if outcome.Done? then K.Remembers(after.groups, b.conf, b.fetchGroup) else after.groups == before.groups
  }

  // One call of buildUserConfigs, by value.
  method ReloadOnce(m: K.UserManager, b: Backend, render: Iptables.Network -> string)
    returns (configs: map<string, K.VpnUser>, ghost call: Reload, outcome: K.Outcome)
    requires m.Valid() && C.Sound(m.index) && m.Configured() && Ordered(b.conf)
    modifies m, m.users.Values
    ensures m.Valid() && C.Sound(m.index) && m.Configured() && fresh(m.users.Values - old(m.users.Values))
    ensures outcome == call.outcome
    ensures Reloads(m.naming, m.mended, State(old(m.Cache()), old(m.index)), b, call, State(m.Cache(), m.index))
    ensures outcome.Done? ==>
      b.info.Some? && K.Answers(configs, b.conf, b.info.value, b.fetchGroup, b.fetchKeys, render)
    ensures Learns(old(MemoryOf(m)), b, outcome, MemoryOf(m))
  {
    hide *;
    ghost var culprit, rounds, listed;
    MemoryMeans(m);
    ghost var a, memory := State(m.Cache(), m.index), MemoryOf(m);
    outcome, configs, culprit, rounds, listed :=
      m.BuildUserConfigs(b.conf, b.info, b.fetchGroup, b.fetchKeys, b.answerOf, b.least, render);
    call := Reload(outcome, culprit, rounds, listed);
    if outcome.Done? {
      AnsweredHaveAccess(b, configs, render);
    }
    ReloadsFrom(m.naming, m.mended, a, b, call, State(m.Cache(), m.index));
    MemoryMeans(m);
    LearnsFrom(memory, b, outcome, MemoryOf(m));
  }

  lemma LearnsFrom(before: Memory, b: Backend, outcome: K.Outcome, after: Memory)
    requires after.conf == if b.info.Some? then Some(b.conf) else before.conf
    requires after.info == if b.info.Some? then b.info else before.info
    requires if outcome.Done? then K.Remembers(after.groups, b.conf, b.fetchGroup) else after.groups == before.groups
    ensures Learns(before, b, outcome, after)
  {
  }

  lemma AnsweredHaveAccess(b: Backend, configs: map<string, K.VpnUser>, render: Iptables.Network -> string)
    requires b.info.Some? && K.Answers(configs, b.conf, b.info.value, b.fetchGroup, b.fetchKeys, render)
    ensures forall u :: u in configs <==> HasAccess(b, u)
  {
    hide Denied, Describes, Applicable;
  }

  lemma ReloadsFrom(n: K.Naming, mended: bool, a: State, b: Backend, r: Reload, z: State)
    requires C.Sound(a.index)
    requires !K.Available(b.conf, b.info, b.fetchGroup) ==> r.outcome.Failed? && r.rounds == []
    requires r.outcome.Failed? && K.Available(b.conf, b.info, b.fetchGroup) ==>
      K.Belongs(b.conf, b.fetchGroup, r.culprit)
      && !K.Fetchable(b.fetchKeys(r.culprit), K.KnownOf(a.cache.byId, r.culprit), b.answerOf(r.culprit))
    requires r.outcome.Done? ==> K.AllFetchable(b.conf, b.fetchGroup, b.fetchKeys, b.answerOf, a.cache.byId)
    requires K.RoundsMeet(r.rounds, a.cache.byId, b.fetchKeys, b.answerOf, b.least,
      if r.outcome.Failed? then Some(r.culprit) else None)
    requires forall u | u in K.UsersOf(r.rounds) :: K.Belongs(b.conf, b.fetchGroup, u)
    requires K.Follows(n, mended, a.index, r.rounds, r.outcome, z.index)
    requires K.AllBrought(a.cache, r.listed, b.answerOf, b.least, z.cache)
    requires r.listed == K.ListedKeys(r.listed.Keys, b.fetchKeys)
    requires r.listed.Keys == K.UsersOf(r.rounds) - if r.outcome.Failed? then {r.culprit} else {}
    requires r.outcome.Done? ==> forall u :: u in r.listed.Keys <==> HasAccess(b, u)
    ensures Reloads(n, mended, a, b, r, z)
  {
    hide K.RoundsMeet, K.UsersOf, K.Belongs, K.Follows, K.AllBrought, K.ListedKeys, K.Fetchable, K.AllFetchable;
    hide K.Available, HasAccess, K.KnownOf;
  }

  /**
   buildUserConfigs any number of times on a new user manager, up to the one that stops the server. Each call
   does to the tables and to the certificate manager what `Reloads` says, so that the theorems about histories
   hold of the run.
   */
  method RunUpdates(m: K.UserManager, backends: seq<Backend>, render: Iptables.Network -> string)
    returns (stopped: bool, ghost states: seq<State>, ghost calls: seq<Reload>)
    requires m.Valid() && C.Sound(m.index) && m.users == map[]
    requires MemoryOf(m) == Memory(None, None, map[])
    requires forall b | b in backends :: Ordered(b.conf)
    modifies m
    ensures m.Valid() && C.Sound(m.index) && m.Configured()
    ensures IsServed(m.naming, m.mended, states, backends, calls)
    ensures states[0].index == old(m.index)
    ensures states[|calls|] == State(m.Cache(), m.index)
    ensures stopped <==> calls != [] && calls[|calls| - 1].outcome.Stopped?
    ensures !stopped ==> |calls| == |backends|
    ensures IsHistory(CachesOf(states), UpdatesOf(backends, calls))
    ensures Recalls(MemoryOf(m), backends, calls)
  {
    hide *;
    NewManager(m);
    NothingRecalled(MemoryOf(m), backends);
    states, calls := [State(m.Cache(), m.index)], [];
    NothingServed(m.naming, m.mended, states[0], backends);
    for i := 0 to |backends|
      invariant m.Valid() && C.Sound(m.index) && m.Configured() && fresh(m.users.Values)
      invariant IsServed(m.naming, m.mended, states, backends, calls) && |calls| == i && |states| == i + 1
      invariant states[0].index == old(m.index) && states[i] == State(m.Cache(), m.index)
      invariant forall k | 0 <= k < i :: !calls[k].outcome.Stopped?
      invariant Recalls(MemoryOf(m), backends, calls)
    {
      ghost var memory := MemoryOf(m);
      ghost var call;
      var outcome, configs;
      configs, call, outcome := ReloadOnce(m, backends[i], render);
      ServedNext(m.naming, m.mended, states, backends, calls, call, State(m.Cache(), m.index));
      RecallsNext(memory, backends, calls, call, MemoryOf(m));
      states, calls := states + [State(m.Cache(), m.index)], calls + [call];
      if outcome.Stopped? {
        ServedIsHistory(m.naming, m.mended, states, backends, calls);
        return true, states, calls;
      }
    }
    ServedIsHistory(m.naming, m.mended, states, backends, calls);
    stopped := false;
  }

  lemma NewManager(m: K.UserManager)
    requires m.users == map[]
    ensures m.Cache() == K.Cached(map[], map[]) && m.Configured()
  {
  }

  lemma NothingServed(n: K.Naming, mended: bool, a: State, backends: seq<Backend>)
    requires a.cache == K.Cached(map[], map[]) && C.Sound(a.index)
    ensures IsServed(n, mended, [a], backends, [])
  {
  }

  lemma ServedNext(
    n: K.Naming, mended: bool, states: seq<State>, backends: seq<Backend>, calls: seq<Reload>, call: Reload, z: State)
    requires IsServed(n, mended, states, backends, calls) && |calls| < |backends| && C.Sound(z.index)
    requires forall k | 0 <= k < |calls| :: !calls[k].outcome.Stopped?
    requires Reloads(n, mended, states[|calls|], backends[|calls|], call, z)
    ensures IsServed(n, mended, states + [z], backends, calls + [call])
  {
    hide Reloads, C.Sound;
    forall k | 0 <= k <= |calls|
      ensures C.Sound((states + [z])[k].index)
      ensures Reloads(n, mended, (states + [z])[k], backends[k], (calls + [call])[k], (states + [z])[k + 1])
    {
      assert C.Sound(states[k].index);
      if k < |calls| {
        assert Reloads(n, mended, states[k], backends[k], calls[k], states[k + 1]);
      }
    }
  }

  lemma RecallsNext(
    before: Memory, backends: seq<Backend>, calls: seq<Reload>, call: Reload, after: Memory)
    requires |calls| < |backends| && Ordered(backends[|calls|].conf) && Recalls(before, backends, calls)
    requires Learns(before, backends[|calls|], call.outcome, after)
    ensures Recalls(after, backends, calls + [call])
  {
    hide Ordered, Elements, GroupsIn, GroupsOf;
    var n := |calls|;
    assert backends[..n + 1][..n] == backends[..n] && (calls + [call])[..n] == calls;
  }

  // The groups a login goes by: those told with it, or those remembered.
  ghost function GroupsFor(
    told: Option<seq<string>>, backends: seq<Backend>, calls: seq<Reload>, user: string): set<string>
    requires |calls| <= |backends|
  {
    if told.Some? then Elements(told.value) else GroupsLast(backends, calls, user)
  }

  // Whether the configuration in place lets a user of these groups in.
  ghost predicate Admits(p: Option<(Config, NetworkInfo)>, user: string, groups: set<string>) {
    p.Some? && !Denied(p.value.0, user, groups)
  }

  // No user ever had two accepted keys of one hash on record.
  ghost predicate NeverShared(states: seq<State>) {
    forall k | 0 <= k < |states| :: AllDistinct(states[k].cache)
  }

  lemma MemoryInPlace(
    memory: Memory, backends: seq<Backend>, calls: seq<Reload>, user: string, groups: Option<seq<string>>)
    requires |calls| == |backends| && Recalls(memory, backends, calls)
    ensures InPlace(backends).Some? <==> memory.conf.Some?
    ensures memory.conf.Some? ==>
      memory.info.Some? && InPlace(backends) == Some((memory.conf.value, memory.info.value))
    ensures Elements(K.Told(groups, memory.groups, user)) == GroupsFor(groups, backends, calls, user)
  {
    hide Elements, GroupsIn, GroupsLast, InPlace, Ordered;
    assert backends[..|calls|] == backends;
  }

  lemma RecordInPlace(
    n: K.Naming, mended: bool, states: seq<State>, backends: seq<Backend>, calls: seq<Reload>, user: string,
    hash: string, listed: Option<seq<string>>)
    requires IsServed(n, mended, states, backends, calls)
    ensures var known := RecordAfter(UpdatesOf(backends, calls), user);
      && K.KnownOf(states[|calls|].cache.byId, user) == known
      && known.Keys == LastListed(UpdatesOf(backends, calls), user)
      && (NeverShared(states) && K.Named(known, hash) ==>
            (K.Finds(K.KnownOf(states[|calls|].cache.byHash, user), hash, listed) <==> K.Owns(known, hash, listed)))
  {
    hide Takes, Reloads, AllDistinct, K.Finds, K.Owns, K.Named, K.KnownOf, RecordAfter, LastListed, UpdateOf;
    var caches, updates := CachesOf(states), UpdatesOf(backends, calls);
    ServedIsHistory(n, mended, states, backends, calls);
    HistoryRecords(caches, updates, user);
    if NeverShared(states) && K.Named(RecordAfter(updates, user), hash) {
      LoginAfterHistory(caches, updates, user, hash, listed);
    }
  }

  lemma AdmitsMeans(
    m: K.UserManager, p: Option<(Config, NetworkInfo)>, user: string, groups: set<string>, hash: string,
    listed: Option<seq<string>>)
    requires m.Configured() && (p.Some? ==> m.confFile == Some(p.value.0))
    ensures Admits(p, user, groups) <==> p.Some? && !Denied(p.value.0, user, groups)
    ensures m.confFile.None? ==> !K.Finds(K.KnownOf(m.Cache().byHash, user), hash, listed)
  {
  }

  /**
   A login after such a run. It gets through exactly when its hash leads to a key that is still listed and the
   configuration in place, which may be newer than the groups remembered, does not deny the user's groups. The
   key let in is one last listed for the user in an update, on record with this hash. If the user never had two
   accepted keys of one hash on record, any key last listed with the hash and still listed will do.
   */
  method LogIn(
    naming: K.Naming, mended: bool, index: C.Index, backends: seq<Backend>, user: string, hash: string,
    listed: Option<seq<string>>, groups: Option<seq<string>>, render: Iptables.Network -> string)
    returns (stopped: bool, r: Option<(UserConfig, string)>, ghost states: seq<State>, ghost calls: seq<Reload>)
    requires C.Sound(index) && forall b | b in backends :: Ordered(b.conf)
    ensures IsServed(naming, mended, states, backends, calls) && states[0].index == index
    ensures stopped <==> calls != [] && calls[|calls| - 1].outcome.Stopped?
    ensures stopped ==> r.None?
    ensures !stopped ==> |calls| == |backends|
    ensures !stopped ==>
      (r.Some? <==> K.Finds(K.KnownOf(states[|calls|].cache.byHash, user), hash, listed)
                    && Admits(InPlace(backends), user, GroupsFor(groups, backends, calls, user)))
    ensures r.Some? ==>
      && r.value.1 in RecordAfter(UpdatesOf(backends, calls), user)
      && RecordAfter(UpdatesOf(backends, calls), user)[r.value.1] == hash
      && Describes(r.value.0, Applicable(InPlace(backends).value.0, user, GroupsFor(groups, backends, calls, user)),
           InPlace(backends).value.1, render)
    ensures !stopped && NeverShared(states) && K.Named(RecordAfter(UpdatesOf(backends, calls), user), hash) ==>
      (r.Some? <==> K.Owns(RecordAfter(UpdatesOf(backends, calls), user), hash, listed)
                    && Admits(InPlace(backends), user, GroupsFor(groups, backends, calls, user)))
  {
    hide *;
    var m := new K.UserManager(naming, mended, index);
    MemoryMeans(m);
    stopped, states, calls := RunUpdates(m, backends, render);
    if stopped {
      return stopped, None, states, calls;
    }
    MemoryMeans(m);
    m.CacheMeans();
    MemoryInPlace(MemoryOf(m), backends, calls, user, groups);
    RecordInPlace(naming, mended, states, backends, calls, user, hash, listed);
    r := m.AuthenticateUser(user, hash, listed, groups, render);
    AdmitsMeans(m, InPlace(backends), user, GroupsFor(groups, backends, calls, user), hash, listed);
  }
}
