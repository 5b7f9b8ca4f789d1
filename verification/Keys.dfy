/**
 The server's memory of its users' keys: UserManager compares the key ids the backend lists with those
 it knows, has certificates made and withdrawn, and answers which key a login belongs to.
 */
module Keys {
  import opened Wrappers
  import opened Sequences
  import Iptables
  import opened Policy
  import opened Membership
  import C = CertTables

  // What the backend and the key parser say about one key id; `size` is the modulus size in octets.
  datatype KeyAnswer = Broken | Missing | Usable(size: nat, hash: string)

  predicate Accepts(answer: KeyAnswer, least: nat) {
    answer.Usable? && answer.size >= least
  }

  // What is recorded for a key: the hash of its certificate, or nothing for a key that was not accepted.
  function HashFor(answer: KeyAnswer, least: nat): string {
    if Accepts(answer, least) then answer.hash else ""
  }

  type Table = map<string, string>

  function Kept(byId: Table, keyIds: set<string>): Table {
    map id | id in byId && id in keyIds :: byId[id]
  }

  function DroppedHashes(byId: Table, keyIds: set<string>): set<string> {
    set id | id in byId && id !in keyIds :: byId[id]
  }

  // Every recorded hash leads to a key that has it, and to no other hash does anything lead.
  ghost predicate Inverse(byId: Table, byHash: Table) {
    forall h | h != "" ::
      (h in byHash <==> h in byId.Values) && (h in byHash ==> byHash[h] in byId && byId[byHash[h]] == h)
  }

  // Whatever a hash leads to is a recorded key that has it.
  ghost predicate Leads(byId: Table, byHash: Table) {
    forall h | h in byHash :: byHash[h] in byId && byId[byHash[h]] == h
  }

  ghost predicate DistinctHashes(byId: Table) {
    forall a, b | a in byId && b in byId && byId[a] == byId[b] != "" :: a == b
  }

  // `byHash` is `base` overwritten, in some order, by the hashes of `added`.
  ghost predicate Overwritten(base: Table, added: Table, byHash: Table) {
    && byHash.Keys == base.Keys + added.Values
    && forall h | h in byHash ::
      if h in added.Values then byHash[h] in added && added[byHash[h]] == h else byHash[h] == base[h]
  }

  class UserKeys {
    var keyById: Table
    var keyByHash: Table

    constructor ()
      ensures keyById == map[] && keyByHash == map[]
    {
      keyById, keyByHash := map[], map[];
    }

    // The locked part of updateKeys: ids no longer listed leave both tables, new ones enter.
    method Apply(keyIds: set<string>, newKeys: Table) returns (removed: seq<string>)
      requires newKeys.Keys <= keyIds && newKeys.Keys !! keyById.Keys
      modifies this
      ensures keyById == Kept(old(keyById), keyIds) + newKeys
      ensures Overwritten(old(keyByHash) - DroppedHashes(old(keyById), keyIds), newKeys, keyByHash)
      ensures Distinct(removed) && Elements(removed) == old(keyById).Keys - keyIds
    {
      removed := Drop(keyIds);
      Enter(newKeys);
    }

    method Drop(keyIds: set<string>) returns (removed: seq<string>)
      modifies this
      ensures keyById == Kept(old(keyById), keyIds)
      ensures keyByHash == old(keyByHash) - DroppedHashes(old(keyById), keyIds)
      ensures Distinct(removed) && Elements(removed) == old(keyById).Keys - keyIds
    {
      removed := [];
      ghost var byId := keyById;
      var rest := keyById.Keys;
      while rest != {}
        invariant rest <= byId.Keys
        invariant keyById == Kept(byId, keyIds + rest)
        invariant keyByHash == old(keyByHash) - DroppedHashes(byId, keyIds + rest)
        invariant Distinct(removed) && Elements(removed) == byId.Keys - keyIds - rest
      {
        var id :| id in rest;
        DropStep(byId, keyIds, rest, id);
        rest := rest - {id};
        if id !in keyIds {
          keyByHash := keyByHash - {keyById[id]};
          keyById := keyById - {id};
          ElementsAppend(removed, id);
          removed := removed + [id];
        }
      }
      assert keyIds + rest == keyIds;
    }

    method Enter(newKeys: Table)
      requires newKeys.Keys !! keyById.Keys
      modifies this
      ensures keyById == old(keyById) + newKeys
      ensures Overwritten(old(keyByHash), newKeys, keyByHash)
    {
      hide Overwritten;
      ghost var entered: Table := map[];
      NothingEntered(keyByHash);
      assert newKeys - newKeys.Keys == map[];
      var rest := newKeys.Keys;
      while rest != {}
        invariant rest <= newKeys.Keys && entered == newKeys - rest
        invariant keyById == old(keyById) + entered
        invariant Overwritten(old(keyByHash), entered, keyByHash)
      {
        var id :| id in rest;
        EnterStep(old(keyByHash), entered, keyByHash, id, newKeys[id]);
        RestNext(newKeys, rest, id);
        rest := rest - {id};
        keyById := keyById[id := newKeys[id]];
        keyByHash := keyByHash[newKeys[id] := id];
        entered := entered[id := newKeys[id]];
      }
      assert newKeys - {} == newKeys;
    }
  }

  lemma DropStep(byId: Table, keyIds: set<string>, rest: set<string>, id: string)
    requires id in rest && rest <= byId.Keys
    ensures id in keyIds ==> keyIds + rest == keyIds + (rest - {id})
    ensures id !in keyIds ==> Kept(byId, keyIds + (rest - {id})) == Kept(byId, keyIds + rest) - {id}
    ensures id !in keyIds ==>
      DroppedHashes(byId, keyIds + (rest - {id})) == DroppedHashes(byId, keyIds + rest) + {byId[id]}
  {
  }

  lemma RestNext(newKeys: Table, rest: set<string>, id: string)
    requires id in rest && rest <= newKeys.Keys
    ensures (newKeys - rest)[id := newKeys[id]] == newKeys - (rest - {id})
  {
  }

  lemma NothingEntered(base: Table)
    ensures Overwritten(base, map[], base)
  {
  }

  lemma EnterStep(base: Table, added: Table, byHash: Table, id: string, hash: string)
    requires Overwritten(base, added, byHash) && id !in added
    ensures Overwritten(base, added[id := hash], byHash[hash := id])
  {
    var next := added[id := hash];
    assert next[id] == hash;
    forall h
      ensures h in next.Values <==> h in added.Values || h == hash
    {
      if h in added.Values {
        var a :| a in added && added[a] == h;
        assert next[a] == h;
      }
    }
  }

  lemma NothingLeads()
    ensures Leads(map[], map[])
  {
  }

  /** That is kept by every update, whatever it brings. */
  lemma LeadsKept(byId: Table, byHash: Table, keyIds: set<string>, newKeys: Table, after: Table)
    requires Leads(byId, byHash) && newKeys.Keys !! byId.Keys
    requires Overwritten(byHash - DroppedHashes(byId, keyIds), newKeys, after)
    ensures Leads(Kept(byId, keyIds) + newKeys, after)
  {
    forall h | h in after
      ensures after[h] in Kept(byId, keyIds) + newKeys && (Kept(byId, keyIds) + newKeys)[after[h]] == h
    {
      if h !in newKeys.Values {
        assert h in byHash && byId[byHash[h]] == h;
      }
    }
  }

  /**
   The tables stay inverse to each other exactly when no key that stays loses its hash to one that goes:
   the removal forgets the hash, whichever key it led to.
   */
  lemma InverseKeptIff(byId: Table, byHash: Table, keyIds: set<string>, newKeys: Table, after: Table)
    requires Inverse(byId, byHash) && newKeys.Keys !! byId.Keys
    requires Overwritten(byHash - DroppedHashes(byId, keyIds), newKeys, after)
    ensures Inverse(Kept(byId, keyIds) + newKeys, after) <==>
      forall k | k in Kept(byId, keyIds) && byId[k] != "" ::
        byId[k] in DroppedHashes(byId, keyIds) ==> byId[k] in newKeys.Values
  {
    var kept, dropped := Kept(byId, keyIds), DroppedHashes(byId, keyIds);
    var next := kept + newKeys;
    forall h
      ensures h in next.Values <==> h in kept.Values || h in newKeys.Values
    {
      SumValues(kept, newKeys, h);
    }
    if k :| k in kept && byId[k] != "" && byId[k] in dropped && byId[k] !in newKeys.Values {
      assert kept[k] == byId[k] && byId[k] !in after;
    } else {
      forall h | h != ""
        ensures h in after <==> h in next.Values
        ensures h in after ==> after[h] in next && next[after[h]] == h
      {
        KeptHash(byId, byHash, keyIds, newKeys, after, h);
      }
    }
  }

  /** Two ids of one key, one of them delisted: the other one's hash leads nowhere any more. */
  lemma KeptKeyLosesHash(stays: string, goes: string, hash: string)
    requires stays != goes && hash != ""
    ensures var byId, byHash := map[stays := hash, goes := hash], map[hash := goes];
      && Inverse(byId, byHash) && Kept(byId, {stays}) == map[stays := hash]
      && forall after | Overwritten(byHash - DroppedHashes(byId, {stays}), map[], after) :: hash !in after
  {
    var byId, byHash := map[stays := hash, goes := hash], map[hash := goes];
    assert byId[stays] in byId.Values;
    assert forall h | h in byId.Values :: h == hash;
    assert byId[goes] in DroppedHashes(byId, {stays});
  }

  lemma SumValues(a: Table, b: Table, h: string)
    requires a.Keys !! b.Keys
    ensures h in (a + b).Values <==> h in a.Values || h in b.Values
  {
    if id :| id in a && a[id] == h {
      assert (a + b)[id] == h;
    }
    if id :| id in b && b[id] == h {
      assert (a + b)[id] == h;
    }
  }

  lemma KeptHash(byId: Table, byHash: Table, keyIds: set<string>, newKeys: Table, after: Table, h: string)
    requires Inverse(byId, byHash) && newKeys.Keys !! byId.Keys && h != ""
    requires Overwritten(byHash - DroppedHashes(byId, keyIds), newKeys, after)
    requires forall k | k in Kept(byId, keyIds) && byId[k] != "" ::
      byId[k] in DroppedHashes(byId, keyIds) ==> byId[k] in newKeys.Values
    ensures h in after <==> h in Kept(byId, keyIds).Values || h in newKeys.Values
    ensures h in after ==>
      after[h] in Kept(byId, keyIds) + newKeys && (Kept(byId, keyIds) + newKeys)[after[h]] == h
  {
    var kept, dropped := Kept(byId, keyIds), DroppedHashes(byId, keyIds);
    if h !in newKeys.Values && h in byHash && h !in dropped {
      assert kept[byHash[h]] == h;
    }
    if k :| k in kept && kept[k] == h {
      assert byId[k] == h;
    }
  }

  lemma EmptyDifference<T>(a: set<T>, b: set<T>)
    requires a - b == {}
    ensures a <= b
  {
    assert forall x | x in a :: x !in a - b;
  }

  // What the certificate manager is asked for, in order.
  datatype Call = Make(user: string, id: string, hash: string) | Withdraw(id: string)

  // The bucket of a name, and the key that has a given hash.
  datatype Naming = Naming(bucketOf: (string, string) -> string, keyOf: string -> string)

  type Entry = (string, C.Certificate)

  // The certificate made for a user's key: the user is its name, the hash of the key its unit.
  function EntryFor(n: Naming, user: string, hash: string): Entry {
    (n.bucketOf(user, hash), C.Certificate(user, Some(hash), n.keyOf(hash)))
  }

  function OperationFor(n: Naming, call: Call): C.Operation {
    match call
    case Make(user, id, hash) => C.Add(EntryFor(n, user, hash).0, EntryFor(n, user, hash).1, Some(id))
    case Withdraw(id) => C.Withdraw(id)
  }

  function Operations(n: Naming, calls: seq<Call>): (ops: seq<C.Operation>)
    ensures |ops| == |calls|
  {
    seq(|calls|, i requires 0 <= i < |calls| => OperationFor(n, calls[i]))
  }

  lemma OperationsConcat(n: Naming, a: seq<Call>, b: seq<Call>)
    ensures Operations(n, a + b) == Operations(n, a) + Operations(n, b)
  {
  }

  // The certificate manager after some calls; None if one of them stopped the server.
  function Reached(n: Naming, mended: bool, x: C.Index, calls: seq<Call>): (r: Option<C.Index>)
    requires C.Sound(x)
    ensures r.Some? ==> C.Sound(r.value)
  {
    C.After(x, Operations(n, calls), mended)
  }

  lemma ReachedNone(n: Naming, mended: bool, x: C.Index)
    requires C.Sound(x)
    ensures Reached(n, mended, x, []) == Some(x)
  {
  }

  lemma ReachedNext(n: Naming, mended: bool, x: C.Index, calls: seq<Call>, call: Call)
    requires C.Sound(x)
    ensures Reached(n, mended, x, calls + [call]) ==
      if Reached(n, mended, x, calls).None? then None
      else C.Step(Reached(n, mended, x, calls).value, OperationFor(n, call), mended)
  {
    hide C.Step, C.Sound;
    OperationsConcat(n, calls, [call]);
    assert Operations(n, [call]) == [OperationFor(n, call)];
    C.AfterNext(x, Operations(n, calls), OperationFor(n, call), mended);
  }

  lemma ReachedConcat(n: Naming, mended: bool, x: C.Index, a: seq<Call>, b: seq<Call>)
    requires C.Sound(x)
    ensures Reached(n, mended, x, a + b) ==
      if Reached(n, mended, x, a).None? then None else Reached(n, mended, Reached(n, mended, x, a).value, b)
  {
    hide C.After, C.Sound;
    OperationsConcat(n, a, b);
    C.AfterConcat(x, Operations(n, a), Operations(n, b), mended);
  }

  function NewKeys(known: Table, keyIds: set<string>, answerOf: string -> KeyAnswer, least: nat): (m: Table)
    ensures m.Keys == keyIds - known.Keys
  {
    map id | id in keyIds && id !in known :: HashFor(answerOf(id), least)
  }

  // What is known of a user after an update: exactly the listed ids.
  function Updated(known: Table, keyIds: set<string>, answerOf: string -> KeyAnswer, least: nat): (next: Table)
    ensures next.Keys == keyIds
  {
    Kept(known, keyIds) + NewKeys(known, keyIds, answerOf, least)
  }

  // The ids that were accepted.
  function Accepted(byId: Table): set<string> {
    set id | id in byId && byId[id] != ""
  }

  // The tables of a user after an update from the tables `known` and `hashes`.
  ghost predicate Current(
    known: Table, hashes: Table, keyIds: set<string>, answerOf: string -> KeyAnswer, least: nat, byId: Table,
    byHash: Table)
  {
    && byId == Updated(known, keyIds, answerOf, least)
    && Overwritten(hashes - DroppedHashes(known, keyIds), NewKeys(known, keyIds, answerOf, least), byHash)
  }

  function MakeCalls(user: string, newKeys: set<string>, answerOf: string -> KeyAnswer, least: nat): set<Call> {
    set id | id in newKeys && Accepts(answerOf(id), least) :: Make(user, id, answerOf(id).hash)
  }

  datatype Outcome = Done | Failed | Stopped

  // The two tables of every user.
  datatype Cached = Cached(byId: map<string, Table>, byHash: map<string, Table>)

  // What is known of one user; an unknown user has no keys.
  function KnownOf(tables: map<string, Table>, user: string): Table {
    if user in tables then tables[user] else map[]
  }

  lemma BroughtMeans(
    a: Cached, user: string, keyIds: set<string>, answerOf: string -> KeyAnswer, least: nat, b: Cached)
    ensures Brought(a, user, keyIds, answerOf, least, b) <==>
      && user in b.byId && user in b.byHash
      && b == Cached(a.byId[user := b.byId[user]], a.byHash[user := b.byHash[user]])
      && Current(KnownOf(a.byId, user), KnownOf(a.byHash, user), keyIds, answerOf, least,
           KnownOf(b.byId, user), KnownOf(b.byHash, user))
  {
    hide Current;
  }

  lemma OneChanged(a: map<string, Table>, b: map<string, Table>, user: string, same: bool)
    requires b.Keys == a.Keys + if same then {} else {user}
    requires forall u | u != user || same :: KnownOf(b, u) == KnownOf(a, u)
    ensures if same then b == a else b == a[user := b[user]]
  {
    assert forall u | u in b && (u != user || same) :: b[u] == KnownOf(b, u) && a[u] == KnownOf(a, u);
  }

  // The cache `b` is `a` with the tables of one user brought up to date.
  ghost predicate Brought(
    a: Cached, user: string, keyIds: set<string>, answerOf: string -> KeyAnswer, least: nat, b: Cached)
  {
    && user in b.byId && user in b.byHash
    && b == Cached(a.byId[user := b.byId[user]], a.byHash[user := b.byHash[user]])
    && Current(KnownOf(a.byId, user), KnownOf(a.byHash, user), keyIds, answerOf, least, b.byId[user], b.byHash[user])
  }

  // One entry of an update's answer to the connection manager.
  datatype VpnUser = VpnUser(keys: set<string>, config: UserConfig)

  class UserManager {
    var users: map<string, UserKeys>
    const naming: Naming
    const mended: bool
    var index: C.Index  // the certificate manager, by value
    var confFile: Option<Config>
    var netinfo: Option<NetworkInfo>
    var userGroups: Groups

    constructor (naming: Naming, mended: bool, index: C.Index)
      requires C.Sound(index)
      ensures this.naming == naming && this.mended == mended && this.index == index
      ensures Valid() && Configured() && users == map[]
      ensures confFile.None? && netinfo.None? && userGroups == map[]
    {
      this.naming, this.mended, this.index := naming, mended, index;
      users := map[];
      confFile, netinfo, userGroups := None, None, map[];
    }

    // A configuration is in place before any key is on record.
    ghost predicate Configured()
      reads this`users, this`confFile, this`netinfo
    {
      users != map[] ==> confFile.Some? && Ordered(confFile.value) && netinfo.Some?
    }

    lemma ReallyConfigured()
      requires confFile.Some? && Ordered(confFile.value) && netinfo.Some?
      ensures Configured()
    {
    }

    // Users share no tables, and every hash leads to a recorded key that has it.
    ghost predicate Valid()
      reads this`users, users.Values
    {
      && (forall u, v | u in users && v in users && u != v :: users[u] != users[v])
      && forall u :: Leads(KeysOf(u), HashesOf(u))
    }

    // The keys listed but not known yet, each with the hash of the certificate made for it.
    method FetchNewKeys(user: string, known: Table, keys: seq<string>, answerOf: string -> KeyAnswer, least: nat)
      returns (r: Option<Table>, ghost made: seq<Call>)
      requires C.Sound(index)
      modifies this`index
      ensures r.None? <==> exists id | id in keys && id !in known :: answerOf(id).Broken?
      ensures r.Some? ==> r.value == NewKeys(known, Elements(keys), answerOf, least)
      ensures C.Sound(index) && Reached(naming, mended, old(index), made) == Some(index)
      ensures r.Some? ==> MadeFor(made, user, r.value.Keys, answerOf, least)
      ensures PartlyMade(made, user, Elements(keys) - known.Keys, answerOf, least)
    {
      hide MadeFor, HashFor, Reached, C.Sound, C.Added;
      var newKeys := NewIds(known, keys);
      ghost var all := newKeys.Keys;
      var rest := newKeys.Keys;
      made := [];
      NothingMade(user, answerOf, least);
      ReachedNone(naming, mended, index);
      assert all - all == {};
      while rest != {}
        invariant rest <= all && newKeys == Fetched(all, rest, answerOf, least)
        invariant forall id | id in all - rest :: !answerOf(id).Broken?
        invariant C.Sound(index) && Reached(naming, mended, old(index), made) == Some(index)
        invariant MadeFor(made, user, all - rest, answerOf, least)
      {
        var id :| id in rest;
        if answerOf(id).Broken? {
          return None, made;
        }
        assert all - (rest - {id}) == all - rest + {id};
        MadeNext(made, user, all - rest, answerOf, least, id);
        FetchedNext(all, rest, answerOf, least, id);
        rest := rest - {id};
        if Accepts(answerOf(id), least) {
          var (bucket, cert) := EntryFor(naming, user, answerOf(id).hash);
          ReachedNext(naming, mended, old(index), made, Make(user, id, answerOf(id).hash));
          made := made + [Make(user, id, answerOf(id).hash)];
          index := C.Added(index, bucket, cert, Some(id));
        }
        newKeys := newKeys[id := HashFor(answerOf(id), least)];
      }
      assert all - {} == all;
      r := Some(newKeys);
    }

    static method NewIds(known: Table, keys: seq<string>) returns (newKeys: Table)
      ensures newKeys == map id | id in Elements(keys) && id !in known :: ""
    {
      newKeys := map[];
      for i := 0 to |keys|
        invariant newKeys == map id | id in Elements(keys[..i]) && id !in known :: ""
      {
        if keys[i] !in known {
          newKeys := newKeys[keys[i] := ""];
        }
        ElementsAppend(keys[..i], keys[i]);
        assert keys[..i + 1] == keys[..i] + [keys[i]];
      }
      assert keys[..|keys|] == keys;
    }

    // What is known of one user; an unknown user has no keys.
    function KeysOf(user: string): Table
      reads this`users, users.Values
    {
      if user in users then users[user].keyById else map[]
    }

    function HashesOf(user: string): Table
      reads this`users, users.Values
    {
      if user in users then users[user].keyByHash else map[]
    }

    // The tables of all users, by value.
    ghost function Cache(): (c: Cached)
      reads this`users, users.Values
    {
      Cached(map u | u in users :: users[u].keyById, map u | u in users :: users[u].keyByHash)
    }

    lemma CacheMeans()
      ensures forall user :: KnownOf(Cache().byId, user) == KeysOf(user)
      ensures forall user :: KnownOf(Cache().byHash, user) == HashesOf(user)
      ensures Cache().byId.Keys == users.Keys == Cache().byHash.Keys
    {
    }

    // A user seen for the first time gets an entry.
    method Entry(user: string) returns (entry: UserKeys)
      requires Valid()
      modifies this`users
      ensures Valid() && users.Keys == old(users).Keys + {user} && users[user] == entry
      ensures forall u | u in users :: users[u] in old(users.Values) || fresh(users[u])
      ensures forall u :: KeysOf(u) == old(KeysOf(u)) && HashesOf(u) == old(HashesOf(u))
    {
      hide Leads;
      NothingLeads();
      if user !in users {
        entry := new UserKeys();
        users := users[user := entry];
      } else {
        entry := users[user];
      }
      forall u
        ensures Leads(KeysOf(u), HashesOf(u))
      {
        assert old(Leads(KeysOf(u), HashesOf(u)));
      }
    }

    // The locked part of the update.
    method Replace(user: string, keyIds: set<string>, newKeys: Table) returns (removed: seq<string>)
      requires Valid() && newKeys.Keys <= keyIds && newKeys.Keys !! KeysOf(user).Keys
      modifies this`users, users.Values
      ensures Valid() && users.Keys == old(users).Keys + {user}
      ensures forall u | u in users :: users[u] in old(users.Values) || fresh(users[u])
      ensures forall u | u != user :: KeysOf(u) == old(KeysOf(u)) && HashesOf(u) == old(HashesOf(u))
      ensures KeysOf(user) == Kept(old(KeysOf(user)), keyIds) + newKeys
      ensures Overwritten(old(HashesOf(user)) - DroppedHashes(old(KeysOf(user)), keyIds), newKeys, HashesOf(user))
      ensures Distinct(removed) && Elements(removed) == old(KeysOf(user)).Keys - keyIds
    {
      hide Overwritten, Kept, DroppedHashes, Distinct, Elements, Leads;
      ghost var known, hashes := KeysOf(user), HashesOf(user);
      var entry := Entry(user);
      removed := entry.Apply(keyIds, newKeys);
      LeadsKept(known, hashes, keyIds, newKeys, HashesOf(user));
      forall u
        ensures Leads(KeysOf(u), HashesOf(u))
      {
        assert u != user ==> old(Leads(KeysOf(u), HashesOf(u)));
      }
    }

    // Remove, for each key that went, until one stops the server.
    method WithdrawAll(removed: seq<string>) returns (stopped: bool)
      requires C.Sound(index)
      modifies this`index
      ensures C.Sound(index)
      ensures stopped <==> Reached(naming, mended, old(index), Withdrawals(removed)).None?
      ensures !stopped ==> Reached(naming, mended, old(index), Withdrawals(removed)) == Some(index)
    {
      hide Reached, C.Sound, C.Removed, Withdrawals;
      ghost var x := index;
      NoWithdrawals();
      ReachedNone(naming, mended, x);
      for i := 0 to |removed|
        invariant C.Sound(index) && Reached(naming, mended, x, Withdrawals(removed[..i])) == Some(index)
      {
        WithdrawalsNext(removed, i);
        ReachedNext(naming, mended, x, Withdrawals(removed[..i]), Withdraw(removed[i]));
        var next := C.Removed(index, removed[i], mended);
        if next.None? {
          WithdrawalsFrom(removed, i + 1);
          ReachedConcat(naming, mended, x, Withdrawals(removed[..i + 1]), Withdrawals(removed[i + 1..]));
          return true;
        }
        index := next.value;
      }
      assert removed[..|removed|] == removed;
      return false;
    }

    // The tables brought up to date, if they have to be.
    method BringUpToDate(user: string, keyIds: set<string>, newKeys: Table) returns (removed: seq<string>)
      requires Valid() && newKeys.Keys == keyIds - KeysOf(user).Keys
      modifies this`users, users.Values
      ensures Valid() && users.Keys == old(users).Keys + {user}
      ensures forall u | u in users :: users[u] in old(users.Values) || fresh(users[u])
      ensures forall u | u != user :: KeysOf(u) == old(KeysOf(u)) && HashesOf(u) == old(HashesOf(u))
      ensures KeysOf(user) == Kept(old(KeysOf(user)), keyIds) + newKeys
      ensures Overwritten(old(HashesOf(user)) - DroppedHashes(old(KeysOf(user)), keyIds), newKeys, HashesOf(user))
      ensures Distinct(removed) && Elements(removed) == old(KeysOf(user)).Keys - keyIds
    {
      hide Overwritten, Kept, DroppedHashes, Distinct, Elements;
      if user !in users || |keyIds| != |users[user].keyById| || newKeys != map[] {
        removed := Replace(user, keyIds, newKeys);
      } else {
        assert newKeys.Keys == {};
        EmptyDifference(keyIds, KeysOf(user).Keys);
        NothingToDo(KeysOf(user), HashesOf(user), keyIds);
        removed := [];
        NoWithdrawals();
      }
    }

    /**
     updateKeys for one user with listed keys. Unless a key cannot be fetched, the user's ids become
     exactly the listed ones: those known keep their hash, a new one gets a certificate and its hash if it
     is accepted. Each certificate is made once, then each id no longer listed is withdrawn once, and the
     server stops exactly when one of these withdrawals stops it. No other user is touched. When a key
     cannot be fetched, some of the certificates have been made.
     */
    method UpdateUserKeys(user: string, keys: seq<string>, answerOf: string -> KeyAnswer, least: nat)
      returns (outcome: Outcome, ghost round: Round)
      requires Valid() && C.Sound(index) && keys != []
      modifies this`users, this`index, users.Values
      ensures Valid() && C.Sound(index)
      ensures forall u | u in users :: users[u] in old(users.Values) || fresh(users[u])
      ensures outcome.Failed? <==> !Fetchable(Some(keys), old(KeysOf(user)), answerOf)
      ensures users.Keys == old(users).Keys + if outcome.Failed? then {} else {user}
      ensures forall u | u != user || outcome.Failed? :: KeysOf(u) == old(KeysOf(u)) && HashesOf(u) == old(HashesOf(u))
      ensures !outcome.Failed? ==>
        Current(old(KeysOf(user)), old(HashesOf(user)), Elements(keys), answerOf, least, KeysOf(user), HashesOf(user))
      ensures round.user == user
        && RoundFor(round, old(KeysOf(user)), Elements(keys), answerOf, least, !outcome.Failed?)
      ensures outcome.Stopped? <==> Reached(naming, mended, old(index), CallsIn(round)).None?
      ensures !outcome.Stopped? ==> Reached(naming, mended, old(index), CallsIn(round)) == Some(index)
    {
      hide Overwritten, Kept, DroppedHashes, MadeFor, HashFor, Withdrawals, Distinct, NewKeys, PartlyMade, Reached;
      hide Elements, KeysOf, HashesOf, Valid, Fetchable, C.Sound;
      var keyIds := Elements(keys);
      var known := KeysOf(user);
      ghost var x := index;
      var newKeys, made := FetchNewKeys(user, known, keys, answerOf, least);
      FetchableMeans(keys, known, answerOf);
      round := Round(user, made, []);
      NoWithdrawals();
      assert made + [] == made;
      if newKeys.None? {
        return Failed, round;
      }
      var removed := BringUpToDate(user, keyIds, newKeys.value);
      ReachedConcat(naming, mended, x, made, Withdrawals(removed));
      var stopped := WithdrawAll(removed);
      outcome := if stopped then Stopped else Done;
      round := Round(user, made, removed);
    }

    // One turn of the loop over the members: one without listed keys is left as it is.
    method UpdateMember(user: string, keys: Option<seq<string>>, answerOf: string -> KeyAnswer, least: nat)
      returns (outcome: Outcome, ghost rounds: seq<Round>)
      requires Valid() && C.Sound(index)
      modifies this`users, this`index, users.Values
      ensures Valid() && C.Sound(index)
      ensures forall u | u in users :: users[u] in old(users.Values) || fresh(users[u])
      ensures outcome.Failed? <==> !Fetchable(keys, KnownOf(old(Cache()).byId, user), answerOf)
      ensures !outcome.Failed? ==> keys.Some?
      ensures outcome.Failed? || keys == Some([]) ==> Cache() == old(Cache())
      ensures !outcome.Failed? && keys != Some([]) ==>
        Brought(old(Cache()), user, Elements(keys.value), answerOf, least, Cache())
      ensures |rounds| == if Listed(keys) then 1 else 0
      ensures forall r | r in rounds ::
        r.user == user && RoundMeets(r, KnownOf(old(Cache()).byId, user), keys, answerOf, least, !outcome.Failed?)
      ensures Follows(naming, mended, old(index), rounds, outcome, index)
    {
      hide Current, Elements, Valid, Fetchable, KeysOf, HashesOf, Reached, CallsIn, RoundFor, C.Sound, Cache, KnownOf;
      FetchableMeans([], KeysOf(user), answerOf);
      CacheMeans();
      ghost var before := Cache();
      rounds := [];
      NoRounds(naming, mended, index);
      if keys.None? {
        return Failed, rounds;
      }
      if keys.value == [] {
        return Done, rounds;
      }
      ghost var round;
      outcome, round := UpdateUserKeys(user, keys.value, answerOf, least);
      rounds := [round];
      OneRound(round);
      assert rounds[..0] == [];
      CacheMeans();
      OneChanged(before.byId, Cache().byId, user, outcome.Failed?);
      OneChanged(before.byHash, Cache().byHash, user, outcome.Failed?);
      BroughtMeans(before, user, Elements(keys.value), answerOf, least, Cache());
    }

    /**
     updateKeys. When it comes through, each group member with listed keys has exactly those ids on
     record, and nobody else's keys have changed. It fails exactly at a member whose list or new keys
     cannot be fetched, and stops the server exactly where the calls of its rounds do.
     */
    method UpdateKeys(
      members: set<string>, fetchKeys: string -> Option<seq<string>>, answerOf: string -> string -> KeyAnswer,
      least: nat)
      returns (
        outcome: Outcome, configs: map<string, set<string>>, ghost culprit: string, ghost rounds: seq<Round>,
        ghost brought: map<string, set<string>>)
      requires Valid() && C.Sound(index)
      modifies this`users, this`index, users.Values
      ensures Valid() && C.Sound(index)
      ensures forall u | u in users :: users[u] in old(users.Values) || fresh(users[u])
      ensures outcome.Failed? ==>
        culprit in members && !Fetchable(fetchKeys(culprit), KnownOf(old(Cache()).byId, culprit), answerOf(culprit))
      ensures outcome.Done? ==>
        forall u | u in members :: Fetchable(fetchKeys(u), KnownOf(old(Cache()).byId, u), answerOf(u))
      ensures outcome.Done? ==> configs == brought == ListedKeys(members, fetchKeys)
      ensures AllBrought(old(Cache()), brought, answerOf, least, Cache())
      ensures brought == ListedKeys(brought.Keys, fetchKeys)
      ensures brought.Keys == UsersOf(rounds) - if outcome.Failed? then {culprit} else {}
      ensures RoundsMeet(rounds, old(Cache()).byId, fetchKeys, answerOf, least,
        if outcome.Failed? then Some(culprit) else None)
      ensures UsersOf(rounds) <= members
      ensures Follows(naming, mended, old(index), rounds, outcome, index)
    {
      hide *;
      configs, culprit, rounds := map[], "", [];
      ghost var x, start := index, Cache();
      var rest := members;
      ghost var done := {};
      NoneBrought(start, fetchKeys, answerOf, least);
      NoRounds(naming, mended, x);
      while rest != {}
        invariant Valid() && C.Sound(index) && rest !! done && rest + done == members
        invariant forall u | u in users :: users[u] in old(users.Values) || fresh(users[u])
        invariant configs == ListedKeys(done, fetchKeys) && UsersOf(rounds) == configs.Keys && configs.Keys <= done
        invariant forall u | u in done :: Fetchable(fetchKeys(u), KnownOf(start.byId, u), answerOf(u))
        invariant AllBrought(start, configs, answerOf, least, Cache())
        invariant RoundsMeet(rounds, start.byId, fetchKeys, answerOf, least, None)
        invariant Follows(naming, mended, x, rounds, Done, index)
      {
        var user :| user in rest;
        culprit := user;
        Untouched(start, configs, answerOf, least, Cache(), user);
        ListedNext(done, fetchKeys, user);
        ListedMeansOne(fetchKeys(user));
        rest, done := rest - {user}, done + {user};
        ghost var more, middle, now := [], index, Cache();
        outcome, more := UpdateMember(user, fetchKeys(user), answerOf(user), least);
        FollowsOn(naming, mended, x, rounds, middle, more, outcome, index);
        RoundsAlso(rounds, more, start.byId, fetchKeys, answerOf, least, user, outcome.Failed?);
        rounds := rounds + more;
        brought := configs;
        if outcome.Failed? {
          ListedAgain(done - {user}, fetchKeys);
          return outcome, map[], culprit, rounds, brought;
        }
        if fetchKeys(user).value != [] {
          MemberBrought(start, configs, user, Elements(fetchKeys(user).value), answerOf, least, now, Cache());
          configs := configs[user := Elements(fetchKeys(user).value)];
          brought := configs;
        }
        if outcome.Stopped? {
          ListedAgain(done, fetchKeys);
          return outcome, map[], culprit, rounds, brought;
        }
      }
      assert done == members;
      ListedAgain(members, fetchKeys);
      outcome, brought := Done, configs;
    }

    /**
     buildUserConfigs. Unless it stops the server, it fails exactly where the backend does: before any key is
     touched if the networks or a group cannot be fetched, and at a user whose keys cannot. It stops the server
     exactly where the calls of its rounds do. That a user listed here is denied a configuration cannot happen.
     When it comes through, every user with listed keys has the policy of exactly the sections that apply to them. The
     configuration is in place from then on, even if a key cannot be fetched; the keys are brought up to date
     as far as updateKeys gets; and the groups are remembered when it comes through.
     */
    method BuildUserConfigs(
      conf: Config, info: Option<NetworkInfo>, fetchGroup: string -> Option<seq<string>>,
      fetchKeys: string -> Option<seq<string>>, answerOf: string -> string -> KeyAnswer, least: nat,
      render: Iptables.Network -> string)
      returns (
        outcome: Outcome, configs: map<string, VpnUser>, ghost culprit: string, ghost rounds: seq<Round>,
        ghost brought: map<string, set<string>>)
      requires Valid() && C.Sound(index) && Configured() && Ordered(conf)
      modifies this, users.Values
      ensures Valid() && C.Sound(index) && Configured()
      ensures fresh(users.Values - old(users.Values))
      ensures !Available(conf, info, fetchGroup) ==> outcome.Failed? && rounds == []
      ensures outcome.Failed? && Available(conf, info, fetchGroup) ==>
        Belongs(conf, fetchGroup, culprit)
        && !Fetchable(fetchKeys(culprit), KnownOf(old(Cache()).byId, culprit), answerOf(culprit))
      ensures outcome.Done? ==> AllFetchable(conf, fetchGroup, fetchKeys, answerOf, old(Cache()).byId)
      ensures RoundsMeet(rounds, old(Cache()).byId, fetchKeys, answerOf, least,
        if outcome.Failed? then Some(culprit) else None)
      ensures forall u | u in UsersOf(rounds) :: Belongs(conf, fetchGroup, u)
      ensures Follows(naming, mended, old(index), rounds, outcome, index)
      ensures AllBrought(old(Cache()), brought, answerOf, least, Cache())
      ensures brought == ListedKeys(brought.Keys, fetchKeys)
      ensures brought.Keys == UsersOf(rounds) - if outcome.Failed? then {culprit} else {}
      ensures outcome.Done? ==> brought.Keys == configs.Keys
      ensures outcome.Done? ==> info.Some? && Answers(configs, conf, info.value, fetchGroup, fetchKeys, render)
      ensures confFile == (if info.Some? then Some(conf) else old(confFile))
      ensures netinfo == if info.Some? then info else old(netinfo)
      ensures outcome.Done? ==> Remembers(userGroups, conf, fetchGroup)
      ensures !outcome.Done? ==> userGroups == old(userGroups)
    {
      hide *;
      rounds, culprit, brought := [], "", map[];
      assert brought.Keys == {};
      NoRounds(naming, mended, index);
      NoneBrought(Cache(), fetchKeys, answerOf, least);
      AvailableMeans(conf, info, fetchGroup);
      var groups := Configure(conf, info, fetchGroup);
      if groups.None? {
        return Failed, map[], culprit, rounds, brought;
      }
      outcome, configs, culprit, rounds, brought :=
        AnswerMembers(conf, info.value, groups.value, fetchGroup, fetchKeys, answerOf, least, render);
      ReallyConfigured();
    }

    // Up to the inverted groups: the configuration is in place once the networks are known.
    method Configure(conf: Config, info: Option<NetworkInfo>, fetchGroup: string -> Option<seq<string>>)
      returns (groups: Option<Groups>)
      requires Configured() && Ordered(conf)
      modifies this`confFile, this`netinfo
      ensures Configured()
      ensures confFile == (if info.Some? then Some(conf) else old(confFile))
      ensures netinfo == if info.Some? then info else old(netinfo)
      ensures groups.None? <==> info.None? || exists g | g in conf.groups :: fetchGroup(g).None?
      ensures groups.Some? ==> Remembers(groups.value, conf, fetchGroup)
    {
      hide *;
      if info.None? {
        return None;
      }
      confFile, netinfo := Some(conf), info;
      ReallyConfigured();
      groups := InvertGroups(conf.groups.Keys, fetchGroup, conf.users.Keys);
      if groups.Some? {
        MembersBelong(conf, fetchGroup, groups.value);
      }
    }

    // From the inverted groups on: the keys are updated, and the users answered.
    method AnswerMembers(
      conf: Config, info: NetworkInfo, groups: Groups, ghost fetchGroup: string -> Option<seq<string>>,
      fetchKeys: string -> Option<seq<string>>, answerOf: string -> string -> KeyAnswer, least: nat,
      render: Iptables.Network -> string)
      returns (
        outcome: Outcome, configs: map<string, VpnUser>, ghost culprit: string, ghost rounds: seq<Round>,
        ghost brought: map<string, set<string>>)
      requires Valid() && C.Sound(index) && Ordered(conf) && Remembers(groups, conf, fetchGroup)
      modifies this`users, this`index, this`userGroups, users.Values
      ensures Valid() && C.Sound(index)
      ensures fresh(users.Values - old(users.Values))
      ensures outcome.Failed? ==>
        Belongs(conf, fetchGroup, culprit)
        && !Fetchable(fetchKeys(culprit), KnownOf(old(Cache()).byId, culprit), answerOf(culprit))
      ensures outcome.Done? ==> AllFetchable(conf, fetchGroup, fetchKeys, answerOf, old(Cache()).byId)
      ensures RoundsMeet(rounds, old(Cache()).byId, fetchKeys, answerOf, least,
        if outcome.Failed? then Some(culprit) else None)
      ensures forall u | u in UsersOf(rounds) :: Belongs(conf, fetchGroup, u)
      ensures Follows(naming, mended, old(index), rounds, outcome, index)
      ensures AllBrought(old(Cache()), brought, answerOf, least, Cache())
      ensures brought == ListedKeys(brought.Keys, fetchKeys)
      ensures brought.Keys == UsersOf(rounds) - if outcome.Failed? then {culprit} else {}
      ensures outcome.Done? ==> brought.Keys == configs.Keys
      ensures outcome.Done? ==> Answers(configs, conf, info, fetchGroup, fetchKeys, render)
      ensures userGroups == if outcome.Done? then groups else old(userGroups)
    {
      hide *;
      RemembersMeans(groups, conf, fetchGroup);
      var keys;
      outcome, keys, culprit, rounds, brought := UpdateKeys(groups.Keys, fetchKeys, answerOf, least);
      if !outcome.Done? {
        return outcome, map[], culprit, rounds, brought;
      }
      FetchedMeans(groups.Keys, fetchKeys, old(Cache()).byId, answerOf);
      MembersFetchable(groups.Keys, conf, fetchGroup, fetchKeys, answerOf, old(Cache()).byId);
      configs := AnswersFor(conf, info, groups, keys, fetchGroup, fetchKeys, render);
      userGroups := groups;
    }

    /**
     authenticateUser. A login gets through exactly when its hash leads to a key that is still listed and the
     user's groups, as told now or as last told, are not denied. That key is on record with this hash; and
     where the tables are inverse and hashes distinct, any listed key on record with the hash will do. The
     groups are remembered even if they are denied.
     */
    method AuthenticateUser(
      user: string, keyHash: string, listed: Option<seq<string>>, groups: Option<seq<string>>,
      render: Iptables.Network -> string)
      returns (r: Option<(UserConfig, string)>)
      requires Valid() && Configured()
      modifies this`userGroups
      ensures r.Some? <==>
        Finds(HashesOf(user), keyHash, listed)
        && !Denied(confFile.value, user, Elements(Told(groups, old(userGroups), user)))
      ensures r.Some? ==> r.value.1 in KeysOf(user) && KeysOf(user)[r.value.1] == keyHash
      ensures Inverse(KeysOf(user), HashesOf(user)) && DistinctHashes(KeysOf(user)) && Named(KeysOf(user), keyHash) ==>
        (r.Some? <==> Owns(KeysOf(user), keyHash, listed)
                      && !Denied(confFile.value, user, Elements(Told(groups, old(userGroups), user))))
      ensures r.Some? ==>
        var sections := Applicable(confFile.value, user, Elements(Told(groups, old(userGroups), user)));
        r.value.1 == HashesOf(user)[keyHash] && Describes(r.value.0, sections, netinfo.value, render)
      ensures userGroups == if groups.Some? && Finds(HashesOf(user), keyHash, listed)
        then old(userGroups)[user := groups.value] else old(userGroups)
    {
      hide Denied, Ordered, Describes, Applicable, Elements, Inverse, DistinctHashes;
      assert Leads(KeysOf(user), HashesOf(user));
      if Inverse(KeysOf(user), HashesOf(user)) && DistinctHashes(KeysOf(user)) && Named(KeysOf(user), keyHash) {
        FindsIffOwns(KeysOf(user), HashesOf(user), keyHash, listed);
      }
      if user !in users || keyHash !in users[user].keyByHash {
        return None;
      }
      var keyId := users[user].keyByHash[keyHash];
      if keyId == "" || listed.None? || keyId !in listed.value {
        return None;
      }
      if groups.Some? {
        userGroups := userGroups[user := groups.value];
      }
      var config := GetUserConfig(confFile.value, user, GroupsIn(userGroups, user), netinfo.value, render);
      return if config.Success? then Some((config.value, keyId)) else None;
    }
  }

  // The hash leads to a key that is still listed.
  predicate Finds(byHash: Table, hash: string, listed: Option<seq<string>>) {
    hash in byHash && byHash[hash] != "" && listed.Some? && byHash[hash] in listed.value
  }

  // A key on record has the hash and is still listed.
  predicate Owns(byId: Table, hash: string, listed: Option<seq<string>>) {
    listed.Some? && exists id :: id in byId && byId[id] == hash && id in listed.value
  }

  // The hash is one, and so is every id on record.
  predicate Named(byId: Table, hash: string) {
    hash != "" && "" !in byId
  }

  /** Where the tables are inverse and hashes distinct, a hash finds a listed key exactly when a listed key has it. */
  lemma FindsIffOwns(byId: Table, byHash: Table, hash: string, listed: Option<seq<string>>)
    requires Inverse(byId, byHash) && DistinctHashes(byId) && Named(byId, hash)
    ensures Finds(byHash, hash, listed) <==> Owns(byId, hash, listed)
  {
    if Owns(byId, hash, listed) {
      var id :| id in byId && byId[id] == hash && id in listed.value;
      HashLeadsBack(byId, byHash, id);
    }
  }

  // The groups told now, or those told last.
  function Told(groups: Option<seq<string>>, userGroups: Groups, user: string): seq<string> {
    if groups.Some? then groups.value else GroupsIn(userGroups, user)
  }

  // A user with a section or in a group the configuration declares.
  ghost predicate Belongs(conf: Config, fetchGroup: string -> Option<seq<string>>, user: string) {
    user in conf.users || GroupsOf(conf.groups.Keys, fetchGroup, user) != {}
  }

  // The networks and every group the configuration declares can be fetched.
  ghost predicate Available(conf: Config, info: Option<NetworkInfo>, fetchGroup: string -> Option<seq<string>>) {
    info.Some? && forall g | g in conf.groups :: fetchGroup(g).Some?
  }

  lemma AvailableMeans(conf: Config, info: Option<NetworkInfo>, fetchGroup: string -> Option<seq<string>>)
    ensures Available(conf, info, fetchGroup) <==> !(info.None? || exists g | g in conf.groups :: fetchGroup(g).None?)
  {
  }

  // The key list and the new keys of every user that belongs to the configuration can be fetched.
  ghost predicate AllFetchable(
    conf: Config, fetchGroup: string -> Option<seq<string>>, fetchKeys: string -> Option<seq<string>>,
    answerOf: string -> string -> KeyAnswer, tables: map<string, Table>)
  {
    forall u | Belongs(conf, fetchGroup, u) :: Fetchable(fetchKeys(u), KnownOf(tables, u), answerOf(u))
  }

  lemma MembersFetchable(
    members: set<string>, conf: Config, fetchGroup: string -> Option<seq<string>>,
    fetchKeys: string -> Option<seq<string>>, answerOf: string -> string -> KeyAnswer, tables: map<string, Table>)
    requires forall u :: u in members <==> Belongs(conf, fetchGroup, u)
    requires forall u | u in members :: Fetchable(fetchKeys(u), KnownOf(tables, u), answerOf(u))
    ensures AllFetchable(conf, fetchGroup, fetchKeys, answerOf, tables)
  {
    hide Belongs, Fetchable;
  }

  // The groups of every user that belongs to the configuration, as the backend tells them.
  ghost predicate Remembers(groups: Groups, conf: Config, fetchGroup: string -> Option<seq<string>>) {
    && (forall u :: u in groups <==> Belongs(conf, fetchGroup, u))
    && forall u :: Elements(GroupsIn(groups, u)) == GroupsOf(conf.groups.Keys, fetchGroup, u)
  }

  lemma RemembersMeans(groups: Groups, conf: Config, fetchGroup: string -> Option<seq<string>>)
    requires Remembers(groups, conf, fetchGroup)
    ensures forall u :: u in groups <==> Belongs(conf, fetchGroup, u)
    ensures forall u :: u in groups <==> u in conf.users || GroupsOf(conf.groups.Keys, fetchGroup, u) != {}
    ensures forall u :: Elements(GroupsIn(groups, u)) == GroupsOf(conf.groups.Keys, fetchGroup, u)
  {
  }

  lemma MembersBelong(conf: Config, fetchGroup: string -> Option<seq<string>>, groups: Groups)
    requires forall u :: u in groups <==> u in conf.users || GroupsOf(conf.groups.Keys, fetchGroup, u) != {}
    requires forall u :: Elements(GroupsIn(groups, u)) == GroupsOf(conf.groups.Keys, fetchGroup, u)
    ensures forall u :: u in groups <==> Belongs(conf, fetchGroup, u)
    ensures Remembers(groups, conf, fetchGroup)
  {
  }

  // Every user with access and listed keys, with those keys and the policy of the sections that apply.
  ghost predicate Answers(
    configs: map<string, VpnUser>, conf: Config, info: NetworkInfo, fetchGroup: string -> Option<seq<string>>,
    fetchKeys: string -> Option<seq<string>>, render: Iptables.Network -> string)
  {
    && (forall u ::
         u in configs <==>
           fetchKeys(u) != Some([]) && !Denied(conf, u, GroupsOf(conf.groups.Keys, fetchGroup, u)))
    && (forall u | u in configs :: fetchKeys(u).Some? && configs[u].keys == Elements(fetchKeys(u).value))
    && forall u | u in configs ::
         Describes(configs[u].config, Applicable(conf, u, GroupsOf(conf.groups.Keys, fetchGroup, u)), info, render)
  }

  method AnswersFor(
    conf: Config, info: NetworkInfo, groups: Groups, keys: map<string, set<string>>,
    ghost fetchGroup: string -> Option<seq<string>>, ghost fetchKeys: string -> Option<seq<string>>,
    render: Iptables.Network -> string)
    returns (configs: map<string, VpnUser>)
    requires Ordered(conf)
    requires forall u :: u in groups <==> u in conf.users || GroupsOf(conf.groups.Keys, fetchGroup, u) != {}
    requires forall u :: Elements(GroupsIn(groups, u)) == GroupsOf(conf.groups.Keys, fetchGroup, u)
    requires forall u | u in groups :: fetchKeys(u).Some?
    requires keys == ListedKeys(groups.Keys, fetchKeys)
    ensures Answers(configs, conf, info, fetchGroup, fetchKeys, render) && configs.Keys == keys.Keys
  {
    hide Denied, Ordered, Describes, Applicable, Elements, GroupsOf, ListedKeys;
    forall u
      ensures u in groups <==> !Denied(conf, u, GroupsOf(conf.groups.Keys, fetchGroup, u))
    {
      MembersNotDenied(conf, fetchGroup, u);
    }
    ListedMeans(groups.Keys, fetchKeys);
    var made := ConfigsFor(conf, info, groups, keys, render);
    configs := made.value;
  }

  // Members are never denied a configuration: the loop over them has no failing round.
  method ConfigsFor(
    conf: Config, info: NetworkInfo, groups: Groups, keys: map<string, set<string>>, render: Iptables.Network -> string)
    returns (r: Option<map<string, VpnUser>>)
    requires Ordered(conf)
    requires forall u | u in keys :: !Denied(conf, u, Elements(GroupsIn(groups, u)))
    ensures r.Some? && r.value.Keys == keys.Keys
    ensures forall u | u in keys :: r.value[u].keys == keys[u]
    ensures forall u | u in keys ::
      Describes(r.value[u].config, Applicable(conf, u, Elements(GroupsIn(groups, u))), info, render)
  {
    hide Denied, Ordered, Describes, Applicable, Elements;
    var configs: map<string, VpnUser> := map[];
    var rest := keys.Keys;
    while rest != {}
      invariant rest <= keys.Keys && configs.Keys == keys.Keys - rest
      invariant forall u | u in configs :: configs[u].keys == keys[u]
      invariant forall u | u in configs ::
        Describes(configs[u].config, Applicable(conf, u, Elements(GroupsIn(groups, u))), info, render)
    {
      var user :| user in rest;
      rest := rest - {user};
      var config := GetUserConfig(conf, user, GroupsIn(groups, user), info, render);
      if config.Failure? {
        return None;
      }
      configs := configs[user := VpnUser(keys[user], config.value)];
    }
    r := Some(configs);
  }

  lemma MembersNotDenied(conf: Config, fetchGroup: string -> Option<seq<string>>, user: string)
    ensures Denied(conf, user, GroupsOf(conf.groups.Keys, fetchGroup, user)) <==>
      !(user in conf.users || GroupsOf(conf.groups.Keys, fetchGroup, user) != {})
  {
  }

  // The new keys while certificates are still being made for the ids in `rest`.
  function Fetched(all: set<string>, rest: set<string>, answerOf: string -> KeyAnswer, least: nat): Table {
    map id | id in all :: if id in rest then "" else HashFor(answerOf(id), least)
  }

  lemma FetchedNext(all: set<string>, rest: set<string>, answerOf: string -> KeyAnswer, least: nat, id: string)
    requires id in rest && rest <= all
    ensures Fetched(all, rest, answerOf, least)[id := HashFor(answerOf(id), least)]
      == Fetched(all, rest - {id}, answerOf, least)
  {
  }

  // One certificate was made for each accepted key, and for no other.
  ghost predicate MadeFor(made: seq<Call>, user: string, ids: set<string>, answerOf: string -> KeyAnswer, least: nat) {
    Distinct(made) && Elements(made) == MakeCalls(user, ids, answerOf, least)
  }

  // Certificates were made for some of the accepted keys, for each at most once.
  ghost predicate PartlyMade(
    made: seq<Call>, user: string, ids: set<string>, answerOf: string -> KeyAnswer, least: nat)
  {
    exists some :: some <= ids && MadeFor(made, user, some, answerOf, least)
  }

  // What one user's update asks of the certificate manager, in order.
  datatype Round = Round(user: string, made: seq<Call>, removed: seq<string>)

  function CallsIn(r: Round): seq<Call> {
    r.made + Withdrawals(r.removed)
  }

  // A complete round makes a certificate for each accepted new key and withdraws each id that goes, once;
  // one that is broken off has made some of the certificates.
  ghost predicate RoundFor(
    r: Round, known: Table, keyIds: set<string>, answerOf: string -> KeyAnswer, least: nat, complete: bool)
  {
    if complete then
      && MadeFor(r.made, r.user, keyIds - known.Keys, answerOf, least)
      && Distinct(r.removed) && Elements(r.removed) == known.Keys - keyIds
    else PartlyMade(r.made, r.user, keyIds - known.Keys, answerOf, least) && r.removed == []
  }

  // Every round is that of a member with listed keys, one each; the round of `broken` was broken off.
  ghost predicate RoundsMeet(
    rounds: seq<Round>, tables: map<string, Table>, fetchKeys: string -> Option<seq<string>>,
    answerOf: string -> string -> KeyAnswer, least: nat, broken: Option<string>)
  {
    && OneRoundEach(rounds)
    && forall r | r in rounds ::
         RoundMeets(r, KnownOf(tables, r.user), fetchKeys(r.user), answerOf(r.user), least, broken != Some(r.user))
  }

  // One user's tables: brought up to date with a listing, or unchanged without one.
  ghost predicate UserBrought(
    a: Cached, user: string, keyIds: Option<set<string>>, answerOf: string -> string -> KeyAnswer, least: nat,
    b: Cached)
  {
    if keyIds.Some? then
      Current(KnownOf(a.byId, user), KnownOf(a.byHash, user), keyIds.value, answerOf(user), least,
        KnownOf(b.byId, user), KnownOf(b.byHash, user))
    else KnownOf(b.byId, user) == KnownOf(a.byId, user) && KnownOf(b.byHash, user) == KnownOf(a.byHash, user)
  }

  function ListingOf(configs: map<string, set<string>>, user: string): Option<set<string>> {
    if user in configs then Some(configs[user]) else None
  }

  // The tables of the users in `configs` were brought up to date, and no others changed.
  ghost predicate AllBrought(
    a: Cached, configs: map<string, set<string>>, answerOf: string -> string -> KeyAnswer, least: nat, b: Cached)
  {
    && b.byId.Keys == a.byId.Keys + configs.Keys && b.byHash.Keys == a.byHash.Keys + configs.Keys
    && forall u :: UserBrought(a, u, ListingOf(configs, u), answerOf, least, b)
  }

  lemma NoneBrought(
    a: Cached, fetchKeys: string -> Option<seq<string>>, answerOf: string -> string -> KeyAnswer, least: nat)
    ensures ListedKeys({}, fetchKeys) == map[] && UsersOf([]) == {}
    ensures AllBrought(a, map[], answerOf, least, a)
    ensures forall broken :: RoundsMeet([], a.byId, fetchKeys, answerOf, least, broken)
  {
  }

  // One turn adds its member to what has been done so far.
  lemma MemberBrought(
    a: Cached, configs: map<string, set<string>>, user: string, keyIds: set<string>,
    answerOf: string -> string -> KeyAnswer, least: nat, now: Cached, next: Cached)
    requires user !in configs && AllBrought(a, configs, answerOf, least, now)
    requires Brought(now, user, keyIds, answerOf(user), least, next)
    ensures AllBrought(a, configs[user := keyIds], answerOf, least, next)
  {
    hide Current, Brought, KnownOf, UserBrought, ListingOf;
    BroughtFacts(now, user, keyIds, answerOf(user), least, next);
    var more := configs[user := keyIds];
    forall u
      ensures UserBrought(a, u, ListingOf(more, u), answerOf, least, next)
    {
      assert UserBrought(a, u, ListingOf(configs, u), answerOf, least, now);
      UserNext(a, configs, user, keyIds, answerOf, least, now, next, u);
    }
  }

  lemma UserNext(
    a: Cached, configs: map<string, set<string>>, user: string, keyIds: set<string>,
    answerOf: string -> string -> KeyAnswer, least: nat, now: Cached, next: Cached, u: string)
    requires user !in configs && UserBrought(a, u, ListingOf(configs, u), answerOf, least, now)
    requires Brought(now, user, keyIds, answerOf(user), least, next)
    ensures UserBrought(a, u, ListingOf(configs[user := keyIds], u), answerOf, least, next)
  {
    hide Current, Brought, KnownOf, UserBrought;
    BroughtFacts(now, user, keyIds, answerOf(user), least, next);
    if u == user {
      TurnBrought(a, user, None, answerOf, least, now, next, Some(keyIds));
    } else {
      TurnStays(a, configs, user, keyIds, answerOf, least, now, next, u);
    }
  }

  lemma TurnStays(
    a: Cached, configs: map<string, set<string>>, user: string, keyIds: set<string>,
    answerOf: string -> string -> KeyAnswer, least: nat, now: Cached, next: Cached, u: string)
    requires u != user && UserBrought(a, u, ListingOf(configs, u), answerOf, least, now)
    requires KnownOf(next.byId, u) == KnownOf(now.byId, u) && KnownOf(next.byHash, u) == KnownOf(now.byHash, u)
    ensures UserBrought(a, u, ListingOf(configs[user := keyIds], u), answerOf, least, next)
  {
    TurnBrought(a, u, ListingOf(configs, u), answerOf, least, now, next, ListingOf(configs, u));
  }

  lemma BroughtFacts(
    a: Cached, user: string, keyIds: set<string>, answerOf: string -> KeyAnswer, least: nat, b: Cached)
    requires Brought(a, user, keyIds, answerOf, least, b)
    ensures b.byId.Keys == a.byId.Keys + {user} && b.byHash.Keys == a.byHash.Keys + {user}
    ensures forall u | u != user :: KnownOf(b.byId, u) == KnownOf(a.byId, u)
    ensures forall u | u != user :: KnownOf(b.byHash, u) == KnownOf(a.byHash, u)
    ensures Current(KnownOf(a.byId, user), KnownOf(a.byHash, user), keyIds, answerOf, least,
      KnownOf(b.byId, user), KnownOf(b.byHash, user))
  {
    hide Current;
  }

  lemma TurnBrought(
    a: Cached, u: string, before: Option<set<string>>, answerOf: string -> string -> KeyAnswer, least: nat, now: Cached,
    next: Cached, after: Option<set<string>>)
    requires UserBrought(a, u, before, answerOf, least, now)
    requires
      || (after == before
          && KnownOf(next.byId, u) == KnownOf(now.byId, u) && KnownOf(next.byHash, u) == KnownOf(now.byHash, u))
      || (before.None? && after.Some?
          && Current(KnownOf(now.byId, u), KnownOf(now.byHash, u), after.value, answerOf(u), least,
               KnownOf(next.byId, u), KnownOf(next.byHash, u)))
    ensures UserBrought(a, u, after, answerOf, least, next)
  {
  }

  lemma Untouched(
    a: Cached, configs: map<string, set<string>>, answerOf: string -> string -> KeyAnswer, least: nat, now: Cached,
    user: string)
    requires user !in configs && AllBrought(a, configs, answerOf, least, now)
    ensures KnownOf(now.byId, user) == KnownOf(a.byId, user)
  {
    assert UserBrought(a, user, ListingOf(configs, user), answerOf, least, now);
  }

  lemma RoundsAlso(
    rounds: seq<Round>, more: seq<Round>, tables: map<string, Table>, fetchKeys: string -> Option<seq<string>>,
    answerOf: string -> string -> KeyAnswer, least: nat, user: string, failed: bool)
    requires RoundsMeet(rounds, tables, fetchKeys, answerOf, least, None) && user !in UsersOf(rounds)
    requires |more| == if Listed(fetchKeys(user)) then 1 else 0
    requires forall r | r in more ::
      r.user == user && RoundMeets(r, KnownOf(tables, user), fetchKeys(user), answerOf(user), least, !failed)
    ensures RoundsMeet(rounds + more, tables, fetchKeys, answerOf, least, if failed then Some(user) else None)
    ensures UsersOf(rounds + more) == UsersOf(rounds) + if Listed(fetchKeys(user)) then {user} else {}
  {
    hide RoundMeets, UsersOf, OneRoundEach;
    RoundsEach(rounds, more, user);
  }

  // The calls of several rounds, one round after the other.
  function CallsOf(rounds: seq<Round>): seq<Call> {
    if rounds == [] then [] else CallsOf(rounds[..|rounds| - 1]) + CallsIn(rounds[|rounds| - 1])
  }

  ghost predicate OneRoundEach(rounds: seq<Round>) {
    forall i, j | 0 <= i < j < |rounds| :: rounds[i].user != rounds[j].user
  }

  ghost function UsersOf(rounds: seq<Round>): set<string> {
    set r | r in rounds :: r.user
  }

  predicate Listed(keys: Option<seq<string>>) {
    keys.Some? && keys.value != []
  }

  lemma ListedMeansOne(keys: Option<seq<string>>)
    ensures Listed(keys) <==> keys.Some? && keys.value != []
  {
  }

  ghost predicate RoundMeets(
    r: Round, known: Table, keys: Option<seq<string>>, answerOf: string -> KeyAnswer, least: nat, complete: bool)
  {
    Listed(keys) && RoundFor(r, known, Elements(keys.value), answerOf, least, complete)
  }

  // The certificate manager after the rounds of an update. The server stops in the last round, if at all.
  ghost predicate Follows(
    n: Naming, mended: bool, x: C.Index, rounds: seq<Round>, outcome: Outcome, y: C.Index)
    requires C.Sound(x)
  {
    && (outcome.Stopped? <==> Reached(n, mended, x, CallsOf(rounds)).None?)
    && (!outcome.Stopped? ==> Reached(n, mended, x, CallsOf(rounds)) == Some(y))
    && (outcome.Stopped? ==> rounds != [] && Reached(n, mended, x, CallsOf(rounds[..|rounds| - 1])).Some?)
  }

  lemma FollowsOn(
    n: Naming, mended: bool, x: C.Index, rounds: seq<Round>, middle: C.Index, more: seq<Round>, outcome: Outcome,
    y: C.Index)
    requires C.Sound(x) && C.Sound(middle) && |more| <= 1
    requires Follows(n, mended, x, rounds, Done, middle) && Follows(n, mended, middle, more, outcome, y)
    ensures Follows(n, mended, x, rounds + more, outcome, y)
  {
    hide Reached, CallsOf, C.Sound;
    RoundsNext(n, mended, x, rounds, more);
    assert more != [] ==> (rounds + more)[..|rounds + more| - 1] == rounds;
  }

  lemma OneRound(round: Round)
    ensures CallsOf([round]) == CallsIn(round)
  {
    assert [round][..0] == [];
    assert [] + CallsIn(round) == CallsIn(round);
  }

  lemma NoRounds(n: Naming, mended: bool, x: C.Index)
    requires C.Sound(x)
    ensures CallsOf([]) == [] && Reached(n, mended, x, CallsOf([])) == Some(x)
    ensures Follows(n, mended, x, [], Done, x) && Follows(n, mended, x, [], Failed, x)
    ensures OneRoundEach([]) && UsersOf([]) == {}
  {
    ReachedNone(n, mended, x);
  }

  lemma RoundsNext(n: Naming, mended: bool, x: C.Index, rounds: seq<Round>, more: seq<Round>)
    requires C.Sound(x) && (more == [] || |more| == 1)
    ensures CallsOf(rounds + more) == CallsOf(rounds) + CallsOf(more)
    ensures Reached(n, mended, x, CallsOf(rounds + more)) ==
      if Reached(n, mended, x, CallsOf(rounds)).None? then None
      else Reached(n, mended, Reached(n, mended, x, CallsOf(rounds)).value, CallsOf(more))
  {
    hide Reached, C.Sound, CallsIn;
    if more == [] {
      assert rounds + more == rounds && CallsOf(rounds) + [] == CallsOf(rounds);
    } else {
      assert (rounds + more)[..|rounds|] == rounds;
      OneRound(more[0]);
    }
    ReachedConcat(n, mended, x, CallsOf(rounds), CallsOf(more));
  }

  lemma RoundsEach(rounds: seq<Round>, more: seq<Round>, user: string)
    requires OneRoundEach(rounds) && user !in UsersOf(rounds)
    requires |more| <= 1 && forall r | r in more :: r.user == user
    ensures OneRoundEach(rounds + more) && forall r | r in rounds :: r.user != user
    ensures UsersOf(rounds + more) == UsersOf(rounds) + if more == [] then {} else {user}
  {
    assert forall r | r in rounds :: r.user in UsersOf(rounds);
    forall u
      ensures u in UsersOf(rounds + more) <==> u in UsersOf(rounds) || (more != [] && u == user)
    {
      if u in UsersOf(rounds) {
        var r :| r in rounds && r.user == u;
        assert r in rounds + more;
      }
      if more != [] {
        assert more[0] in rounds + more;
      }
    }
  }

  lemma NothingMade(user: string, answerOf: string -> KeyAnswer, least: nat)
    ensures MadeFor([], user, {}, answerOf, least)
  {
  }

  lemma MadeNext(made: seq<Call>, user: string, ids: set<string>, answerOf: string -> KeyAnswer, least: nat, id: string)
    requires MadeFor(made, user, ids, answerOf, least) && id !in ids
    ensures Accepts(answerOf(id), least) ==>
      MadeFor(made + [Make(user, id, answerOf(id).hash)], user, ids + {id}, answerOf, least)
    ensures !Accepts(answerOf(id), least) ==> MadeFor(made, user, ids + {id}, answerOf, least)
  {
    if Accepts(answerOf(id), least) {
      var call := Make(user, id, answerOf(id).hash);
      ElementsAppend(made, call);
      assert call !in Elements(made);
      assert MakeCalls(user, ids + {id}, answerOf, least) == MakeCalls(user, ids, answerOf, least) + {call};
    } else {
      assert MakeCalls(user, ids + {id}, answerOf, least) == MakeCalls(user, ids, answerOf, least);
    }
  }

  function Withdrawals(removed: seq<string>): (calls: seq<Call>)
    ensures |calls| == |removed|
  {
    seq(|removed|, i requires 0 <= i < |removed| => Withdraw(removed[i]))
  }

  lemma WithdrawalsNext(removed: seq<string>, i: nat)
    requires i < |removed|
    ensures Withdrawals(removed[..i + 1]) == Withdrawals(removed[..i]) + [Withdraw(removed[i])]
  {
  }

  lemma WithdrawalsFrom(removed: seq<string>, i: nat)
    requires i <= |removed|
    ensures Withdrawals(removed) == Withdrawals(removed[..i]) + Withdrawals(removed[i..])
  {
  }

  lemma NoWithdrawals()
    ensures Withdrawals([]) == [] && Distinct<string>([]) && Elements<string>([]) == {}
  {
  }

  /** Equal counts and no unknown id: the tables are already what an update would make of them. */
  lemma NothingToDo(known: Table, hashes: Table, keyIds: set<string>)
    requires keyIds <= known.Keys && |keyIds| == |known|
    ensures keyIds == known.Keys && Kept(known, keyIds) + map[] == known
    ensures Overwritten(hashes - DroppedHashes(known, keyIds), map[], hashes)
  {
    hide Overwritten;
    assert |known.Keys| == |known|;
    SubsetOfSize(keyIds, known.Keys);
    assert DroppedHashes(known, keyIds) == {};
    assert hashes - {} == hashes;
    NothingEntered(hashes);
  }

  // The ids the backend lists for each member that has any.
  function ListedKeys(members: set<string>, fetchKeys: string -> Option<seq<string>>): map<string, set<string>> {
    map u | u in members && fetchKeys(u).Some? && fetchKeys(u).value != [] :: Elements(fetchKeys(u).value)
  }

  lemma ListedMeans(members: set<string>, fetchKeys: string -> Option<seq<string>>)
    ensures forall u ::
      u in ListedKeys(members, fetchKeys) <==> u in members && fetchKeys(u).Some? && fetchKeys(u) != Some([])
    ensures forall u | u in ListedKeys(members, fetchKeys) ::
      ListedKeys(members, fetchKeys)[u] == Elements(fetchKeys(u).value)
  {
  }

  lemma ListedAgain(members: set<string>, fetchKeys: string -> Option<seq<string>>)
    ensures ListedKeys(ListedKeys(members, fetchKeys).Keys, fetchKeys) == ListedKeys(members, fetchKeys)
  {
  }

  lemma ListedNext(members: set<string>, fetchKeys: string -> Option<seq<string>>, user: string)
    requires user !in members
    ensures ListedKeys({}, fetchKeys) == map[] && user !in ListedKeys(members, fetchKeys)
    ensures ListedKeys(members + {user}, fetchKeys) ==
      if fetchKeys(user).None? || fetchKeys(user).value == [] then ListedKeys(members, fetchKeys)
      else ListedKeys(members, fetchKeys)[user := Elements(fetchKeys(user).value)]
  {
  }

  ghost predicate Fetchable(keys: Option<seq<string>>, known: Table, answerOf: string -> KeyAnswer) {
    keys.Some? && forall id | id in keys.value && id !in known :: !answerOf(id).Broken?
  }

  lemma FetchedMeans(
    members: set<string>, fetchKeys: string -> Option<seq<string>>, tables: map<string, Table>,
    answerOf: string -> string -> KeyAnswer)
    requires forall u | u in members :: Fetchable(fetchKeys(u), KnownOf(tables, u), answerOf(u))
    ensures forall u | u in members :: fetchKeys(u).Some?
  {
  }

  lemma FetchableMeans(keys: seq<string>, known: Table, answerOf: string -> KeyAnswer)
    ensures Fetchable(Some(keys), known, answerOf) <==> !exists id | id in keys && id !in known :: answerOf(id).Broken?
    ensures !Fetchable(None, known, answerOf)
    ensures Fetchable(Some([]), known, answerOf)
  {
  }

  /** Where accepted keys have different hashes, the hash of each leads back to it. */
  lemma HashLeadsBack(byId: Table, byHash: Table, id: string)
    requires Inverse(byId, byHash) && DistinctHashes(byId) && id in byId && byId[id] != ""
    ensures byId[id] in byHash && byHash[byId[id]] == id
  {
    assert byId[id] in byId.Values;
  }
}
