/**
 Key cache and certificates together. A turn is one user's listing, carried through or broken off; a run
 is any number of turns. What the buckets hold after a run is accounted for to the last certificate: one
 for each accepted key on record, and those that turns broken off have left behind.
 */
module KeyIndex {
  import opened Wrappers
  import opened Sequences
  import opened CertTables
  import opened CertRecord
  import K = Keys

  type Tables = map<string, K.Table>

  // What the backend lists for a user, and what it and the key parser say about each id.
  datatype Listing = Listing(user: string, keyIds: set<string>, answerOf: string -> K.KeyAnswer, least: nat)

  datatype System = System(tables: Tables, index: Index)

  // An id belongs to one user.
  ghost predicate OneOwner(tables: Tables) {
    forall u, v, id | u in tables && v in tables && id in tables[u] && id in tables[v] :: u == v
  }

  // Every accepted key's name is live and stands for the certificate made for the key.
  ghost predicate Certified(tables: Tables, n: K.Naming, x: Index) {
    forall u, id | u in tables && id in K.Accepted(tables[u]) ::
      Stands(x, id, K.EntryFor(n, u, tables[u][id]))
  }

  // The accepted keys whose certificate is this one; all of them are of the user it names.
  ghost function Bearing(tables: Tables, n: K.Naming, e: Entry): set<string> {
    var known := K.KnownOf(tables, e.1.cn);
    set id | id in K.Accepted(known) && K.EntryFor(n, e.1.cn, known[id]) == e
  }

  // The buckets hold one certificate for each accepted key, and the extra ones.
  ghost predicate Accounted(tables: Tables, n: K.Naming, x: Index, extra: multiset<Entry>)
    requires Sound(x)
  {
    forall h, c :: HeldIn(x, h)[c] == |Bearing(tables, n, (h, c))| + extra[(h, c)]
  }

  ghost predicate InStep(s: System, n: K.Naming, extra: multiset<Entry>) {
    Sound(s.index) && OneOwner(s.tables) && Certified(s.tables, n, s.index) && Accounted(s.tables, n, s.index, extra)
  }

  // Nobody has this id on record as accepted.
  ghost predicate Unclaimed(tables: Tables, id: string) {
    forall u | u in tables :: id !in K.Accepted(tables[u])
  }

  function WithKey(tables: Tables, user: string, id: string, hash: string): Tables {
    tables[user := K.KnownOf(tables, user)[id := hash]]
  }

  lemma BearingMore(tables: Tables, n: K.Naming, user: string, id: string, hash: string, e: Entry)
    requires id !in K.KnownOf(tables, user) && hash != ""
    ensures |Bearing(WithKey(tables, user, id, hash), n, e)| ==
      |Bearing(tables, n, e)| + if e == K.EntryFor(n, user, hash) then 1 else 0
  {
    var more := Bearing(WithKey(tables, user, id, hash), n, e);
    assert more == Bearing(tables, n, e) + if e == K.EntryFor(n, user, hash) then {id} else {};
  }

  lemma BearingLess(tables: Tables, n: K.Naming, user: string, id: string, e: Entry)
    requires user in tables && id in K.Accepted(tables[user])
    ensures |Bearing(tables[user := tables[user] - {id}], n, e)| ==
      |Bearing(tables, n, e)| - if e == K.EntryFor(n, user, tables[user][id]) then 1 else 0
  {
    var less := Bearing(tables[user := tables[user] - {id}], n, e);
    assert less == Bearing(tables, n, e) - if e == K.EntryFor(n, user, tables[user][id]) then {id} else {};
    assert e == K.EntryFor(n, user, tables[user][id]) ==> id in Bearing(tables, n, e);
  }

  lemma MakeAccounted(s: System, n: K.Naming, extra: multiset<Entry>, user: string, id: string, hash: string)
    requires Sound(s.index) && Accounted(s.tables, n, s.index, extra)
    requires hash != "" && id !in K.KnownOf(s.tables, user)
    ensures var (bucket, cert) := K.EntryFor(n, user, hash);
      var y := Added(s.index, bucket, cert, Some(id));
      Sound(y) && Accounted(WithKey(s.tables, user, id, hash), n, y, extra)
  {
    hide Sound, Added, HeldIn, Bearing, WithKey;
    var (bucket, cert) := K.EntryFor(n, user, hash);
    var y := Added(s.index, bucket, cert, Some(id));
    AddedHeld(s.index, bucket, cert, Some(id));
    forall h, c
      ensures HeldIn(y, h)[c] == |Bearing(WithKey(s.tables, user, id, hash), n, (h, c))| + extra[(h, c)]
    {
      BearingMore(s.tables, n, user, id, hash, (h, c));
      assert HeldIn(s.index, h)[c] == |Bearing(s.tables, n, (h, c))| + extra[(h, c)];
    }
  }

  lemma MakeCertified(s: System, n: K.Naming, user: string, id: string, hash: string)
    requires Sound(s.index) && Certified(s.tables, n, s.index)
    requires hash != "" && forall u | u in s.tables :: id !in s.tables[u]
    ensures var (bucket, cert) := K.EntryFor(n, user, hash);
      Certified(WithKey(s.tables, user, id, hash), n, Added(s.index, bucket, cert, Some(id)))
  {
    hide Sound, Added, HeldIn, Stands;
    var (bucket, cert) := K.EntryFor(n, user, hash);
    AddedNames(s.index, bucket, cert, Some(id));
    var more := WithKey(s.tables, user, id, hash);
    forall u, k | u in more && k in K.Accepted(more[u])
      ensures Stands(Added(s.index, bucket, cert, Some(id)), k, K.EntryFor(n, u, more[u][k]))
    {
      if k != id {
        assert u in s.tables && k in K.Accepted(s.tables[u]);
      }
    }
  }

  // A certificate made for a key that is recorded with it.
  lemma MakeRecorded(
    s: System, n: K.Naming, extra: multiset<Entry>, user: string, id: string, hash: string, mended: bool)
    requires InStep(s, n, extra) && hash != ""
    requires forall u | u in s.tables :: id !in s.tables[u]
    ensures var y := Step(s.index, K.OperationFor(n, K.Make(user, id, hash)), mended);
      y.Some? && InStep(System(WithKey(s.tables, user, id, hash), y.value), n, extra)
  {
    hide Sound, Added, Accounted, Certified;
    MakeAccounted(s, n, extra, user, id, hash);
    MakeCertified(s, n, user, id, hash);
  }

  // A certificate made by a turn that is then broken off: it stands for no key on record.
  lemma MakeLeft(s: System, n: K.Naming, extra: multiset<Entry>, user: string, id: string, hash: string, mended: bool)
    requires InStep(s, n, extra) && Unclaimed(s.tables, id)
    ensures var y := Step(s.index, K.OperationFor(n, K.Make(user, id, hash)), mended);
      y.Some? && InStep(System(s.tables, y.value), n, extra + multiset{K.EntryFor(n, user, hash)})
  {
    hide Sound, Added, HeldIn, Bearing, Stands, OneOwner;
    var (bucket, cert) := K.EntryFor(n, user, hash);
    var y := Added(s.index, bucket, cert, Some(id));
    AddedHeld(s.index, bucket, cert, Some(id));
    AddedNames(s.index, bucket, cert, Some(id));
    forall h, c
      ensures HeldIn(y, h)[c] == |Bearing(s.tables, n, (h, c))| + (extra + multiset{(bucket, cert)})[(h, c)]
    {
      assert HeldIn(s.index, h)[c] == |Bearing(s.tables, n, (h, c))| + extra[(h, c)];
    }
  }

  // A certificate withdrawn with its key, which does not stop the server.
  lemma WithdrawRecorded(s: System, n: K.Naming, extra: multiset<Entry>, user: string, id: string, mended: bool)
    requires InStep(s, n, extra) && user in s.tables && id in K.Accepted(s.tables[user])
    ensures var y := Step(s.index, K.OperationFor(n, K.Withdraw(id)), mended);
      y.Some? && InStep(System(s.tables[user := s.tables[user] - {id}], y.value), n, extra)
  {
    hide Sound, Removed, HeldIn, Bearing, EntryOf, Accounted, Certified, Live;
    CertifiedHas(s.tables, n, s.index, user, id);
    RemovedOwn(s.index, id, mended);
    WithdrawAccounted(s, n, extra, user, id, mended);
    WithdrawCertified(s, n, user, id, mended);
  }

  lemma CertifiedHas(tables: Tables, n: K.Naming, x: Index, user: string, id: string)
    requires Certified(tables, n, x) && user in tables && id in K.Accepted(tables[user])
    ensures Stands(x, id, K.EntryFor(n, user, tables[user][id]))
  {
  }

  lemma WithdrawAccounted(s: System, n: K.Naming, extra: multiset<Entry>, user: string, id: string, mended: bool)
    requires Sound(s.index) && Certified(s.tables, n, s.index) && Accounted(s.tables, n, s.index, extra)
    requires user in s.tables && id in K.Accepted(s.tables[user])
    ensures var y := Removed(s.index, id, mended);
      y.Some? && Sound(y.value) && Accounted(s.tables[user := s.tables[user] - {id}], n, y.value, extra)
  {
    hide Sound, Removed, HeldIn, Bearing, Live;
    CertifiedHas(s.tables, n, s.index, user, id);
    RemovedOwn(s.index, id, mended);
    var y := Removed(s.index, id, mended).value;
    var entry := K.EntryFor(n, user, s.tables[user][id]);
    forall h, c
      ensures HeldIn(y, h)[c] == |Bearing(s.tables[user := s.tables[user] - {id}], n, (h, c))| + extra[(h, c)]
    {
      BearingLess(s.tables, n, user, id, (h, c));
      assert HeldIn(s.index, h)[c] == |Bearing(s.tables, n, (h, c))| + extra[(h, c)];
      LessHeld(HeldIn(s.index, h), entry, h, c);
    }
  }

  lemma LessHeld(held: multiset<Certificate>, entry: Entry, h: string, c: Certificate)
    requires (h, c) == entry ==> held[c] > 0
    ensures (held - if h == entry.0 then multiset{entry.1} else multiset{})[c]
      == held[c] - if (h, c) == entry then 1 else 0
  {
  }

  lemma WithdrawCertified(s: System, n: K.Naming, user: string, id: string, mended: bool)
    requires Sound(s.index) && OneOwner(s.tables) && Certified(s.tables, n, s.index)
    requires user in s.tables && id in K.Accepted(s.tables[user])
    ensures var y := Removed(s.index, id, mended);
      y.Some? && Certified(s.tables[user := s.tables[user] - {id}], n, y.value)
  {
    hide Removed, HeldIn, AtPlace, Placed;
    CertifiedHas(s.tables, n, s.index, user, id);
    RemovedOwn(s.index, id, mended);
    var less := s.tables[user := s.tables[user] - {id}];
    forall u, k | u in less && k in K.Accepted(less[u])
      ensures Stands(Removed(s.index, id, mended).value, k, K.EntryFor(n, u, less[u][k]))
    {
      assert k in K.Accepted(s.tables[u]) && k != id;
      CertifiedHas(s.tables, n, s.index, u, k);
    }
  }

  // Two caches with the same accepted keys. Keys that were not accepted have no certificate.
  ghost predicate SameAccepted(a: Tables, b: Tables) {
    forall u ::
      && K.Accepted(K.KnownOf(a, u)) == K.Accepted(K.KnownOf(b, u))
      && forall id | id in K.Accepted(K.KnownOf(a, u)) :: K.KnownOf(a, u)[id] == K.KnownOf(b, u)[id]
  }

  lemma Recast(s: System, tables: Tables, n: K.Naming, extra: multiset<Entry>)
    requires InStep(s, n, extra) && OneOwner(tables) && SameAccepted(s.tables, tables)
    ensures InStep(System(tables, s.index), n, extra)
  {
    hide Sound, HeldIn, Stands, OneOwner;
    forall u, id | u in tables && id in K.Accepted(tables[u])
      ensures Stands(s.index, id, K.EntryFor(n, u, tables[u][id]))
    {
      assert id in K.Accepted(K.KnownOf(s.tables, u));
    }
    forall h, c
      ensures Bearing(tables, n, (h, c)) == Bearing(s.tables, n, (h, c))
    {
      assert K.Accepted(K.KnownOf(s.tables, c.cn)) == K.Accepted(K.KnownOf(tables, c.cn));
    }
  }

  function MadeTable(made: seq<K.Call>): K.Table {
    if made == [] then map[]
    else
      var last := made[|made| - 1];
      if last.Make? then MadeTable(made[..|made| - 1])[last.id := last.hash] else MadeTable(made[..|made| - 1])
  }

  function EntriesOf(n: K.Naming, made: seq<K.Call>): multiset<Entry> {
    if made == [] then multiset{}
    else
      var last := made[|made| - 1];
      EntriesOf(n, made[..|made| - 1])
        + if last.Make? then multiset{K.EntryFor(n, last.user, last.hash)} else multiset{}
  }

  // Certificates for one user's keys that nobody has on record, each key once.
  ghost predicate FreshMakes(tables: Tables, user: string, made: seq<K.Call>) {
    && (forall c | c in made ::
          c.Make? && c.user == user && c.hash != "" && forall u | u in tables :: c.id !in tables[u])
    && forall i, j | 0 <= i < j < |made| :: made[i].id != made[j].id
  }

  lemma FreshPrefix(tables: Tables, user: string, made: seq<K.Call>)
    requires FreshMakes(tables, user, made) && made != []
    ensures FreshMakes(tables, user, made[..|made| - 1])
    ensures made[|made| - 1] in made
  {
    assert forall c | c in made[..|made| - 1] :: c in made;
  }

  lemma {:induction false} MadeTableKeys(made: seq<K.Call>)
    ensures forall id :: id in MadeTable(made) <==> exists c :: c in made && c.Make? && c.id == id
  {
    if made != [] {
      var most, last := made[..|made| - 1], made[|made| - 1];
      MadeTableKeys(most);
      assert forall c :: c in made <==> c in most || c == last;
    }
  }

  // The user's keys with those made entered.
  function WithMade(tables: Tables, user: string, made: seq<K.Call>): Tables {
    tables[user := K.KnownOf(tables, user) + MadeTable(made)]
  }

  lemma WithMadeNext(tables: Tables, user: string, made: seq<K.Call>)
    requires FreshMakes(tables, user, made) && made != []
    ensures var most, last := made[..|made| - 1], made[|made| - 1];
      && WithMade(tables, user, made) == WithKey(WithMade(tables, user, most), user, last.id, last.hash)
      && forall u | u in WithMade(tables, user, most) :: last.id !in WithMade(tables, user, most)[u]
  {
    var most, last := made[..|made| - 1], made[|made| - 1];
    NotYetMade(tables, user, made);
    hide FreshMakes;
    var known := K.KnownOf(tables, user);
    assert known + MadeTable(most)[last.id := last.hash] == (known + MadeTable(most))[last.id := last.hash];
    Replaced(tables, user, known + MadeTable(most), (known + MadeTable(most))[last.id := last.hash]);
  }

  lemma NotYetMade(tables: Tables, user: string, made: seq<K.Call>)
    requires FreshMakes(tables, user, made) && made != []
    ensures var most, last := made[..|made| - 1], made[|made| - 1];
      last.Make? && last.id !in MadeTable(most) && forall u | u in tables :: last.id !in tables[u]
  {
    var most, last := made[..|made| - 1], made[|made| - 1];
    hide MadeTable;
    MadeTableKeys(most);
    assert last in made;
    assert forall i | 0 <= i < |most| :: most[i].id != last.id;
  }

  lemma Replaced(tables: Tables, user: string, a: K.Table, b: K.Table)
    ensures tables[user := a][user := b] == tables[user := b]
  {
  }

  lemma {:induction false} MakesRecorded(
    s: System, n: K.Naming, mended: bool, extra: multiset<Entry>, user: string, made: seq<K.Call>)
    requires InStep(s, n, extra) && FreshMakes(s.tables, user, made)
    ensures K.Reached(n, mended, s.index, made).Some?
    ensures InStep(System(WithMade(s.tables, user, made), K.Reached(n, mended, s.index, made).value), n, extra)
  {
    hide Sound, FreshMakes, InStep, WithMade, Step, WithKey;
    SoundInStep(s, n, extra);
    if made == [] {
      K.ReachedNone(n, mended, s.index);
      WithNoneMade(s, n, extra, user);
    } else {
      var most, last := made[..|made| - 1], made[|made| - 1];
      assert made == most + [last];
      FreshPrefix(s.tables, user, made);
      FreshLast(s.tables, user, made);
      MakesRecorded(s, n, mended, extra, user, most);
      K.ReachedNext(n, mended, s.index, most, last);
      WithMadeNext(s.tables, user, made);
      MakeRecorded(System(WithMade(s.tables, user, most), K.Reached(n, mended, s.index, most).value),
        n, extra, user, last.id, last.hash, mended);
    }
  }

  lemma SoundInStep(s: System, n: K.Naming, extra: multiset<Entry>)
    requires InStep(s, n, extra)
    ensures Sound(s.index)
  {
  }

  lemma FreshLast(tables: Tables, user: string, made: seq<K.Call>)
    requires FreshMakes(tables, user, made) && made != []
    ensures var last := made[|made| - 1];
      last.Make? && last == K.Make(user, last.id, last.hash) && last.hash != "" && Unclaimed(tables, last.id)
  {
    assert made[|made| - 1] in made;
  }

  lemma WithNoneMade(s: System, n: K.Naming, extra: multiset<Entry>, user: string)
    requires InStep(s, n, extra)
    ensures InStep(System(WithMade(s.tables, user, []), s.index), n, extra)
  {
    hide InStep;
    var same := WithMade(s.tables, user, []);
    assert K.KnownOf(s.tables, user) + MadeTable([]) == K.KnownOf(s.tables, user);
    assert forall u :: K.KnownOf(same, u) == K.KnownOf(s.tables, u);
    OwnersInStep(s, n, extra);
    Recast(s, same, n, extra);
  }

  lemma OwnersInStep(s: System, n: K.Naming, extra: multiset<Entry>)
    requires InStep(s, n, extra)
    ensures OneOwner(s.tables)
  {
  }

  lemma {:induction false} MakesLeft(
    s: System, n: K.Naming, mended: bool, extra: multiset<Entry>, user: string, made: seq<K.Call>)
    requires InStep(s, n, extra) && FreshMakes(s.tables, user, made)
    ensures K.Reached(n, mended, s.index, made).Some?
    ensures InStep(System(s.tables, K.Reached(n, mended, s.index, made).value), n, extra + EntriesOf(n, made))
  {
    hide Sound, FreshMakes, InStep, Step, Unclaimed;
    SoundInStep(s, n, extra);
    if made == [] {
      K.ReachedNone(n, mended, s.index);
      assert extra + multiset{} == extra;
    } else {
      var most, last := made[..|made| - 1], made[|made| - 1];
      assert made == most + [last];
      FreshPrefix(s.tables, user, made);
      FreshLast(s.tables, user, made);
      MakesLeft(s, n, mended, extra, user, most);
      K.ReachedNext(n, mended, s.index, most, last);
      MakeLeft(System(s.tables, K.Reached(n, mended, s.index, most).value), n, extra + EntriesOf(n, most),
        user, last.id, last.hash, mended);
      assert extra + EntriesOf(n, made) == extra + EntriesOf(n, most) + multiset{K.EntryFor(n, user, last.hash)};
    }
  }

  lemma {:induction false} WithdrawalsRecorded(
    s: System, n: K.Naming, mended: bool, extra: multiset<Entry>, user: string, removed: seq<string>)
    requires InStep(s, n, extra) && user in s.tables
    requires Distinct(removed) && Elements(removed) <= K.Accepted(s.tables[user])
    ensures K.Reached(n, mended, s.index, K.Withdrawals(removed)).Some?
    ensures InStep(System(s.tables[user := s.tables[user] - Elements(removed)],
      K.Reached(n, mended, s.index, K.Withdrawals(removed)).value), n, extra)
  {
    hide Sound, InStep, Step, K.Withdrawals;
    SoundInStep(s, n, extra);
    if removed == [] {
      K.NoWithdrawals();
      K.ReachedNone(n, mended, s.index);
      assert s.tables[user] - Elements([]) == s.tables[user] by { assert Elements<string>([]) == {}; }
      assert s.tables[user := s.tables[user]] == s.tables;
    } else {
      var most, last := removed[..|removed| - 1], removed[|removed| - 1];
      assert removed == most + [last];
      ElementsAppend(most, last);
      K.WithdrawalsNext(removed, |most|);
      assert removed[..|most| + 1] == removed;
      WithdrawalsRecorded(s, n, mended, extra, user, most);
      K.ReachedNext(n, mended, s.index, K.Withdrawals(most), K.Withdraw(last));
      var less := s.tables[user := s.tables[user] - Elements(most)];
      assert last !in Elements(most);
      WithdrawRecorded(
        System(less, K.Reached(n, mended, s.index, K.Withdrawals(most)).value), n, extra, user, last, mended);
      assert less[user] - {last} == s.tables[user] - Elements(removed);
      Replaced(s.tables, user, less[user], less[user] - {last});
    }
  }

  // What a listing has to respect: no other user's ids, real hashes, and no id that goes was rejected.
  ghost predicate Respects(tables: Tables, l: Listing) {
    && (forall u, id | u in tables && u != l.user && id in tables[u] :: id !in l.keyIds)
    && (forall id | id in l.keyIds && K.Accepts(l.answerOf(id), l.least) :: l.answerOf(id).hash != "")
    && K.KnownOf(tables, l.user).Keys - l.keyIds <= K.Accepted(K.KnownOf(tables, l.user))
  }

  function Listed(tables: Tables, l: Listing): Tables {
    tables[l.user := K.Updated(K.KnownOf(tables, l.user), l.keyIds, l.answerOf, l.least)]
  }

  ghost predicate RoundOf(r: K.Round, tables: Tables, l: Listing, complete: bool) {
    r.user == l.user && K.RoundFor(r, K.KnownOf(tables, l.user), l.keyIds, l.answerOf, l.least, complete)
  }

  lemma MadeAreFresh(tables: Tables, l: Listing, ids: set<string>, made: seq<K.Call>)
    requires Respects(tables, l) && ids <= l.keyIds - K.KnownOf(tables, l.user).Keys
    requires K.MadeFor(made, l.user, ids, l.answerOf, l.least)
    ensures FreshMakes(tables, l.user, made)
  {
    forall c | c in made
      ensures c.Make? && c.id in ids && K.Accepts(l.answerOf(c.id), l.least)
      ensures c == K.Make(l.user, c.id, l.answerOf(c.id).hash)
    {
      assert c in Elements(made) && c in K.MakeCalls(l.user, ids, l.answerOf, l.least);
    }
    forall c, u | c in made && u in tables
      ensures c.id !in tables[u]
    {
      assert c.id in l.keyIds;
    }
    forall i, j | 0 <= i < j < |made|
      ensures made[i].id != made[j].id
    {
      assert made[i] in made && made[j] in made;
    }
  }

  // The keys entered are those a certificate was made for.
  lemma {:induction false} MadeTableMeans(made: seq<K.Call>, user: string)
    requires forall c | c in made :: c.Make? && c.user == user
    requires forall i, j | 0 <= i < j < |made| :: made[i].id != made[j].id
    ensures forall id :: id in MadeTable(made) <==> exists c :: c in made && c.id == id
    ensures forall c | c in made :: c.id in MadeTable(made) && MadeTable(made)[c.id] == c.hash
  {
    if made != [] {
      var most, last := made[..|made| - 1], made[|made| - 1];
      assert forall c :: c in made <==> c in most || c == last;
      MadeTableMeans(most, user);
    }
  }

  // What the turn leaves on record, rejected keys aside, is what was known and made, less what went.
  lemma ListedAccepted(tables: Tables, l: Listing, made: seq<K.Call>)
    requires Respects(tables, l)
    requires K.MadeFor(made, l.user, l.keyIds - K.KnownOf(tables, l.user).Keys, l.answerOf, l.least)
    ensures var known := K.KnownOf(tables, l.user);
      var turned := (known + MadeTable(made)) - (known.Keys - l.keyIds);
      SameAccepted(tables[l.user := turned], Listed(tables, l))
  {
    hide K.MadeFor, K.Updated, FreshMakes, K.Accepted;
    var known := K.KnownOf(tables, l.user);
    var turned := (known + MadeTable(made)) - (known.Keys - l.keyIds);
    var updated := K.Updated(known, l.keyIds, l.answerOf, l.least);
    MadeAreFresh(tables, l, l.keyIds - known.Keys, made);
    FreshMeans(tables, l.user, made);
    MadeTableMeans(made, l.user);
    forall id
      ensures id in K.Accepted(turned) <==> id in K.Accepted(updated)
      ensures id in K.Accepted(turned) ==> id in turned && id in updated && turned[id] == updated[id]
    {
      TurnedAt(known, l, made, id);
    }
    assert K.Accepted(turned) == K.Accepted(updated);
  }

  lemma FreshMeans(tables: Tables, user: string, made: seq<K.Call>)
    requires FreshMakes(tables, user, made)
    ensures forall c | c in made :: c.Make? && c.user == user && c.hash != ""
    ensures forall i, j | 0 <= i < j < |made| :: made[i].id != made[j].id
  {
  }

  lemma TurnedAt(known: K.Table, l: Listing, made: seq<K.Call>, id: string)
    requires K.MadeFor(made, l.user, l.keyIds - known.Keys, l.answerOf, l.least)
    requires forall k :: k in MadeTable(made) <==> exists c :: c in made && c.id == k
    requires forall c | c in made ::
      c.Make? && c.hash != "" && c.id in MadeTable(made) && MadeTable(made)[c.id] == c.hash
    ensures var turned := (known + MadeTable(made)) - (known.Keys - l.keyIds);
      var updated := K.Updated(known, l.keyIds, l.answerOf, l.least);
      && (id in K.Accepted(turned) <==> id in K.Accepted(updated))
      && (id in K.Accepted(turned) ==> id in turned && id in updated && turned[id] == updated[id])
  {
    hide K.MadeFor, MadeTable;
    NewKeyMade(known, l, made, id);
  }

  lemma NewKeyMade(known: K.Table, l: Listing, made: seq<K.Call>, id: string)
    requires K.MadeFor(made, l.user, l.keyIds - known.Keys, l.answerOf, l.least)
    ensures (exists c :: c in made && c.id == id) <==>
      id in l.keyIds && id !in known && K.Accepts(l.answerOf(id), l.least)
    ensures id in l.keyIds && id !in known && K.Accepts(l.answerOf(id), l.least) ==>
      K.Make(l.user, id, l.answerOf(id).hash) in made
  {
    if id in l.keyIds && id !in known && K.Accepts(l.answerOf(id), l.least) {
      var call := K.Make(l.user, id, l.answerOf(id).hash);
      assert call in K.MakeCalls(l.user, l.keyIds - known.Keys, l.answerOf, l.least);
      assert call in Elements(made);
    }
    if c :| c in made && c.id == id {
      assert c in Elements(made) && c in K.MakeCalls(l.user, l.keyIds - known.Keys, l.answerOf, l.least);
    }
  }

  lemma OwnersListed(tables: Tables, l: Listing)
    requires OneOwner(tables) && Respects(tables, l)
    ensures OneOwner(Listed(tables, l))
  {
    hide K.Updated;
  }

  /**
   A turn that is carried through keeps cache and certificates in step, and with either Remove does not
   stop the server.
   */
  lemma TurnInStep(s: System, n: K.Naming, mended: bool, extra: multiset<Entry>, l: Listing, r: K.Round)
    requires InStep(s, n, extra) && Respects(s.tables, l) && RoundOf(r, s.tables, l, true)
    ensures K.Reached(n, mended, s.index, K.CallsIn(r)).Some?
    ensures InStep(System(Listed(s.tables, l), K.Reached(n, mended, s.index, K.CallsIn(r)).value), n, extra)
  {
    hide Sound, InStep, FreshMakes, SameAccepted, OneOwner, K.Reached, K.MadeFor, K.Withdrawals, K.Updated, Distinct;
    SoundInStep(s, n, extra);
    OwnersInStep(s, n, extra);
    var known := K.KnownOf(s.tables, l.user);
    MadeAreFresh(s.tables, l, l.keyIds - known.Keys, r.made);
    MakesRecorded(s, n, mended, extra, l.user, r.made);
    var middle := System(WithMade(s.tables, l.user, r.made), K.Reached(n, mended, s.index, r.made).value);
    GoneAccepted(s.tables, l, r.made);
    WithdrawalsRecorded(middle, n, mended, extra, l.user, r.removed);
    K.ReachedConcat(n, mended, s.index, r.made, K.Withdrawals(r.removed));
    Replaced(s.tables, l.user, known + MadeTable(r.made), (known + MadeTable(r.made)) - (known.Keys - l.keyIds));
    ListedAccepted(s.tables, l, r.made);
    OwnersListed(s.tables, l);
    Recast(System(s.tables[l.user := (known + MadeTable(r.made)) - (known.Keys - l.keyIds)],
      K.Reached(n, mended, s.index, K.CallsIn(r)).value), Listed(s.tables, l), n, extra);
  }

  // The keys that go were accepted before, and none of them has just been made.
  lemma GoneAccepted(tables: Tables, l: Listing, made: seq<K.Call>)
    requires Respects(tables, l)
    requires K.MadeFor(made, l.user, l.keyIds - K.KnownOf(tables, l.user).Keys, l.answerOf, l.least)
    ensures K.KnownOf(tables, l.user).Keys - l.keyIds <= K.Accepted(WithMade(tables, l.user, made)[l.user])
  {
    hide K.MadeFor, FreshMakes;
    var known := K.KnownOf(tables, l.user);
    MadeAreFresh(tables, l, l.keyIds - known.Keys, made);
    FreshMeans(tables, l.user, made);
    MadeTableMeans(made, l.user);
    forall id | id in known.Keys - l.keyIds
      ensures id in K.Accepted(known + MadeTable(made))
    {
      NewKeyMade(known, l, made, id);
      assert id in K.Accepted(known);
    }
  }

  /**
   A turn broken off keeps them in step too, but for the certificates it has made: they stand for no key on
   record.
   */
  lemma BrokenTurnInStep(s: System, n: K.Naming, mended: bool, extra: multiset<Entry>, l: Listing, r: K.Round)
    requires InStep(s, n, extra) && Respects(s.tables, l) && RoundOf(r, s.tables, l, false)
    ensures K.Reached(n, mended, s.index, K.CallsIn(r)).Some?
    ensures InStep(System(s.tables, K.Reached(n, mended, s.index, K.CallsIn(r)).value), n, extra + EntriesOf(n, r.made))
  {
    hide Sound, InStep, FreshMakes, K.Reached, K.MadeFor, EntriesOf;
    var ids :| ids <= l.keyIds - K.KnownOf(s.tables, l.user).Keys
        && K.MadeFor(r.made, l.user, ids, l.answerOf, l.least);
    MadeAreFresh(s.tables, l, ids, r.made);
    MakesLeft(s, n, mended, extra, l.user, r.made);
    K.NoWithdrawals();
    assert K.CallsIn(r) == r.made;
  }
}
