/**
 Listings that no user or administrator would think harmful, and what they do: runs that end the server,
 and certificates that stay or are lost. Each is for any naming and from any state without the users.
 */
module KeyWitnesses {
  import opened Wrappers
  import opened Sequences
  import opened CertTables
  import opened CertDirectory
  import opened KeyIndex
  import opened KeyRuns
  import K = Keys
  import P = Probing

  // The backend has one key, of this size and hash; no other id can be found.
  function OneKey(id: string, size: nat, hash: string): string -> K.KeyAnswer {
    k => if k == id then K.Usable(size, hash) else K.Missing
  }

  // The user lists this key and an id without a key.
  function With(user: string, none: string, id: string, size: nat, hash: string, least: nat): Listing {
    Listing(user, {none, id}, OneKey(id, size, hash), least)
  }

  // The user lists only the id without a key.
  function Without(user: string, none: string, id: string, size: nat, hash: string, least: nat): Listing {
    Listing(user, {none}, OneKey(id, size, hash), least)
  }

  lemma OneCall(n: K.Naming, mended: bool, x: Index, call: K.Call)
    requires Sound(x)
    ensures K.Reached(n, mended, x, [call]) == Step(x, K.OperationFor(n, call), mended)
  {
    hide Sound, K.Reached, Step;
    K.ReachedNone(n, mended, x);
    assert [] + [call] == [call];
    K.ReachedNext(n, mended, x, [], call);
  }

  lemma AcceptedTurn(tables: Tables, user: string, none: string, id: string, size: nat, hash: string, least: nat)
    requires none != id && user !in tables && size >= least
    ensures RoundOf(K.Round(user, [K.Make(user, id, hash)], []), tables, With(user, none, id, size, hash, least), true)
    ensures K.CallsIn(K.Round(user, [K.Make(user, id, hash)], [])) == [K.Make(user, id, hash)]
    ensures Listed(tables, With(user, none, id, size, hash, least)) == tables[user := map[none := "", id := hash]]
  {
    var l := With(user, none, id, size, hash, least);
    K.NoWithdrawals();
    assert [K.Make(user, id, hash)] + [] == [K.Make(user, id, hash)];
    var known: K.Table := map[];
    assert l.keyIds - known.Keys == {none, id};
    assert K.MakeCalls(user, {none, id}, l.answerOf, least) == {K.Make(user, id, hash)};
    assert Elements([K.Make(user, id, hash)]) == {K.Make(user, id, hash)};
    assert K.Updated(known, l.keyIds, l.answerOf, least) == map[none := "", id := hash];
  }

  lemma RejectedTurn(
    tables: Tables, known: K.Table, user: string, none: string, id: string, size: nat, hash: string, least: nat)
    requires none != id && K.KnownOf(tables, user) == known && known.Keys <= {none} && size < least
    requires none in known ==> known[none] == ""
    ensures RoundOf(K.Round(user, [], []), tables, With(user, none, id, size, hash, least), true)
    ensures K.CallsIn(K.Round(user, [], [])) == []
    ensures Listed(tables, With(user, none, id, size, hash, least)) == tables[user := map[none := "", id := ""]]
  {
    var l := With(user, none, id, size, hash, least);
    K.NoWithdrawals();
    var made: seq<K.Call> := [];
    assert K.MakeCalls(user, l.keyIds - known.Keys, l.answerOf, least) == {} == Elements(made);
    assert known.Keys - l.keyIds == {};
    assert K.Updated(known, l.keyIds, l.answerOf, least) == map[none := "", id := ""];
  }

  lemma LeavingTurn(tables: Tables, user: string, none: string, id: string, size: nat, hash: string, least: nat)
    requires none != id && user in tables && tables[user].Keys == {none, id}
    ensures RoundOf(K.Round(user, [], [id]), tables, Without(user, none, id, size, hash, least), true)
    ensures K.CallsIn(K.Round(user, [], [id])) == [K.Withdraw(id)]
    ensures Listed(tables, Without(user, none, id, size, hash, least))
      == tables[user := map[none := tables[user][none]]]
  {
    var l := Without(user, none, id, size, hash, least);
    var made: seq<K.Call> := [];
    assert K.MakeCalls(user, l.keyIds - tables[user].Keys, l.answerOf, least) == {} == Elements(made);
    assert Elements([id]) == {id} == tables[user].Keys - l.keyIds;
    assert K.Withdrawals([id]) == [K.Withdraw(id)];
    assert [] + [K.Withdraw(id)] == [K.Withdraw(id)];
    assert K.Updated(tables[user], l.keyIds, l.answerOf, least) == map[none := tables[user][none]];
  }

  /**
   A key is accepted, delisted, listed again when it has become too weak, and delisted again: the last
   listing stops the server.
   */
  lemma RelistedKeyStops(
    n: K.Naming, mended: bool, s: System, user: string, none: string, id: string, size: nat, hash: string)
    returns (states: seq<System>, turns: seq<Turn>, last: Turn)
    requires Sound(s.index) && user !in s.tables && none != id
    ensures IsRun(n, mended, states, turns) && states[0] == s
    ensures |turns| == 3 && turns[0].complete && turns[1].complete && turns[2].complete && last.complete
    ensures turns[0].listing == With(user, none, id, size, hash, size)
    ensures turns[1].listing == Without(user, none, id, size, hash, size)
    ensures turns[2].listing == With(user, none, id, size, hash, size + 1)
    ensures last.listing == Without(user, none, id, size, hash, size + 1)
    ensures RoundOf(last.round, states[3].tables, last.listing, true)
    ensures K.Reached(n, mended, states[3].index, K.CallsIn(last.round)).None?
  {
    hide Sound, Added, Removed, K.Reached, RoundOf, K.CallsIn, Listed;
    var (bucket, cert) := K.EntryFor(n, user, hash);
    WithdrawnTwiceStops(s.index, bucket, cert, id, mended);
    var made := Step(s.index, Add(bucket, cert, Some(id)), mended).value;
    var gone := Step(made, Withdraw(id), mended).value;
    OneCall(n, mended, s.index, K.Make(user, id, hash));
    OneCall(n, mended, made, K.Withdraw(id));
    OneCall(n, mended, gone, K.Withdraw(id));
    K.ReachedNone(n, mended, gone);
    AcceptedTurn(s.tables, user, none, id, size, hash, size);
    var first := s.tables[user := map[none := "", id := hash]];
    LeavingTurn(first, user, none, id, size, hash, size);
    var second := first[user := map[none := ""]];
    RejectedTurn(second, map[none := ""], user, none, id, size, hash, size + 1);
    var third := second[user := map[none := "", id := ""]];
    LeavingTurn(third, user, none, id, size, hash, size + 1);
    turns := [
      Turn(With(user, none, id, size, hash, size), K.Round(user, [K.Make(user, id, hash)], []), true),
      Turn(Without(user, none, id, size, hash, size), K.Round(user, [], [id]), true),
      Turn(With(user, none, id, size, hash, size + 1), K.Round(user, [], []), true)];
    states := [s, System(first, made), System(second, gone), System(third, gone)];
    last := Turn(Without(user, none, id, size, hash, size + 1), K.Round(user, [], [id]), true);
    ThreeTurns(n, mended, states, turns);
  }

  lemma ThreeTurns(n: K.Naming, mended: bool, states: seq<System>, turns: seq<Turn>)
    requires |turns| == 3 && |states| == 4 && forall i | 0 <= i < 4 :: Sound(states[i].index)
    requires Takes(n, mended, states[0], turns[0], states[1])
    requires Takes(n, mended, states[1], turns[1], states[2])
    requires Takes(n, mended, states[2], turns[2], states[3])
    ensures IsRun(n, mended, states, turns)
  {
    hide Takes, Sound;
  }

  lemma StoppedNotLive(x: Index, id: string, mended: bool)
    requires Sound(x) && Removed(x, id, mended).None?
    ensures !Live(x, id)
  {
    hide Sound, Removed, Live;
    if Live(x, id) {
      RemovedOwn(x, id, mended);
    }
  }

  /**
   Two users list a key under the same id and then delist it, one after the other. The first withdrawal
   takes the certificate of the other user's key, which is still on record, and the second stops the server.
   */
  lemma SharedKeyStops(
    n: K.Naming, mended: bool, s: System, a: string, b: string, none: string, id: string, size: nat, hash: string)
    returns (states: seq<System>, turns: seq<Turn>, last: Turn)
    requires Sound(s.index) && a != b && a !in s.tables && b !in s.tables && none != id
    ensures IsRun(n, mended, states, turns) && states[0] == s
    ensures |turns| == 3 && turns[0].complete && turns[1].complete && turns[2].complete && last.complete
    ensures turns[0].listing == With(a, none, id, size, hash, size)
    ensures turns[1].listing == With(b, none, id, size, hash, size)
    ensures turns[2].listing == Without(a, none, id, size, hash, size)
    ensures last.listing == Without(b, none, id, size, hash, size)
    ensures b in states[3].tables && states[3].tables[b] == map[none := "", id := hash] && !Live(states[3].index, id)
    ensures RoundOf(last.round, states[3].tables, last.listing, true)
    ensures K.Reached(n, mended, states[3].index, K.CallsIn(last.round)).None?
  {
    hide Sound, Added, Removed, Live, K.Reached, RoundOf, K.CallsIn, Listed;
    var (bucketA, certA) := K.EntryFor(n, a, hash);
    var (bucketB, certB) := K.EntryFor(n, b, hash);
    var one := Step(s.index, Add(bucketA, certA, Some(id)), mended).value;
    WithdrawnTwiceStops(one, bucketB, certB, id, mended);
    var two := Step(one, Add(bucketB, certB, Some(id)), mended).value;
    var gone := Step(two, Withdraw(id), mended).value;
    StoppedNotLive(gone, id, mended);
    OneCall(n, mended, s.index, K.Make(a, id, hash));
    OneCall(n, mended, one, K.Make(b, id, hash));
    OneCall(n, mended, two, K.Withdraw(id));
    OneCall(n, mended, gone, K.Withdraw(id));
    AcceptedTurn(s.tables, a, none, id, size, hash, size);
    var first := s.tables[a := map[none := "", id := hash]];
    AcceptedTurn(first, b, none, id, size, hash, size);
    var second := first[b := map[none := "", id := hash]];
    LeavingTurn(second, a, none, id, size, hash, size);
    var third := second[a := map[none := ""]];
    LeavingTurn(third, b, none, id, size, hash, size);
    turns := [
      Turn(With(a, none, id, size, hash, size), K.Round(a, [K.Make(a, id, hash)], []), true),
      Turn(With(b, none, id, size, hash, size), K.Round(b, [K.Make(b, id, hash)], []), true),
      Turn(Without(a, none, id, size, hash, size), K.Round(a, [], [id]), true)];
    states := [s, System(first, one), System(second, two), System(third, gone)];
    last := Turn(Without(b, none, id, size, hash, size), K.Round(b, [], [id]), true);
    ThreeTurns(n, mended, states, turns);
  }

  /**
   A key that was rejected from the start and goes again stops the server, unless its id is registered for
   another.
   */
  lemma RejectedKeyStops(
    n: K.Naming, mended: bool, s: System, user: string, none: string, id: string, size: nat, hash: string)
    returns (states: seq<System>, turns: seq<Turn>, last: Turn)
    requires Sound(s.index) && user !in s.tables && none != id && id !in s.index.names
    ensures IsRun(n, mended, states, turns) && states[0] == s && |turns| == 1 && turns[0].complete && last.complete
    ensures turns[0].listing == With(user, none, id, size, hash, size + 1)
    ensures last.listing == Without(user, none, id, size, hash, size + 1)
    ensures RoundOf(last.round, states[1].tables, last.listing, true)
    ensures K.Reached(n, mended, states[1].index, K.CallsIn(last.round)).None?
  {
    hide Sound, K.Reached, RoundOf, K.CallsIn, Listed;
    OneCall(n, mended, s.index, K.Withdraw(id));
    K.ReachedNone(n, mended, s.index);
    RejectedTurn(s.tables, map[], user, none, id, size, hash, size + 1);
    var first := s.tables[user := map[none := "", id := ""]];
    LeavingTurn(first, user, none, id, size, hash, size + 1);
    turns := [Turn(With(user, none, id, size, hash, size + 1), K.Round(user, [], []), true)];
    states := [s, System(first, s.index)];
    last := Turn(Without(user, none, id, size, hash, size + 1), K.Round(user, [], [id]), true);
  }

  // The backend has the key, but another listed id cannot be read.
  function OneKeyOneBroken(id: string, size: nat, hash: string): string -> K.KeyAnswer {
    k => if k == id then K.Usable(size, hash) else K.Broken
  }

  lemma BrokenTurn(tables: Tables, user: string, none: string, id: string, size: nat, hash: string)
    requires none != id && user !in tables
    ensures RoundOf(K.Round(user, [K.Make(user, id, hash)], []), tables,
      Listing(user, {none, id}, OneKeyOneBroken(id, size, hash), size), false)
  {
    var l := Listing(user, {none, id}, OneKeyOneBroken(id, size, hash), size);
    assert K.MakeCalls(user, {id}, l.answerOf, size) == {K.Make(user, id, hash)};
    assert Elements([K.Make(user, id, hash)]) == {K.Make(user, id, hash)};
    assert K.MadeFor([K.Make(user, id, hash)], user, {id}, l.answerOf, size);
  }

  /**
   An update breaks off after making a certificate, the next one comes through, and then the key is
   delisted: even with the mended Remove it is accepted for good, since the first certificate has no name.
   */
  lemma LeftoverStaysAccepted(
    n: K.Naming, s: System, bucket: string, root: Certificate, left: map<Path, Certificate>, user: string, none: string,
    id: string, size: nat, hash: string)
    returns (states: seq<System>, turns: seq<Turn>)
    requires Starts(s, bucket, root, left) && KeyFiles(n, left, user) && root.cn != user && none != id && hash != ""
    ensures IsRun(n, true, states, turns) && states[0] == s && |turns| == 3
    ensures turns[0].listing == Listing(user, {none, id}, OneKeyOneBroken(id, size, hash), size) && !turns[0].complete
    ensures turns[1].listing == With(user, none, id, size, hash, size) && turns[1].complete
    ensures turns[2].listing == Without(user, none, id, size, hash, size) && turns[2].complete
    ensures states[3].tables == map[user := map[none := ""]]
    ensures forall certs | ReadsFrom(states[3].index.files, n.bucketOf(user, hash), 0, certs) ::
      P.Probe(certs, P.Presented(user, user, Some(hash), n.keyOf(hash))) == P.Accepted
  {
    hide Sound, InStep, Added, K.Reached, RoundOf, K.CallsIn, Listed, ReadsFrom, P.Probe, Left, Matches;
    StartInStep(s, n, bucket, root, left);
    var extra := multiset{(bucket, root)};
    SoundInStep(s, n, extra);
    var l0 := Listing(user, {none, id}, OneKeyOneBroken(id, size, hash), size);
    var r0 := K.Round(user, [K.Make(user, id, hash)], []);
    BrokenTurn(s.tables, user, none, id, size, hash);
    BrokenTurnInStep(s, n, true, extra, l0, r0);
    var s1 := System(s.tables, K.Reached(n, true, s.index, K.CallsIn(r0)).value);
    var extra1 := extra + EntriesOf(n, r0.made);
    SoundInStep(s1, n, extra1);
    var l1 := With(user, none, id, size, hash, size);
    AcceptedTurn(s.tables, user, none, id, size, hash, size);
    TurnInStep(s1, n, true, extra1, l1, r0);
    var s2 := System(Listed(s.tables, l1), K.Reached(n, true, s1.index, K.CallsIn(r0)).value);
    SoundInStep(s2, n, extra1);
    var l2 := Without(user, none, id, size, hash, size);
    var r2 := K.Round(user, [], [id]);
    LeavingTurn(s2.tables, user, none, id, size, hash, size);
    TurnInStep(s2, n, true, extra1, l2, r2);
    var s3 := System(Listed(s2.tables, l2), K.Reached(n, true, s2.index, K.CallsIn(r2)).value);
    SoundInStep(s3, n, extra1);
    states, turns := [s, s1, s2, s3], [Turn(l0, r0, false), Turn(l1, r0, true), Turn(l2, r2, true)];
    ThreeTurns(n, true, states, turns);
    OneLeft(n, turns, user, id, hash);
    var p := P.Presented(user, user, Some(hash), n.keyOf(hash));
    forall certs | ReadsFrom(s3.index.files, n.bucketOf(user, hash), 0, certs)
      ensures P.Probe(certs, p) == P.Accepted
    {
      MendedRunAccepts(n, states, turns, bucket, root, left, p, certs);
    }
  }

  lemma OneLeft(n: K.Naming, turns: seq<Turn>, user: string, id: string, hash: string)
    requires |turns| == 3 && !turns[0].complete && turns[1].complete && turns[2].complete
    requires turns[0].round.made == [K.Make(user, id, hash)]
    ensures K.EntryFor(n, user, hash) in Left(n, turns)
  {
    assert turns[..2][..1] == turns[..1] && turns[..1][..0] == [];
    assert turns[0].round.made[..0] == [];
    assert EntriesOf(n, turns[0].round.made) == multiset{K.EntryFor(n, user, hash)};
    assert Left(n, turns[..1]) == multiset{K.EntryFor(n, user, hash)};
    assert Left(n, turns[..2]) == Left(n, turns[..1]);
  }
}
