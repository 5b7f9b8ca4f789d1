/** Runs of listings, from an empty cache on: what the tables hold afterwards and whose key the probe accepts. */
module KeyRuns {
  import opened Wrappers
  import opened CertTables
  import opened CertDirectory
  import opened FoundDirectory
  import opened CertRecord
  import opened KeyIndex
  import K = Keys
  import P = Probing

  datatype Turn = Turn(listing: Listing, round: K.Round, complete: bool)

  function TablesAfter(tables: Tables, t: Turn): Tables {
    if t.complete then Listed(tables, t.listing) else tables
  }

  // One turn that does not stop the server.
  ghost predicate Takes(n: K.Naming, mended: bool, a: System, t: Turn, b: System)
    requires Sound(a.index)
  {
    && RoundOf(t.round, a.tables, t.listing, t.complete)
    && K.Reached(n, mended, a.index, K.CallsIn(t.round)) == Some(b.index)
    && b.tables == TablesAfter(a.tables, t)
  }

  // The states before, between and after the turns of a run.
  ghost predicate IsRun(n: K.Naming, mended: bool, states: seq<System>, turns: seq<Turn>) {
    && |states| == |turns| + 1
    && (forall i | 0 <= i < |states| :: Sound(states[i].index))
    && forall i | 0 <= i < |turns| :: Takes(n, mended, states[i], turns[i], states[i + 1])
  }

  ghost predicate AllRespect(states: seq<System>, turns: seq<Turn>) {
    |states| == |turns| + 1 && forall i | 0 <= i < |turns| :: Respects(states[i].tables, turns[i].listing)
  }

  // The certificates that the turns broken off have made.
  function Left(n: K.Naming, turns: seq<Turn>): multiset<Entry> {
    if turns == [] then multiset{}
    else
      var last := turns[|turns| - 1];
      Left(n, turns[..|turns| - 1]) + if last.complete then multiset{} else EntriesOf(n, last.round.made)
  }

  function CallsOfTurns(turns: seq<Turn>): seq<K.Call> {
    if turns == [] then [] else CallsOfTurns(turns[..|turns| - 1]) + K.CallsIn(turns[|turns| - 1].round)
  }

  lemma RunPrefix(n: K.Naming, mended: bool, states: seq<System>, turns: seq<Turn>)
    requires IsRun(n, mended, states, turns) && turns != []
    ensures IsRun(n, mended, states[..|turns|], turns[..|turns| - 1])
    ensures AllRespect(states, turns) ==> AllRespect(states[..|turns|], turns[..|turns| - 1])
  {
    hide Takes, Respects, Sound;
    var most, before := turns[..|turns| - 1], states[..|turns|];
    forall i | 0 <= i < |most|
      ensures Takes(n, mended, before[i], most[i], before[i + 1])
    {
      assert Takes(n, mended, states[i], turns[i], states[i + 1]);
    }
    if AllRespect(states, turns) {
      forall i | 0 <= i < |most|
        ensures Respects(before[i].tables, most[i].listing)
      {
        assert Respects(states[i].tables, turns[i].listing);
      }
    }
  }

  /**
   Over any run of listings that respect their state, with either Remove: every accepted key on record has
   a live certificate of its own, and besides these the buckets hold what was extra at the start and what
   turns broken off have left.
   */
  lemma {:induction false} RunInStep(
    n: K.Naming, mended: bool, states: seq<System>, turns: seq<Turn>, extra: multiset<Entry>)
    requires IsRun(n, mended, states, turns) && AllRespect(states, turns) && InStep(states[0], n, extra)
    ensures InStep(states[|turns|], n, extra + Left(n, turns))
  {
    hide InStep, Respects, Sound, RoundOf, K.Reached, EntriesOf;
    if turns == [] {
      assert extra + multiset{} == extra;
    } else {
      var k := |turns| - 1;
      var t := turns[k];
      RunPrefix(n, mended, states, turns);
      RunInStep(n, mended, states[..|turns|], turns[..k], extra);
      assert Takes(n, mended, states[k], t, states[k + 1]) && Respects(states[k].tables, t.listing);
      var held := extra + Left(n, turns[..k]);
      if t.complete {
        TurnInStep(states[k], n, mended, held, t.listing, t.round);
        assert extra + Left(n, turns) == held;
      } else {
        BrokenTurnInStep(states[k], n, mended, held, t.listing, t.round);
        assert extra + Left(n, turns) == held + EntriesOf(n, t.round.made);
      }
    }
  }

  /** And the next listing that respects it does not stop the server either. */
  lemma NextDoesNotStop(
    n: K.Naming, mended: bool, states: seq<System>, turns: seq<Turn>, extra: multiset<Entry>, next: Turn)
    requires IsRun(n, mended, states, turns) && AllRespect(states, turns) && InStep(states[0], n, extra)
    requires Respects(states[|turns|].tables, next.listing)
    requires RoundOf(next.round, states[|turns|].tables, next.listing, next.complete)
    ensures Sound(states[|turns|].index)
    ensures K.Reached(n, mended, states[|turns|].index, K.CallsIn(next.round)).Some?
  {
    hide InStep, Respects, Sound, RoundOf, K.Reached;
    RunInStep(n, mended, states, turns, extra);
    SoundInStep(states[|turns|], n, extra + Left(n, turns));
    if next.complete {
      TurnInStep(states[|turns|], n, mended, extra + Left(n, turns), next.listing, next.round);
    } else {
      BrokenTurnInStep(states[|turns|], n, mended, extra + Left(n, turns), next.listing, next.round);
    }
  }

  lemma {:induction false} RunIndex(n: K.Naming, mended: bool, states: seq<System>, turns: seq<Turn>)
    requires IsRun(n, mended, states, turns)
    ensures K.Reached(n, mended, states[0].index, CallsOfTurns(turns)) == Some(states[|turns|].index)
  {
    hide Sound, RoundOf, K.Reached;
    if turns == [] {
      K.ReachedNone(n, mended, states[0].index);
    } else {
      var k := |turns| - 1;
      RunPrefix(n, mended, states, turns);
      RunIndex(n, mended, states[..|turns|], turns[..k]);
      assert Takes(n, mended, states[k], turns[k], states[k + 1]);
      K.ReachedConcat(n, mended, states[0].index, CallsOfTurns(turns[..k]), K.CallsIn(turns[k].round));
    }
  }

  // A listed key of the user has this hash and was accepted.
  ghost predicate OnRecord(tables: Tables, user: string, hash: string) {
    exists id :: id in K.Accepted(K.KnownOf(tables, user)) && K.KnownOf(tables, user)[id] == hash
  }

  // The extra certificates that bear this name were made for keys.
  ghost predicate KeyMade(n: K.Naming, extra: multiset<Entry>, cn: string) {
    forall e | e in extra && e.1.cn == cn :: e.1.ou.Some? && e == K.EntryFor(n, cn, e.1.ou.value)
  }

  // What is held under a name, and for whom.
  lemma HeldFor(s: System, n: K.Naming, extra: multiset<Entry>, hash: string, c: Certificate)
    requires InStep(s, n, extra) && KeyMade(n, extra, c.cn)
    ensures c in HeldIn(s.index, hash) <==> Bearing(s.tables, n, (hash, c)) != {} || (hash, c) in extra
    ensures c in HeldIn(s.index, hash) ==> c.ou.Some? && (hash, c) == K.EntryFor(n, c.cn, c.ou.value)
    ensures Bearing(s.tables, n, (hash, c)) != {} <==>
      c.ou.Some? && (hash, c) == K.EntryFor(n, c.cn, c.ou.value) && OnRecord(s.tables, c.cn, c.ou.value)
  {
    hide Sound, HeldIn, Certified, OneOwner;
    assert HeldIn(s.index, hash)[c] == |Bearing(s.tables, n, (hash, c))| + extra[(hash, c)];
    if Bearing(s.tables, n, (hash, c)) != {} {
      var id :| id in Bearing(s.tables, n, (hash, c));
    }
    if c.ou.Some? && (hash, c) == K.EntryFor(n, c.cn, c.ou.value) && OnRecord(s.tables, c.cn, c.ou.value) {
      var id :| id in K.Accepted(K.KnownOf(s.tables, c.cn)) && K.KnownOf(s.tables, c.cn)[id] == c.ou.value;
      assert id in Bearing(s.tables, n, (hash, c));
    }
  }

  // A certificate of this bucket that was made for a key, if it bears the name.
  ghost predicate MadeFor(n: K.Naming, bucket: string, c: Certificate, cn: string) {
    c.cn == cn ==> c.ou.Some? && (bucket, c) == K.EntryFor(n, cn, c.ou.value)
  }

  // Where the certificates that bear the name were made for keys, the probe is a search.
  lemma MadeProbe(n: K.Naming, bucket: string, certs: seq<Certificate>, p: P.Presented)
    requires p.issuerOu.Some? && bucket == n.bucketOf(p.issuerCn, p.issuerOu.value)
    requires forall c | c in certs :: MadeFor(n, bucket, c, p.cn)
    ensures var h := p.issuerOu.value;
      P.Probe(certs, p) == P.Accepted <==>
        p.issuerCn == p.cn && p.key == n.keyOf(h) && K.EntryFor(n, p.cn, h).1 in certs
  {
    hide P.Probe;
    var h := p.issuerOu.value;
    assert forall c | c in certs :: MadeFor(n, bucket, c, p.cn) && !P.Unreadable(c, p);
    assert forall c | c in certs && P.SameName(c, p) :: c == K.EntryFor(n, p.cn, h).1;
    P.ProbeIsSearch(certs, p);
    assert P.SameName(K.EntryFor(n, p.cn, h).1, p) <==> p.issuerCn == p.cn;
  }

  /**
   The probe of a client's certificate, where it reads the bucket and then some files left from before: it
   accepts the key exactly when the certificate is the user's own issue, its key has the hash it names, and
   that hash is on record for the user, as that of an accepted key, of a certificate left behind, or of one
   of those files.
   */
  lemma AcceptsKeysOnRecord(
    s: System, n: K.Naming, extra: multiset<Entry>, p: P.Presented, certs: seq<Certificate>, old_: seq<Certificate>)
    requires InStep(s, n, extra) && KeyMade(n, extra, p.cn) && p.issuerOu.Some?
    requires var bucket := n.bucketOf(p.issuerCn, p.issuerOu.value);
      Sound(s.index) && certs == Contents(s.index, bucket) + old_ && forall c | c in old_ :: MadeFor(n, bucket, c, p.cn)
    ensures var h := p.issuerOu.value;
      P.Probe(certs, p) == P.Accepted <==>
        p.issuerCn == p.cn && p.key == n.keyOf(h)
        && (OnRecord(s.tables, p.cn, h) || K.EntryFor(n, p.cn, h) in extra || K.EntryFor(n, p.cn, h).1 in old_)
  {
    hide Sound, HeldIn, InStep, P.Probe, OnRecord, Bearing, Contents;
    var h := p.issuerOu.value;
    var bucket := n.bucketOf(p.issuerCn, h);
    HeldMeans(s.index, bucket);
    forall c: Certificate | c.cn == p.cn
      ensures c in Contents(s.index, bucket) <==> Bearing(s.tables, n, (bucket, c)) != {} || (bucket, c) in extra
      ensures c in Contents(s.index, bucket) ==> c.ou.Some? && (bucket, c) == K.EntryFor(n, c.cn, c.ou.value)
      ensures Bearing(s.tables, n, (bucket, c)) != {} <==>
        c.ou.Some? && (bucket, c) == K.EntryFor(n, c.cn, c.ou.value) && OnRecord(s.tables, c.cn, c.ou.value)
    {
      HeldFor(s, n, extra, bucket, c);
    }
    MadeProbe(n, bucket, certs, p);
    var own := K.EntryFor(n, p.cn, h).1;
    assert p.issuerCn == p.cn ==> (bucket, own) == K.EntryFor(n, p.cn, h);
  }

  lemma HeldMeans(x: Index, hash: string)
    requires Sound(x)
    ensures forall c :: c in Contents(x, hash) <==> c in HeldIn(x, hash)
  {
  }

  // The start: an empty cache, and an index that holds the authority's own certificate, under no name, on a
  // directory as it was left.
  ghost predicate Starts(s: System, bucket: string, root: Certificate, left: map<Path, Certificate>) {
    s.tables == map[] && s.index == Found(left, bucket, root)
  }

  // The files left from before that bear this name were made for keys.
  ghost predicate KeyFiles(n: K.Naming, left: map<Path, Certificate>, cn: string) {
    forall path | path in left :: MadeFor(n, path.hash, left[path], cn)
  }

  lemma StartInStep(s: System, n: K.Naming, bucket: string, root: Certificate, left: map<Path, Certificate>)
    requires Starts(s, bucket, root, left)
    ensures InStep(s, n, multiset{(bucket, root)})
    ensures forall h :: Contents(s.index, h) == if h == bucket then [root] else []
    ensures forall h :: FilesOver(s.index.files, h, Contents(s.index, h), |Contents(s.index, h)|, left)
    ensures Matches(s.index) <==> Clean(left, bucket)
  {
    hide Sound, Matches, Clean, Found, Contents, FilesOver;
    FoundHolds(left, bucket, root);
    FoundMatchesIff(left, bucket, root);
    FoundInStep(s, n, bucket, root);
    forall h
      ensures FilesOver(s.index.files, h, Contents(s.index, h), |Contents(s.index, h)|, left)
    {
      FoundOver(left, bucket, root, h);
    }
  }

  lemma FoundInStep(s: System, n: K.Naming, bucket: string, root: Certificate)
    requires s.tables == map[] && Sound(s.index)
    requires forall h :: Contents(s.index, h) == if h == bucket then [root] else []
    ensures InStep(s, n, multiset{(bucket, root)})
  {
    forall h, c
      ensures HeldIn(s.index, h)[c] == |Bearing(s.tables, n, (h, c))| + multiset{(bucket, root)}[(h, c)]
    {
      assert Bearing(s.tables, n, (h, c)) == {};
    }
  }

  // Files still read from before were made for keys, if all files were.
  lemma ReadMade(n: K.Naming, left: map<Path, Certificate>, hash: string, from: nat, old_: seq<Certificate>, cn: string)
    requires KeyFiles(n, left, cn) && ReadsFrom(left, hash, from, old_)
    ensures forall c | c in old_ :: MadeFor(n, hash, c, cn)
  {
    hide MadeFor;
    forall c | c in old_
      ensures MadeFor(n, hash, c, cn)
    {
      var i :| 0 <= i < |old_| && old_[i] == c;
      assert IsFile(left, hash, from + i, old_[i]);
      assert Dotted(hash, from + i) in left;
    }
  }

  lemma {:induction false} EntriesMade(n: K.Naming, made: seq<K.Call>)
    ensures forall e | e in EntriesOf(n, made) :: e.1.ou.Some? && e == K.EntryFor(n, e.1.cn, e.1.ou.value)
  {
    if made != [] {
      EntriesMade(n, made[..|made| - 1]);
    }
  }

  lemma {:induction false} LeftMade(n: K.Naming, turns: seq<Turn>)
    ensures forall e | e in Left(n, turns) :: e.1.ou.Some? && e == K.EntryFor(n, e.1.cn, e.1.ou.value)
  {
    hide EntriesOf;
    if turns != [] {
      LeftMade(n, turns[..|turns| - 1]);
      EntriesMade(n, turns[|turns| - 1].round.made);
    }
  }

  /**
   With the mended Remove, after any run from the start, on whatever was left in the directory: a user's
   certificate is accepted exactly when its key has the hash it names and that hash is on record for the user
   as that of an accepted key, or was made in a turn that was broken off, or is that of a file left from
   before that is still read. The second is for good, as no later listing takes it back; the third ends as
   soon as the bucket has been longer than it is, or has reached the file.
   */
  lemma MendedRunAccepts(
    n: K.Naming, states: seq<System>, turns: seq<Turn>, bucket: string, root: Certificate,
    left: map<Path, Certificate>, p: P.Presented, certs: seq<Certificate>)
    requires IsRun(n, true, states, turns) && AllRespect(states, turns) && Starts(states[0], bucket, root, left)
    requires root.cn != p.cn && p.issuerOu.Some? && KeyFiles(n, left, p.cn)
    requires ReadsFrom(states[|turns|].index.files, n.bucketOf(p.issuerCn, p.issuerOu.value), 0, certs)
    ensures var h := p.issuerOu.value;
      var hash := n.bucketOf(p.issuerCn, h);
      var peak := Peak(states[0].index, K.Operations(n, CallsOfTurns(turns)), hash, true);
      P.Probe(certs, p) == P.Accepted <==>
        p.issuerCn == p.cn && p.key == n.keyOf(h)
        && (OnRecord(states[|turns|].tables, p.cn, h) || K.EntryFor(n, p.cn, h) in Left(n, turns)
            || (|Contents(states[|turns|].index, hash)| == peak
                && StillRead(left, hash, peak, K.EntryFor(n, p.cn, h).1)))
  {
    hide Sound, InStep, P.Probe, OnRecord, Takes, Respects, Left, After, Contents, FilesOver, ReadsFrom, StillRead;
    hide KeyFiles, MadeFor, Peak, Clean, Matches;
    StartInStep(states[0], n, bucket, root, left);
    var extra := multiset{(bucket, root)};
    RunInStep(n, true, states, turns, extra);
    RunIndex(n, true, states, turns);
    LeftMade(n, turns);
    var s, h := states[|turns|], p.issuerOu.value;
    var hash := n.bucketOf(p.issuerCn, h);
    var x, ops := states[0].index, K.Operations(n, CallsOfTurns(turns));
    MendedOver(x, ops, hash, left);
    var peak, held := Peak(x, ops, hash, true), Contents(s.index, hash);
    Within(s.index.files, hash, held, peak, left);
    ReadsOver(s.index.files, hash, held, peak, left, certs);
    var old_ := certs[|held|..];
    if |held| == peak {
      ReadMade(n, left, hash, peak, old_, p.cn);
      ReadMeans(left, hash, peak, old_);
    }
    AcceptsKeysOnRecord(s, n, extra + Left(n, turns), p, certs, old_);
  }

  // Whatever is written to the directory was there at the start or was made for a key.
  lemma {:induction false} WrittenFrom(
    n: K.Naming, x: Index, calls: seq<K.Call>, hash: string, start: seq<Certificate>)
    requires Sound(x)
    ensures forall c | c in Written(x, K.Operations(n, calls), hash, start) ::
      c in start || (c.ou.Some? && (hash, c) == K.EntryFor(n, c.cn, c.ou.value))
  {
    hide Sound, After;
    var ops := K.Operations(n, calls);
    if calls != [] {
      var most, last := calls[..|calls| - 1], calls[|calls| - 1];
      assert ops[..|ops| - 1] == K.Operations(n, most);
      WrittenFrom(n, x, most, hash, start);
    }
  }

  /**
   With Remove as written, after any run from the start, on whatever was left in the directory: a user's
   certificate is accepted exactly when its key has the hash it names and the certificate made for it was the
   last one written to some number of its bucket, or is in a file left from before behind these. What is on
   record plays no part.
   */
  lemma WrittenRunAccepts(
    n: K.Naming, states: seq<System>, turns: seq<Turn>, bucket: string, root: Certificate,
    left: map<Path, Certificate>, p: P.Presented, certs: seq<Certificate>)
    requires IsRun(n, false, states, turns) && Starts(states[0], bucket, root, left)
    requires root.cn != p.cn && p.issuerOu.Some? && KeyFiles(n, left, p.cn)
    requires ReadsFrom(states[|turns|].index.files, n.bucketOf(p.issuerCn, p.issuerOu.value), 0, certs)
    ensures var h := p.issuerOu.value;
      var hash := n.bucketOf(p.issuerCn, h);
      var start := states[0].index;
      var written := Written(start, K.Operations(n, CallsOfTurns(turns)), hash, Contents(start, hash));
      P.Probe(certs, p) == P.Accepted <==>
        p.issuerCn == p.cn && p.key == n.keyOf(h)
        && (K.EntryFor(n, p.cn, h).1 in written || StillRead(left, hash, |written|, K.EntryFor(n, p.cn, h).1))
  {
    hide Sound, InStep, P.Probe, Takes, Written, After, FilesOver, ReadsFrom, StillRead, KeyFiles, Clean, Matches;
    StartInStep(states[0], n, bucket, root, left);
    RunIndex(n, false, states, turns);
    var h := p.issuerOu.value;
    var hash := n.bucketOf(p.issuerCn, h);
    var x, calls := states[0].index, CallsOfTurns(turns);
    WrittenFrom(n, x, calls, hash, Contents(x, hash));
    var written := Written(x, K.Operations(n, calls), hash, Contents(x, hash));
    WrittenOver(x, K.Operations(n, calls), hash, left);
    ReadsOver(states[|turns|].index.files, hash, written, |written|, left, certs);
    var old_ := certs[|written|..];
    ReadMade(n, left, hash, |written|, old_, p.cn);
    ReadMeans(left, hash, |written|, old_);
    MadeProbe(n, hash, certs, p);
    assert certs == written + old_;
  }
}
