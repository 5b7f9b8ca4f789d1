/**
 What a run of additions under fresh names and removals of registered names should leave, whatever the
 places and files: the names with their certificates, and how often each bucket holds each certificate.
 */
module CertRecord {
  import opened Wrappers
  import opened CertTables
  import opened CertDirectory
  import opened Probing

  type Entry = (string, Certificate)

  datatype Record = Record(names: map<string, Entry>, held: multiset<Entry>)

  function Applied(record: Record, op: Operation): Record {
    match op
    case Add(hash, cert, alias) =>
      Record(if alias.Some? then record.names[alias.value := (hash, cert)] else record.names,
             record.held + multiset{(hash, cert)})
    case Withdraw(alias) =>
      if alias !in record.names then record
      else Record(record.names - {alias}, record.held - multiset{record.names[alias]})
  }

  function Recorded(start: Record, ops: seq<Operation>): Record {
    if ops == [] then start else Applied(Recorded(start, ops[..|ops| - 1]), ops[|ops| - 1])
  }

  // What the callers owe: a new name is fresh, a withdrawn one is registered.
  predicate Fits(record: Record, op: Operation) {
    match op
    case Add(_, _, alias) => alias.Some? ==> alias.value !in record.names
    case Withdraw(name) => name in record.names
  }

  // Every name on record is live and stands for its certificate; the buckets hold what is on record.
  ghost predicate Agrees(x: Index, record: Record) {
    Sound(x) && NamesHold(x, record.names) && BucketsHold(x, record.held)
  }

  ghost predicate NamesHold(x: Index, names: map<string, Entry>) {
    forall a | a in names :: Stands(x, a, names[a])
  }

  // A live name that stands for this certificate.
  predicate Stands(x: Index, alias: string, entry: Entry) {
    Live(x, alias) && EntryOf(x, x.names[alias]) == entry
  }

  ghost predicate BucketsHold(x: Index, held: multiset<Entry>)
    requires Sound(x)
  {
    forall h, c :: HeldIn(x, h)[c] == held[(h, c)]
  }

  lemma CountMore(
    m: multiset<Certificate>, held: multiset<Entry>, hash: string, cert: Certificate, h: string, c: Certificate)
    requires m[c] == held[(h, c)]
    ensures (m + if h == hash then multiset{cert} else multiset{})[c] == (held + multiset{(hash, cert)})[(h, c)]
  {
  }

  lemma CountLess(
    m: multiset<Certificate>, held: multiset<Entry>, hash: string, cert: Certificate, h: string, c: Certificate)
    requires m[c] == held[(h, c)]
    ensures (m - if h == hash then multiset{cert} else multiset{})[c] == (held - multiset{(hash, cert)})[(h, c)]
  {
  }

  function EntryOf(x: Index, k: nat): Entry
    requires k < |x.slots|
  {
    (x.slots[k].hash, x.slots[k].cert)
  }

  lemma AddHolds(x: Index, held: multiset<Entry>, hash: string, cert: Certificate, alias: Option<string>)
    requires Sound(x) && BucketsHold(x, held)
    ensures Sound(Added(x, hash, cert, alias))
    ensures BucketsHold(Added(x, hash, cert, alias), held + multiset{(hash, cert)})
  {
    hide Sound, Added, HeldIn;
    AddedHeld(x, hash, cert, alias);
    forall h, c
      ensures HeldIn(Added(x, hash, cert, alias), h)[c] == (held + multiset{(hash, cert)})[(h, c)]
    {
      CountMore(HeldIn(x, h), held, hash, cert, h, c);
    }
  }

  lemma RemoveHolds(x: Index, held: multiset<Entry>, alias: string, mended: bool)
    requires Sound(x) && BucketsHold(x, held) && Live(x, alias)
    ensures Removed(x, alias, mended).Some? && Sound(Removed(x, alias, mended).value)
    ensures BucketsHold(Removed(x, alias, mended).value, held - multiset{EntryOf(x, x.names[alias])})
  {
    hide Sound, Removed, HeldIn;
    RemovedOwn(x, alias, mended);
    var (hash, cert) := EntryOf(x, x.names[alias]);
    forall h, c
      ensures HeldIn(Removed(x, alias, mended).value, h)[c] == (held - multiset{(hash, cert)})[(h, c)]
    {
      CountLess(HeldIn(x, h), held, hash, cert, h, c);
    }
  }

  lemma AddAgrees(x: Index, record: Record, hash: string, cert: Certificate, alias: Option<string>)
    requires Agrees(x, record) && Fits(record, Add(hash, cert, alias))
    ensures Agrees(Added(x, hash, cert, alias), Applied(record, Add(hash, cert, alias)))
  {
    hide Sound, Added, BucketsHold, Stands;
    AddHolds(x, record.held, hash, cert, alias);
    AddedNames(x, hash, cert, alias);
  }

  lemma WithdrawAgrees(x: Index, record: Record, alias: string, mended: bool)
    requires Agrees(x, record) && alias in record.names
    ensures Removed(x, alias, mended).Some?
    ensures Agrees(Removed(x, alias, mended).value, Applied(record, Withdraw(alias)))
  {
    hide Removed, BucketsHold, AtPlace, Placed;
    RemoveHolds(x, record.held, alias, mended);
    RemovedOwn(x, alias, mended);
    forall a | a in record.names && a != alias
      ensures Stands(Removed(x, alias, mended).value, a, record.names[a])
    {
      assert Stands(x, a, record.names[a]) && x.names[a] != x.names[alias];
    }
  }

  lemma StepAgrees(x: Index, record: Record, op: Operation, mended: bool)
    requires Agrees(x, record) && Fits(record, op)
    ensures Step(x, op, mended).Some? && Agrees(Step(x, op, mended).value, Applied(record, op))
  {
    hide Sound, Added, Removed, HeldIn, Live, Applied, Agrees;
    AgreesSound(x, record);
    match op
    case Add(hash, cert, alias) => AddAgrees(x, record, hash, cert, alias);
    case Withdraw(alias) => WithdrawAgrees(x, record, alias, mended);
  }

  lemma AddedHeld(x: Index, hash: string, cert: Certificate, alias: Option<string>)
    requires Sound(x)
    ensures Sound(Added(x, hash, cert, alias))
    ensures forall h ::
      HeldIn(Added(x, hash, cert, alias), h) == HeldIn(x, h) + if h == hash then multiset{cert} else multiset{}
  {
    hide Sound, Added;
    AddedSound(x, hash, cert, alias);
    forall h
      ensures HeldIn(Added(x, hash, cert, alias), h) == HeldIn(x, h) + if h == hash then multiset{cert} else multiset{}
    {
      ContentsAdded(x, hash, cert, alias, h);
    }
  }

  lemma AddedNames(x: Index, hash: string, cert: Certificate, alias: Option<string>)
    requires Sound(x)
    ensures var y := Added(x, hash, cert, alias);
      && (alias.Some? ==> Stands(y, alias.value, (hash, cert)))
      && forall a, e | Stands(x, a, e) && Some(a) != alias :: Stands(y, a, e)
  {
    AddedPlaces(x, hash, cert, alias);
  }

  /**
   Over any such run, with either Remove, no removal stops the server, every name on record stays live and
   stands for its own certificate, and the buckets hold exactly what is on record.
   */
  lemma {:induction false} RunAgrees(x: Index, record: Record, ops: seq<Operation>, mended: bool)
    requires Agrees(x, record)
    requires forall i | 0 <= i < |ops| :: Fits(Recorded(record, ops[..i]), ops[i])
    ensures After(x, ops, mended).Some? && Agrees(After(x, ops, mended).value, Recorded(record, ops))
  {
    hide Agrees, Step, Applied, Fits;
    AgreesSound(x, record);
    if ops != [] {
      var most := ops[..|ops| - 1];
      assert forall i | 0 <= i < |most| :: most[..i] == ops[..i];
      RunAgrees(x, record, most, mended);
      AgreesSound(After(x, most, mended).value, Recorded(record, most));
      StepAgrees(After(x, most, mended).value, Recorded(record, most), ops[|ops| - 1], mended);
    }
  }

  lemma AgreesSound(x: Index, record: Record)
    requires Agrees(x, record)
    ensures Sound(x)
  {
  }

  /** With the mended Remove the directory then holds just what is on record, and every name leads to its own file. */
  lemma DirectoryHoldsRecord(x: Index, record: Record, ops: seq<Operation>, hash: string)
    returns (certs: seq<Certificate>)
    requires Agrees(x, record) && Matches(x) && NoSlashed(x.files)
    requires forall i | 0 <= i < |ops| :: Fits(Recorded(record, ops[..i]), ops[i])
    ensures After(x, ops, true).Some? && FilesHold(After(x, ops, true).value.files, hash, certs)
    ensures forall c :: multiset(certs)[c] == Recorded(record, ops).held[(hash, c)]
    ensures forall a | a in Recorded(record, ops).names ::
      var y := After(x, ops, true).value;
      a in y.names && y.names[a] < |y.slots| &&
      var slot := y.slots[y.names[a]];
      var path := Dotted(slot.hash, slot.index);
      path in y.files && (slot.hash, y.files[path]) == Recorded(record, ops).names[a]
  {
    hide Recorded, Fits;
    RunAgrees(x, record, ops, true);
    MendedMatches(x, ops);
    var y := After(x, ops, true).value;
    certs := Contents(y, hash);
    forall a | a in Recorded(record, ops).names
      ensures var slot := y.slots[y.names[a]]; var path := Dotted(slot.hash, slot.index);
        path in y.files && (slot.hash, y.files[path]) == Recorded(record, ops).names[a]
    {
      AliasNamesOwnFile(y, a);
    }
  }

  /**
   The probe of the directory accepts a key exactly when a certificate with that name and key is on
   record: no order of additions and removals matters, nor that hashes may collide.
   */
  lemma ProbeFindsRecord(x: Index, record: Record, hash: string, certs: seq<Certificate>, p: Presented)
    requires Agrees(x, record) && Matches(x) && FilesHold(x.files, hash, certs)
    requires Searchable(Contents(x, hash), p)
    ensures Probe(certs, p) == Accepted <==>
      exists c :: (hash, c) in record.held && SameName(c, p) && c.key == p.key
  {
    hide Sound, Probe, FilesHold, Matches, SameName, NamesHold;
    ProbeFindsHeld(x, hash, certs, p);
    forall c
      ensures c in HeldIn(x, hash) <==> (hash, c) in record.held
    {
      assert HeldIn(x, hash)[c] == record.held[(hash, c)];
    }
  }
}
