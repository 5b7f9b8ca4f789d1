/**
 The certificate manager on the heap: entries that both tables share and that change their place in
 situ. `CertTables` describes it by value; `made` lists the entries ever made, so that an entry that has
 left its bucket but is still named keeps its number.
 */
module CertIndex {
  import opened Wrappers
  import opened CertTables

  class CertificateFile {
    const hash: string
    const cert: Certificate  // what was written when the file was added
    var index: nat

    constructor (hash: string, index: nat, cert: Certificate)
      ensures this.hash == hash && this.index == index && this.cert == cert
    {
      this.hash, this.index, this.cert := hash, index, cert;
    }
  }

  type Bucket = seq<CertificateFile>

  // The entries are those numbered.
  ghost predicate Shows(bucket: Bucket, numbers: seq<nat>, made: seq<CertificateFile>) {
    |bucket| == |numbers| && forall i | 0 <= i < |bucket| :: numbers[i] < |made| && bucket[i] == made[numbers[i]]
  }

  function BucketOf(byHash: map<string, Bucket>, hash: string): Bucket {
    if hash in byHash then byHash[hash] else []
  }

  // The tables and the directory are those of the model.
  ghost predicate TablesShow(
    byHash: map<string, Bucket>, byName: map<string, CertificateFile>, files: map<Path, Certificate>,
    made: seq<CertificateFile>, x: Index)
  {
    && (forall h :: Shows(BucketOf(byHash, h), BucketIn(x, h), made))
    && byName.Keys == x.names.Keys
    && (forall a | a in byName :: x.names[a] < |made| && byName[a] == made[x.names[a]])
    && files == x.files
  }

  // The entries are those of the model.
  ghost predicate EntriesShow(made: seq<CertificateFile>, slots: seq<Slot>)
    reads made
  {
    && |made| == |slots|
    && (forall i, j | 0 <= i < j < |made| :: made[i] != made[j])
    && forall i | 0 <= i < |made| :: slots[i] == Slot(made[i].hash, made[i].cert, made[i].index)
  }

  lemma TablesAdded(
    byHash: map<string, Bucket>, byName: map<string, CertificateFile>, files: map<Path, Certificate>,
    made: seq<CertificateFile>, x: Index, hash: string, cert: Certificate, alias: Option<string>, f: CertificateFile)
    requires TablesShow(byHash, byName, files, made, x) && |made| == |x.slots|
    ensures |BucketOf(byHash, hash)| == |BucketIn(x, hash)|
    ensures TablesShow(
      byHash[hash := BucketOf(byHash, hash) + [f]],
      if alias.Some? then byName[alias.value := f] else byName,
      files[Dotted(hash, |BucketIn(x, hash)|) := cert],
      made + [f], Added(x, hash, cert, alias))
  {
    hide Shows;
    forall h
      ensures Shows(BucketOf(byHash[hash := BucketOf(byHash, hash) + [f]], h),
        BucketIn(Added(x, hash, cert, alias), h), made + [f])
      ensures |BucketOf(byHash, h)| == |BucketIn(x, h)|
    {
      assert Shows(BucketOf(byHash, h), BucketIn(x, h), made);
      ShowsMore(BucketOf(byHash, h), BucketIn(x, h), made, f);
    }
  }

  lemma ShowsMore(bucket: Bucket, numbers: seq<nat>, made: seq<CertificateFile>, f: CertificateFile)
    requires Shows(bucket, numbers, made)
    ensures |bucket| == |numbers|
    ensures Shows(bucket, numbers, made + [f])
    ensures Shows(bucket + [f], numbers + [|made|], made + [f])
  {
  }

  lemma ShowsFewer(bucket: Bucket, numbers: seq<nat>, made: seq<CertificateFile>, index: nat)
    requires Shows(bucket, numbers, made) && index < |bucket|
    ensures Shows(SwapRemoved(bucket, index), SwapRemoved(numbers, index), made)
  {
  }

  // The entries that an index write can concern.
  lemma EntryAt(bucket: Bucket, numbers: seq<nat>, made: seq<CertificateFile>, i: nat)
    requires Shows(bucket, numbers, made) && i < |bucket|
    ensures i < |numbers| && numbers[i] < |made| && bucket[i] == made[numbers[i]] && bucket[i] in made
  {
  }

  lemma TablesTakenOut(
    byHash: map<string, Bucket>, byName: map<string, CertificateFile>, files: map<Path, Certificate>,
    made: seq<CertificateFile>, x: Index, alias: string, mended: bool, files': map<Path, Certificate>)
    requires Sound(x) && TablesShow(byHash, byName, files, made, x)
    requires Removed(x, alias, mended).Some? && files' == Removed(x, alias, mended).value.files
    ensures var slot := x.slots[x.names[alias]];
      && slot.index < |BucketOf(byHash, slot.hash)|
      && TablesShow(
           byHash[slot.hash := SwapRemoved(BucketOf(byHash, slot.hash), slot.index)],
           if mended then byName - {alias} else byName,
           files', made, Removed(x, alias, mended).value)
  {
    hide Shows, Sound, SwapRemoved;
    RemovedFrom(x, alias, mended);
    var slot := x.slots[x.names[alias]];
    var y := Removed(x, alias, mended).value;
    assert Shows(BucketOf(byHash, slot.hash), BucketIn(x, slot.hash), made);
    ShowsLength(BucketOf(byHash, slot.hash), BucketIn(x, slot.hash), made);
    ShowsFewer(BucketOf(byHash, slot.hash), BucketIn(x, slot.hash), made, slot.index);
    forall h
      ensures Shows(BucketOf(byHash[slot.hash := SwapRemoved(BucketOf(byHash, slot.hash), slot.index)], h),
        BucketIn(y, h), made)
    {
      assert Shows(BucketOf(byHash, h), BucketIn(x, h), made);
    }
  }

  lemma ShowsLength(bucket: Bucket, numbers: seq<nat>, made: seq<CertificateFile>)
    requires Shows(bucket, numbers, made)
    ensures |bucket| == |numbers|
  {
  }

  lemma PlaceOf(x: Index, hash: string, i: nat)
    requires Sound(x) && i < |BucketIn(x, hash)|
    ensures BucketIn(x, hash)[i] < |x.slots| && x.slots[BucketIn(x, hash)[i]].index == i
  {
    assert Placed(x, hash);
  }

  // What a name leads to.
  lemma NameShown(
    byHash: map<string, Bucket>, byName: map<string, CertificateFile>, files: map<Path, Certificate>,
    made: seq<CertificateFile>, x: Index, alias: string)
    requires TablesShow(byHash, byName, files, made, x) && EntriesShow(made, x.slots)
    ensures (alias in byName <==> alias in x.names) && files == x.files
    ensures alias in byName ==>
      var f := byName[alias];
      && x.names[alias] < |x.slots| && x.slots[x.names[alias]] == Slot(f.hash, f.cert, f.index)
      && |BucketOf(byHash, f.hash)| == |BucketIn(x, f.hash)|
      && Shows(BucketOf(byHash, f.hash), BucketIn(x, f.hash), made)
  {
    if alias in byName {
      ShowsLength(BucketOf(byHash, byName[alias].hash), BucketIn(x, byName[alias].hash), made);
    }
  }

  class CertificateManager {
    const mended: bool
    var byHash: map<string, Bucket>
    var byName: map<string, CertificateFile>
    var files: map<Path, Certificate>  // the directory
    ghost var made: seq<CertificateFile>
    ghost var model: Index

    constructor (mended: bool)
      ensures this.mended == mended && Valid() && made == [] && model == EMPTY
    {
      this.mended := mended;
      byHash, byName, files, made, model := map[], map[], map[], [], EMPTY;
      new;
      EmptySound();
    }

    ghost predicate Valid()
      reads this, made
    {
      Sound(model) && EntriesShow(made, model.slots) && TablesShow(byHash, byName, files, made, model)
    }

    /** addCertificate, when writing the file succeeds. */
    method AddCertificate(hash: string, cert: Certificate, alias: Option<string>)
      requires Valid()
      modifies this
      ensures Valid() && model == Added(old(model), hash, cert, alias)
      ensures |made| == |old(made)| + 1 && made[..|old(made)|] == old(made) && fresh(made[|old(made)|])
    {
      hide Sound, TablesShow;
      AddedSound(model, hash, cert, alias);
      var certs := BucketOf(byHash, hash);
      var certFile := new CertificateFile(hash, |certs|, cert);
      TablesAdded(byHash, byName, files, made, model, hash, cert, alias, certFile);
      byHash := byHash[hash := certs + [certFile]];
      if alias.Some? {
        byName := byName[alias.value := certFile];
      }
      files := files[Dotted(certFile.hash, certFile.index) := cert];
      made := made + [certFile];
      model := Added(model, hash, cert, alias);
    }

    // The file operations of Remove; a missing file is an error.
    method RemoveFile(hash: string, index: nat, last: nat) returns (ok: bool)
      requires index <= last
      modifies this`files
      ensures files == RemovedAt(old(files), PathOf(hash, index, mended), PathOf(hash, last, mended))
    {
      var target, source := PathOf(hash, index, mended), PathOf(hash, last, mended);
      ok := source in files;
      if ok {
        if index != last {
          files := (files - {source})[target := files[source]];
        } else {
          files := files - {source};
        }
      }
    }

    // The last entry of the bucket takes the freed place and is told so.
    method SwapOut(hash: string, index: nat)
      requires Sound(model) && EntriesShow(made, model.slots) && index < |BucketOf(byHash, hash)|
      requires Shows(BucketOf(byHash, hash), BucketIn(model, hash), made)
      modifies this`byHash, made
      ensures byHash == old(byHash)[hash := SwapRemoved(old(BucketOf(byHash, hash)), index)]
      ensures index < |BucketIn(model, hash)| && EntriesShow(made, TakenOut(model, hash, index).slots)
    {
      hide Sound, Shows;
      var certs := byHash[hash];
      var last := |certs| - 1;
      ShowsLength(certs, BucketIn(model, hash), made);
      EntryAt(certs, BucketIn(model, hash), made, last);
      PlaceOf(model, hash, last);
      if index != last {
        certs := certs[index := certs[last]];
        certs[index].index := index;
      }
      byHash := byHash[hash := certs[..last]];
    }

    /**
     Remove. It stops the server exactly where the removal by value does, and otherwise moves the tables,
     the places of the entries and the directory as it does.
     */
    method Remove(alias: string) returns (panicked: bool)
      requires Valid()
      modifies this, made
      ensures Valid() && made == old(made)
      ensures panicked <==> Removed(old(model), alias, mended).None?
      ensures panicked ==> model == old(model)
      ensures !panicked ==> Some(model) == Removed(old(model), alias, mended)
    {
      hide Sound, TablesShow, SwapRemoved, TakenOut, EntriesShow;
      NameShown(byHash, byName, files, made, model, alias);
      if alias !in byName {
        return true;
      }
      var certFile := byName[alias];
      if certFile.index >= |BucketOf(byHash, certFile.hash)| {
        return true;
      }
      panicked := false;
      RemovedSound(model, alias, mended);
      ghost var x, slot := model, model.slots[model.names[alias]];
      TablesTakenOut(byHash, byName, files, made, x, alias, mended, Removed(x, alias, mended).value.files);
      var hash, index := certFile.hash, certFile.index;
      var _ := RemoveFile(hash, index, |BucketOf(byHash, hash)| - 1);
      SwapOut(hash, index);
      if mended {
        byName := byName - {alias};
      }
      model := Removed(x, alias, mended).value;
    }

    /**
     Any run of additions and removals, up to one that stops the server: tables, places and directory are
     those of the run by value.
     */
    method Run(ops: seq<Operation>) returns (handled: nat)
      requires Valid()
      modifies this, made
      ensures Valid() && handled <= |ops|
      ensures |old(made)| <= |made| && made[..|old(made)|] == old(made)
      ensures forall i | |old(made)| <= i < |made| :: fresh(made[i])
      ensures After(old(model), ops[..handled], mended) == Some(model)
      ensures handled < |ops| ==> After(old(model), ops[..handled + 1], mended).None?
      ensures handled == |ops| <==> After(old(model), ops, mended).Some?
    {
      hide Sound, TablesShow, EntriesShow, Removed, Added, Valid;
      ModelSound();
      ghost var start := model;
      handled := 0;
      while handled < |ops|
        invariant Valid() && handled <= |ops|
        invariant |old(made)| <= |made| && made[..|old(made)|] == old(made)
        invariant forall i | |old(made)| <= i < |made| :: fresh(made[i])
        invariant After(start, ops[..handled], mended) == Some(model)
      {
        assert ops[..handled + 1] == ops[..handled] + [ops[handled]];
        AfterNext(start, ops[..handled], ops[handled], mended);
        match ops[handled] {
          case Add(hash, cert, alias) =>
            AddCertificate(hash, cert, alias);
          case Withdraw(name) =>
            var panicked := Remove(name);
            if panicked {
              StopsForGood(start, ops, handled + 1, mended);
              return;
            }
        }
        handled := handled + 1;
      }
      assert ops[..handled] == ops;
    }

    lemma ModelSound()
      requires Valid()
      ensures Sound(model)
    {
    }
  }
}
