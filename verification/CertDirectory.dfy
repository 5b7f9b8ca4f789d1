/**
 The directory of the certificate manager against its tables: in step with the mended Remove, and what
 it is instead with Remove as written, where a file goes only by being written over.
 */
module CertDirectory {
  import opened Wrappers
  import opened CertTables

  // The files of one hash are numbered without a gap and hold these certificates.
  ghost predicate FilesHold(files: map<Path, Certificate>, hash: string, certs: seq<Certificate>) {
    forall i: nat ::
      (Dotted(hash, i) in files <==> i < |certs|) && (i < |certs| ==> files[Dotted(hash, i)] == certs[i])
  }

  // The files of a hash in order, from this number to the first that is missing.
  ghost predicate ReadsFrom(files: map<Path, Certificate>, hash: string, from: nat, certs: seq<Certificate>) {
    Dotted(hash, from + |certs|) !in files && forall i | 0 <= i < |certs| :: IsFile(files, hash, from + i, certs[i])
  }

  predicate IsFile(files: map<Path, Certificate>, hash: string, i: nat, cert: Certificate) {
    Dotted(hash, i) in files && files[Dotted(hash, i)] == cert
  }

  // Of files numbered without a gap all are read, and nothing else.
  lemma HoldReads(files: map<Path, Certificate>, hash: string, certs: seq<Certificate>, read: seq<Certificate>)
    requires FilesHold(files, hash, certs) && ReadsFrom(files, hash, 0, read)
    ensures read == certs
  {
    var n: nat := |read|;
    assert Dotted(hash, n) !in files;
    assert n < |certs| ==> Dotted(hash, n) in files;
    if n > 0 {
      assert IsFile(files, hash, 0 + (n - 1), read[n - 1]);
    }
    forall i | 0 <= i < |read|
      ensures i < |certs| && read[i] == certs[i]
    {
      assert IsFile(files, hash, 0 + i, read[i]);
    }
  }

  ghost function Ahead(files: map<Path, Certificate>, from: nat): set<Path> {
    set path | path in files && path.index >= from
  }

  // Every directory can be read so.
  lemma {:induction false} ReadsSome(files: map<Path, Certificate>, hash: string, from: nat)
    returns (certs: seq<Certificate>)
    ensures ReadsFrom(files, hash, from, certs)
    decreases Ahead(files, from)
  {
    if Dotted(hash, from) in files {
      assert Dotted(hash, from) in Ahead(files, from) && Dotted(hash, from) !in Ahead(files, from + 1);
      var more := ReadsSome(files, hash, from + 1);
      certs := [files[Dotted(hash, from)]] + more;
      forall i | 0 <= i < |certs|
        ensures IsFile(files, hash, from + i, certs[i])
      {
        assert i > 0 ==> IsFile(files, hash, from + 1 + (i - 1), more[i - 1]);
      }
    } else {
      certs := [];
    }
  }

  // The directory is that of the tables.
  ghost predicate Matches(x: Index)
    requires Sound(x)
  {
    forall h :: FilesHold(x.files, h, Contents(x, h))
  }

  // No file lies where the written Remove looks.
  ghost predicate NoSlashed(files: map<Path, Certificate>) {
    forall h, i :: Slashed(h, i) !in files
  }

  lemma FilesDetermine(files: map<Path, Certificate>, hash: string, certs: seq<Certificate>, others: seq<Certificate>)
    requires FilesHold(files, hash, certs) && FilesHold(files, hash, others)
    ensures certs == others
  {
    assert Dotted(hash, |certs|) !in files && Dotted(hash, |others|) !in files;
    forall i | 0 <= i < |certs|
      ensures certs[i] == others[i]
    {
      assert Dotted(hash, i) in files;
    }
  }

  // A list with one place written, the next free place included.
  function Overwritten(certs: seq<Certificate>, index: nat, cert: Certificate): seq<Certificate>
    requires index <= |certs|
  {
    if index < |certs| then certs[index := cert] else certs + [cert]
  }

  lemma WrittenFile(
    files: map<Path, Certificate>, hash: string, certs: seq<Certificate>, index: nat, cert: Certificate,
    other: string, otherCerts: seq<Certificate>)
    requires FilesHold(files, hash, certs) && FilesHold(files, other, otherCerts) && index <= |certs|
    ensures FilesHold(files[Dotted(hash, index) := cert], other,
      if other == hash then Overwritten(certs, index, cert) else otherCerts)
  {
    if other == hash {
      FilesDetermine(files, hash, certs, otherCerts);
    }
  }

  lemma RemovedFile(
    files: map<Path, Certificate>, hash: string, certs: seq<Certificate>, index: nat,
    other: string, otherCerts: seq<Certificate>)
    requires FilesHold(files, hash, certs) && FilesHold(files, other, otherCerts) && index < |certs|
    ensures FilesHold(RemovedAt(files, Dotted(hash, index), Dotted(hash, |certs| - 1)), other,
      if other == hash then SwapRemoved(certs, index) else otherCerts)
  {
    if other == hash {
      FilesDetermine(files, hash, certs, otherCerts);
    }
  }

  lemma AddedMatches(x: Index, hash: string, cert: Certificate, alias: Option<string>)
    requires Sound(x) && Matches(x)
    ensures Sound(Added(x, hash, cert, alias)) && Matches(Added(x, hash, cert, alias))
  {
    hide FilesHold, Sound;
    AddedSound(x, hash, cert, alias);
    var y := Added(x, hash, cert, alias);
    forall h
      ensures FilesHold(y.files, h, Contents(y, h))
    {
      ContentsAdded(x, hash, cert, alias, h);
      WrittenFile(x.files, hash, Contents(x, hash), |BucketIn(x, hash)|, cert, h, Contents(x, h));
    }
  }

  /** After a removal the directory is that of the tables exactly when it was made under the name of the file. */
  lemma RemovedMatchesIffMended(x: Index, alias: string, mended: bool)
    requires Sound(x) && Matches(x) && NoSlashed(x.files) && Removed(x, alias, mended).Some?
    ensures Sound(Removed(x, alias, mended).value) && NoSlashed(Removed(x, alias, mended).value.files)
    ensures Matches(Removed(x, alias, mended).value) <==> mended
  {
    hide FilesHold, Sound, SwapRemoved, TakenOut;
    RemovedFrom(x, alias, mended);
    var y, slot := Removed(x, alias, mended).value, x.slots[x.names[alias]];
    var certs := Contents(x, slot.hash);
    if mended {
      forall h
        ensures FilesHold(y.files, h, Contents(y, h))
      {
        RemovedFile(x.files, slot.hash, certs, slot.index, h, Contents(x, h));
      }
    } else {
      assert y.files == x.files;
      assert FilesHold(x.files, slot.hash, certs);
      Leftover(x.files, slot.hash, certs, Contents(y, slot.hash));
    }
  }

  lemma Leftover(files: map<Path, Certificate>, hash: string, certs: seq<Certificate>, fewer: seq<Certificate>)
    requires FilesHold(files, hash, certs) && |fewer| < |certs|
    ensures !FilesHold(files, hash, fewer)
  {
    assert Dotted(hash, |fewer|) in files;
  }

  /** A live alias leads to the file that holds its own certificate. */
  lemma AliasNamesOwnFile(x: Index, alias: string)
    requires Sound(x) && Matches(x) && Live(x, alias)
    ensures var slot := x.slots[x.names[alias]];
      Dotted(slot.hash, slot.index) in x.files && x.files[Dotted(slot.hash, slot.index)] == slot.cert
  {
    hide Sound;
    var slot := x.slots[x.names[alias]];
    assert FilesHold(x.files, slot.hash, Contents(x, slot.hash));
    ContentsAt(x, x.names[alias]);
  }

  /** With the mended Remove the directory stays that of the tables over any run that does not stop the server. */
  lemma {:induction false} MendedMatches(x: Index, ops: seq<Operation>)
    requires Sound(x) && Matches(x) && NoSlashed(x.files) && After(x, ops, true).Some?
    ensures Matches(After(x, ops, true).value) && NoSlashed(After(x, ops, true).value.files)
  {
    hide Sound, Matches, Removed;
    if ops != [] {
      var most, last := ops[..|ops| - 1], ops[|ops| - 1];
      MendedMatches(x, most);
      var before := After(x, most, true).value;
      match last
      case Add(hash, cert, alias) => AddedMatches(before, hash, cert, alias);
      case Withdraw(name) => RemovedMatchesIffMended(before, name, true);
    }
  }

  // With Remove as written: each number holds the certificate last written to it.
  ghost function Written(x: Index, ops: seq<Operation>, hash: string, start: seq<Certificate>): seq<Certificate>
    requires Sound(x)
  {
    if ops == [] then start
    else
      var most, last := ops[..|ops| - 1], ops[|ops| - 1];
      var certs := Written(x, most, hash, start);
      if !last.Add? || last.hash != hash || After(x, most, false).None? then certs
      else
        var index := |BucketIn(After(x, most, false).value, hash)|;
        if index <= |certs| then Overwritten(certs, index, last.cert) else certs
  }

  /**
   That is the directory as written, over any run: its numbers have no gap, reach at least to the end of
   the bucket, and never go.
   */
  lemma {:induction false} WrittenIsDirectory(x: Index, ops: seq<Operation>, hash: string)
    requires Sound(x) && Matches(x) && NoSlashed(x.files) && After(x, ops, false).Some?
    ensures var y, certs := After(x, ops, false).value, Written(x, ops, hash, Contents(x, hash));
      && NoSlashed(y.files) && FilesHold(y.files, hash, certs)
      && |BucketIn(y, hash)| <= |certs|
      && |Contents(x, hash)| <= |certs|
  {
    hide Sound, FilesHold;
    if ops == [] {
      assert FilesHold(x.files, hash, Contents(x, hash));
    } else {
      var most, last := ops[..|ops| - 1], ops[|ops| - 1];
      WrittenIsDirectory(x, most, hash);
      var before := After(x, most, false).value;
      match last
      case Add(other, cert, alias) =>
        WrittenElsewhere(before, other, cert, hash, Written(x, most, hash, Contents(x, hash)));
      case Withdraw(name) =>
        RemovedFrom(before, name, false);
        assert After(x, ops, false).value.files == before.files;
    }
  }

  lemma WrittenElsewhere(x: Index, hash: string, cert: Certificate, other: string, certs: seq<Certificate>)
    requires FilesHold(x.files, other, certs) && |BucketIn(x, other)| <= |certs|
    ensures FilesHold(x.files[Dotted(hash, |BucketIn(x, hash)|) := cert], other,
      if other == hash then Overwritten(certs, |BucketIn(x, hash)|, cert) else certs)
  {
    if other == hash {
      WrittenFile(x.files, hash, certs, |BucketIn(x, hash)|, cert, other, certs);
    }
  }

  /** As written, the directory is that of the tables exactly where each number was last written for the entry there. */
  lemma WrittenMatchesIff(x: Index, ops: seq<Operation>)
    requires Sound(x) && Matches(x) && NoSlashed(x.files) && After(x, ops, false).Some?
    ensures Matches(After(x, ops, false).value) <==>
      forall h :: Written(x, ops, h, Contents(x, h)) == Contents(After(x, ops, false).value, h)
  {
    hide Sound, FilesHold, Written;
    var y := After(x, ops, false).value;
    forall h
      ensures FilesHold(y.files, h, Contents(y, h)) <==> Written(x, ops, h, Contents(x, h)) == Contents(y, h)
    {
      WrittenIsDirectory(x, ops, h);
      if FilesHold(y.files, h, Contents(y, h)) {
        FilesDetermine(y.files, h, Contents(y, h), Written(x, ops, h, Contents(x, h)));
      }
    }
  }

  // A new manager on a directory that is already there: only the first certificate is written.
  function Found(left: map<Path, Certificate>, hash: string, cert: Certificate): Index {
    Added(EMPTY.(files := left), hash, cert, None)
  }

  // Nothing is left that the first certificate does not write over.
  ghost predicate Clean(left: map<Path, Certificate>, hash: string) {
    forall h, i | Dotted(h, i) in left :: h == hash && i == 0
  }

  lemma FoundHolds(left: map<Path, Certificate>, hash: string, cert: Certificate)
    ensures Sound(EMPTY.(files := left)) && Sound(Found(left, hash, cert))
    ensures Found(left, hash, cert).files == left[Dotted(hash, 0) := cert]
    ensures forall h :: Contents(Found(left, hash, cert), h) == if h == hash then [cert] else []
  {
    var start := EMPTY.(files := left);
    assert forall h :: Placed(start, h);
    AddedSound(start, hash, cert, None);
    forall h
      ensures Contents(Found(left, hash, cert), h) == if h == hash then [cert] else []
    {
      ContentsAdded(start, hash, cert, None, h);
      assert Contents(start, h) == [];
    }
  }

  /** The directory found is that of the new tables exactly if it is clean. */
  lemma FoundMatchesIff(left: map<Path, Certificate>, hash: string, cert: Certificate)
    ensures Sound(Found(left, hash, cert))
    ensures Matches(Found(left, hash, cert)) <==> Clean(left, hash)
  {
    hide Sound;
    FoundHolds(left, hash, cert);
    var x := Found(left, hash, cert);
    if Clean(left, hash) {
      forall h
        ensures FilesHold(x.files, h, Contents(x, h))
      {
        FoundFiles(left, hash, cert, h);
      }
    } else {
      var h, i :| Dotted(h, i) in left && !(h == hash && i == 0);
      assert Dotted(h, i) in x.files;
      assert !FilesHold(x.files, h, Contents(x, h));
    }
  }

  lemma FoundFiles(left: map<Path, Certificate>, hash: string, cert: Certificate, h: string)
    requires Clean(left, hash)
    ensures FilesHold(left[Dotted(hash, 0) := cert], h, if h == hash then [cert] else [])
  {
  }

  /** What lies behind the first certificate, from an earlier run, is found by the probe as before. */
  lemma FoundFileStays(hash: string, cert: Certificate, first: Certificate, old_: Certificate)
    ensures var left := map[Dotted(hash, 0) := first, Dotted(hash, 1) := old_];
      FilesHold(Found(left, hash, cert).files, hash, [cert, old_])
  {
    FoundHolds(map[Dotted(hash, 0) := first, Dotted(hash, 1) := old_], hash, cert);
  }
}
