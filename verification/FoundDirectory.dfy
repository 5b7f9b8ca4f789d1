/**
 The directory over a run when it was not empty at the start: which files are the run's own and which are left
 from before, with the mended Remove and with Remove as written.
 */
module FoundDirectory {
  import opened CertTables
  import opened CertDirectory

  // The files of one hash: these certificates, then none up to the peak, and from there on what was left before.
  ghost predicate FilesOver(
    files: map<Path, Certificate>, hash: string, certs: seq<Certificate>, peak: nat, left: map<Path, Certificate>)
  {
    && |certs| <= peak
    && forall i: nat :: FileOver(files, hash, i, certs, peak, left)
  }

  ghost predicate FileOver(
    files: map<Path, Certificate>, hash: string, i: nat, certs: seq<Certificate>, peak: nat,
    left: map<Path, Certificate>)
  {
    var path := Dotted(hash, i);
    if i < |certs| then path in files && files[path] == certs[i]
    else if i < peak then path !in files
    else SameFile(files, left, path)
  }

  ghost predicate SameFile(files: map<Path, Certificate>, left: map<Path, Certificate>, path: Path) {
    (path in files <==> path in left) && (path in files ==> files[path] == left[path])
  }

  // On a new manager the files are those found, but for the first certificate.
  lemma FoundOver(left: map<Path, Certificate>, hash: string, cert: Certificate, h: string)
    ensures Sound(Found(left, hash, cert))
    ensures var certs := Contents(Found(left, hash, cert), h);
      FilesOver(Found(left, hash, cert).files, h, certs, |certs|, left)
  {
    FoundHolds(left, hash, cert);
  }

  function Max(a: nat, b: nat): nat {
    if a < b then b else a
  }

  // The greatest length the bucket has had in the run.
  ghost function Peak(x: Index, ops: seq<Operation>, hash: string, mended: bool): (peak: nat)
    requires Sound(x)
  {
    if ops == [] then |Contents(x, hash)|
    else
      var before, now := Peak(x, ops[..|ops| - 1], hash, mended), After(x, ops, mended);
      if now.None? then before else Max(before, |Contents(now.value, hash)|)
  }

  lemma AddedOver(
    files: map<Path, Certificate>, hash: string, certs: seq<Certificate>, peak: nat, left: map<Path, Certificate>,
    cert: Certificate)
    requires FilesOver(files, hash, certs, peak, left)
    ensures FilesOver(files[Dotted(hash, |certs|) := cert], hash, certs + [cert], Max(peak, |certs| + 1), left)
  {
    var next, more, reached := files[Dotted(hash, |certs|) := cert], certs + [cert], Max(peak, |certs| + 1);
    forall i: nat
      ensures FileOver(next, hash, i, more, reached, left)
    {
      assert FileOver(files, hash, i, certs, peak, left);
    }
  }

  lemma RemovedOver(
    files: map<Path, Certificate>, hash: string, certs: seq<Certificate>, peak: nat, left: map<Path, Certificate>,
    index: nat)
    requires FilesOver(files, hash, certs, peak, left) && index < |certs|
    ensures FilesOver(RemovedAt(files, Dotted(hash, index), Dotted(hash, |certs| - 1)), hash,
      SwapRemoved(certs, index), peak, left)
  {
    var next := RemovedAt(files, Dotted(hash, index), Dotted(hash, |certs| - 1));
    assert FileOver(files, hash, |certs| - 1, certs, peak, left);
    forall i: nat
      ensures FileOver(next, hash, i, SwapRemoved(certs, index), peak, left)
    {
      assert FileOver(files, hash, i, certs, peak, left);
    }
  }

  // Nothing happens to this hash.
  lemma ElsewhereOver(
    files: map<Path, Certificate>, next: map<Path, Certificate>, hash: string, certs: seq<Certificate>, peak: nat,
    left: map<Path, Certificate>)
    requires FilesOver(files, hash, certs, peak, left) && forall i :: SameFile(next, files, Dotted(hash, i))
    ensures FilesOver(next, hash, certs, peak, left)
  {
    forall i: nat
      ensures FileOver(next, hash, i, certs, peak, left)
    {
      assert FileOver(files, hash, i, certs, peak, left) && SameFile(next, files, Dotted(hash, i));
    }
  }

  lemma MendedStepOver(x: Index, op: Operation, hash: string, peak: nat, left: map<Path, Certificate>)
    requires Sound(x) && FilesOver(x.files, hash, Contents(x, hash), peak, left) && Step(x, op, true).Some?
    ensures var y := Step(x, op, true).value;
      FilesOver(y.files, hash, Contents(y, hash), Max(peak, |Contents(y, hash)|), left)
  {
    hide Sound, FilesOver, Contents, TakenOut, RemovedAt;
    Within(x.files, hash, Contents(x, hash), peak, left);
    match op
    case Add(other, cert, alias) =>
      ContentsAdded(x, other, cert, alias, hash);
      var at := |Contents(x, other)|;
      if other == hash {
        AddedOver(x.files, hash, Contents(x, hash), peak, left, cert);
      } else {
        AddedElsewhere(x.files, other, at, cert, hash);
        ElsewhereOver(x.files, x.files[Dotted(other, at) := cert], hash, Contents(x, hash), peak, left);
      }
    case Withdraw(name) =>
      RemovedFrom(x, name, true);
      var slot := x.slots[x.names[name]];
      var last := |BucketIn(x, slot.hash)| - 1;
      if slot.hash == hash {
        RemovedOver(x.files, hash, Contents(x, hash), peak, left, slot.index);
      } else {
        var next := RemovedAt(x.files, Dotted(slot.hash, slot.index), Dotted(slot.hash, last));
        RemovedElsewhere(x.files, Dotted(slot.hash, slot.index), Dotted(slot.hash, last), hash);
        ElsewhereOver(x.files, next, hash, Contents(x, hash), peak, left);
      }
  }

  lemma Within(
    files: map<Path, Certificate>, hash: string, certs: seq<Certificate>, peak: nat, left: map<Path, Certificate>)
    requires FilesOver(files, hash, certs, peak, left)
    ensures |certs| <= peak
  {
  }

  lemma AddedElsewhere(files: map<Path, Certificate>, other: string, at: nat, cert: Certificate, hash: string)
    requires other != hash
    ensures forall i :: SameFile(files[Dotted(other, at) := cert], files, Dotted(hash, i))
  {
  }

  lemma RemovedElsewhere(files: map<Path, Certificate>, target: Path, source: Path, hash: string)
    requires forall i :: target != Dotted(hash, i) && source != Dotted(hash, i)
    ensures forall i :: SameFile(RemovedAt(files, target, source), files, Dotted(hash, i))
  {
  }

  /**
   With the mended Remove: a number in use holds the certificate there, a number that was in use holds none,
   and from the peak on there is what was there before.
   */
  lemma {:induction false} MendedOver(
    x: Index, ops: seq<Operation>, hash: string, left: map<Path, Certificate>)
    requires Sound(x) && FilesOver(x.files, hash, Contents(x, hash), |Contents(x, hash)|, left)
    requires After(x, ops, true).Some?
    ensures var y := After(x, ops, true).value;
      FilesOver(y.files, hash, Contents(y, hash), Peak(x, ops, hash, true), left)
  {
    hide Sound, FilesOver, Step;
    if ops != [] {
      var most := ops[..|ops| - 1];
      MendedOver(x, most, hash, left);
      MendedStepOver(After(x, most, true).value, ops[|ops| - 1], hash, Peak(x, most, hash, true), left);
    }
  }

  lemma WrittenStepOver(
    x: Index, op: Operation, hash: string, certs: seq<Certificate>, left: map<Path, Certificate>)
    requires Sound(x) && FilesOver(x.files, hash, certs, |certs|, left) && |Contents(x, hash)| <= |certs|
    requires Step(x, op, false).Some?
    ensures var y := Step(x, op, false).value;
      var next := if op.Add? && op.hash == hash then Overwritten(certs, |Contents(x, hash)|, op.cert) else certs;
      FilesOver(y.files, hash, next, |next|, left) && |Contents(y, hash)| <= |next|
  {
    hide Sound, FilesOver, Contents, TakenOut, RemovedAt;
    match op
    case Add(other, cert, alias) =>
      ContentsAdded(x, other, cert, alias, hash);
      var at := |Contents(x, other)|;
      if other == hash && at == |certs| {
        AddedOver(x.files, hash, certs, |certs|, left, cert);
      } else if other == hash {
        OverwrittenOver(x.files, hash, certs, left, at, cert);
      } else {
        AddedElsewhere(x.files, other, at, cert, hash);
        ElsewhereOver(x.files, x.files[Dotted(other, at) := cert], hash, certs, |certs|, left);
      }
    case Withdraw(name) =>
      RemovedFrom(x, name, false);
      var slot := x.slots[x.names[name]];
      var last := |BucketIn(x, slot.hash)| - 1;
      var next := RemovedAt(x.files, Slashed(slot.hash, slot.index), Slashed(slot.hash, last));
      RemovedElsewhere(x.files, Slashed(slot.hash, slot.index), Slashed(slot.hash, last), hash);
      ElsewhereOver(x.files, next, hash, certs, |certs|, left);
  }

  lemma OverwrittenOver(
    files: map<Path, Certificate>, hash: string, certs: seq<Certificate>, left: map<Path, Certificate>, index: nat,
    cert: Certificate)
    requires FilesOver(files, hash, certs, |certs|, left) && index < |certs|
    ensures FilesOver(files[Dotted(hash, index) := cert], hash, certs[index := cert], |certs|, left)
  {
    var next, changed := files[Dotted(hash, index) := cert], certs[index := cert];
    forall i: nat
      ensures FileOver(next, hash, i, changed, |certs|, left)
    {
      assert FileOver(files, hash, i, certs, |certs|, left);
    }
  }

  /** As written: each number used holds the certificate last written to it, and from there on what was there before. */
  lemma {:induction false} WrittenOver(
    x: Index, ops: seq<Operation>, hash: string, left: map<Path, Certificate>)
    requires Sound(x) && FilesOver(x.files, hash, Contents(x, hash), |Contents(x, hash)|, left)
    requires After(x, ops, false).Some?
    ensures var y, certs := After(x, ops, false).value, Written(x, ops, hash, Contents(x, hash));
      FilesOver(y.files, hash, certs, |certs|, left) && |Contents(y, hash)| <= |certs|
  {
    hide Sound, FilesOver, Step, Contents;
    if ops != [] {
      var most, last := ops[..|ops| - 1], ops[|ops| - 1];
      WrittenOver(x, most, hash, left);
      WrittenStepOver(After(x, most, false).value, last, hash, Written(x, most, hash, Contents(x, hash)), left);
    }
  }

  // Read in order, such a directory gives the certificates, and what was left only if that follows without a gap.
  lemma ReadsOver(
    files: map<Path, Certificate>, hash: string, certs: seq<Certificate>, peak: nat, left: map<Path, Certificate>,
    read: seq<Certificate>)
    requires FilesOver(files, hash, certs, peak, left) && ReadsFrom(files, hash, 0, read)
    ensures |certs| <= |read| && read[..|certs|] == certs
    ensures |certs| < peak ==> read == certs
    ensures |certs| == peak ==> ReadsFrom(left, hash, peak, read[|certs|..])
  {
    assert FileOver(files, hash, |read|, certs, peak, left) && FileOver(files, hash, |certs|, certs, peak, left);
    forall i | 0 <= i < |read|
      ensures FileOver(files, hash, i, certs, peak, left) && IsFile(files, hash, 0 + i, read[i])
    {
    }
    if |certs| == peak {
      forall i | 0 <= i < |read| - |certs|
        ensures IsFile(left, hash, peak + i, read[|certs|..][i])
      {
        assert IsFile(files, hash, 0 + (peak + i), read[peak + i]);
        assert FileOver(files, hash, peak + i, certs, peak, left);
      }
    }
  }

  // A file left from before that is still read: no number is missing from this one up to its own.
  ghost predicate StillRead(left: map<Path, Certificate>, hash: string, from: nat, cert: Certificate) {
    exists k: nat :: from <= k && NoGap(left, hash, from, k) && IsFile(left, hash, k, cert)
  }

  ghost predicate NoGap(left: map<Path, Certificate>, hash: string, from: nat, to: nat) {
    forall i | from <= i <= to :: Dotted(hash, i) in left
  }

  lemma ReadMeans(left: map<Path, Certificate>, hash: string, from: nat, old_: seq<Certificate>)
    requires ReadsFrom(left, hash, from, old_)
    ensures forall cert :: cert in old_ <==> StillRead(left, hash, from, cert)
  {
    forall cert
      ensures cert in old_ <==> StillRead(left, hash, from, cert)
    {
      if cert in old_ {
        var i :| 0 <= i < |old_| && old_[i] == cert;
        assert IsFile(left, hash, from + i, cert);
        forall j | from <= j <= from + i
          ensures Dotted(hash, j) in left
        {
          assert IsFile(left, hash, from + (j - from), old_[j - from]);
        }
        assert NoGap(left, hash, from, from + i);
      }
      if StillRead(left, hash, from, cert) {
        var k: nat :| from <= k && NoGap(left, hash, from, k) && IsFile(left, hash, k, cert);
        assert Dotted(hash, from + |old_|) !in left;
        assert k < from + |old_|;
        assert IsFile(left, hash, from + (k - from), old_[k - from]);
      }
    }
  }
}
