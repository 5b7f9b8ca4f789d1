/** CheckCertificate: whether the directory holds a client's key. */
module Probing {
  import opened Wrappers
  import opened CertTables
  import opened CertDirectory

  // The client's certificate: names of subject and issuer, the issuer's first unit if it has one, the key.
  datatype Presented = Presented(cn: string, issuerCn: string, issuerOu: Option<string>, key: string)

  datatype Verdict = Accepted | Refused | Failed | Stopped

  predicate SameName(c: Certificate, p: Presented) {
    p.cn == c.cn && p.issuerCn == c.cn && c.ou == p.issuerOu
  }

  // Reading the first unit of such a certificate stops the program.
  predicate Unreadable(c: Certificate, p: Presented) {
    p.cn == c.cn && p.issuerCn == c.cn && c.ou.None?
  }

  /**
   The probe of CheckCertificate: the files of the issuer's hash in order, until one bears the name or one is
   missing. On every directory it ends, with the verdict of what is there up to the first gap.
   */
  method CheckCertificate(files: map<Path, Certificate>, hashOf: (string, string) -> string, p: Presented)
    returns (verdict: Verdict, ghost certs: seq<Certificate>)
    ensures p.issuerOu.None? ==> verdict == Stopped
    ensures p.issuerOu.Some? ==>
      ReadsFrom(files, hashOf(p.issuerCn, p.issuerOu.value), 0, certs) && verdict == Probe(certs, p)
  {
    hide ReadsFrom, Probe;
    if p.issuerOu.None? {
      return Stopped, [];
    }
    var hash := hashOf(p.issuerCn, p.issuerOu.value);
    certs := ReadsSome(files, hash, 0);
    var i := 0;
    assert certs[0..] == certs;
    while Dotted(hash, i) in files
      invariant i <= |certs| && Probe(certs, p) == Probe(certs[i..], p)
      decreases |certs| - i
    {
      var c := files[Dotted(hash, i)];
      ProbeStep(files, hash, certs, i, p);
      if p.cn == c.cn && p.issuerCn == c.cn {
        if c.ou.None? {
          return Stopped, certs;
        }
        if p.issuerOu.value == c.ou.value {
          return if p.key == c.key then Accepted else Refused, certs;
        }
      }
      i := i + 1;
    }
    ProbeEnd(files, hash, certs, i, p);
    return Failed, certs;
  }

  function Probe(certs: seq<Certificate>, p: Presented): Verdict
    decreases certs, 0
  {
    if certs == [] then Failed else ProbeFrom(certs[0], certs[1..], p)
  }

  function ProbeFrom(c: Certificate, rest: seq<Certificate>, p: Presented): Verdict
    decreases rest, 1
  {
    if Unreadable(c, p) then Stopped
    else if !SameName(c, p) then Probe(rest, p)
    else if c.key == p.key then Accepted
    else Refused
  }

  lemma ProbeStep(files: map<Path, Certificate>, hash: string, certs: seq<Certificate>, i: nat, p: Presented)
    requires ReadsFrom(files, hash, 0, certs) && i <= |certs| && Dotted(hash, i) in files
    ensures i < |certs| && Probe(certs[i..], p) == ProbeFrom(files[Dotted(hash, i)], certs[i + 1..], p)
  {
    assert i < |certs| && IsFile(files, hash, 0 + i, certs[i]);
    assert certs[i..][1..] == certs[i + 1..];
  }

  lemma ProbeEnd(files: map<Path, Certificate>, hash: string, certs: seq<Certificate>, i: nat, p: Presented)
    requires ReadsFrom(files, hash, 0, certs) && Dotted(hash, i) !in files && i <= |certs|
    ensures Probe(certs[i..], p) == Failed
  {
    assert i < |certs| ==> IsFile(files, hash, 0 + i, certs[i]);
  }

  // Where every certificate can be read, the first one that bears the name decides.
  lemma {:induction false} FirstDecides(certs: seq<Certificate>, p: Presented) returns (first: nat)
    requires forall c | c in certs :: !Unreadable(c, p)
    ensures first <= |certs| && forall i | 0 <= i < first :: !SameName(certs[i], p)
    ensures first == |certs| ==> Probe(certs, p) == Failed
    ensures first < |certs| ==> SameName(certs[first], p)
    ensures first < |certs| ==> Probe(certs, p) == (if certs[first].key == p.key then Accepted else Refused)
  {
    if certs == [] || SameName(certs[0], p) {
      first := 0;
    } else {
      first := FirstDecides(certs[1..], p);
      first := first + 1;
      assert forall i | 1 <= i < first :: certs[i] == certs[1..][i - 1];
    }
  }

  // Certificates that bear the presented name have one key among them.
  predicate OneKey(certs: seq<Certificate>, p: Presented) {
    forall c, d :: c in certs && d in certs && SameName(c, p) && SameName(d, p) ==> c.key == d.key
  }

  predicate Found(certs: seq<Certificate>, p: Presented) {
    exists c :: c in certs && SameName(c, p) && c.key == p.key
  }

  lemma ProbeIsSearch(certs: seq<Certificate>, p: Presented)
    requires forall c | c in certs :: !Unreadable(c, p)
    requires OneKey(certs, p)
    ensures Probe(certs, p) == Accepted <==> Found(certs, p)
  {
    var first := FirstDecides(certs, p);
    if first < |certs| {
      assert certs[first] in certs;
    }
  }

  /** The probe agrees with a search of the unordered set for every key exactly when the name has one key. */
  lemma ProbeIsSearchIffOneKey(certs: seq<Certificate>, p: Presented)
    requires forall c | c in certs :: !Unreadable(c, p)
    ensures (forall key :: Probe(certs, p.(key := key)) == Accepted <==> Found(certs, p.(key := key)))
      <==> OneKey(certs, p)
  {
    hide Probe;
    if OneKey(certs, p) {
      forall key
        ensures Probe(certs, p.(key := key)) == Accepted <==> Found(certs, p.(key := key))
      {
        ProbeIsSearch(certs, p.(key := key));
      }
    } else {
      var c, d :| c in certs && d in certs && SameName(c, p) && SameName(d, p) && c.key != d.key;
      forall e | e in [c, d]
        ensures Found(certs, p.(key := e.key))
      {
        assert SameName(e, p.(key := e.key));
      }
      var asC := FirstDecides(certs, p.(key := c.key));
      var asD := FirstDecides(certs, p.(key := d.key));
    }
  }

  // The certificates a bucket of the directory can be searched for under this name: readable, with one key.
  ghost predicate Searchable(certs: seq<Certificate>, p: Presented) {
    (forall c | c in certs :: !Unreadable(c, p)) && OneKey(certs, p)
  }

  /** On a directory in step with the tables the probe is a search of the entries held. */
  lemma ProbeFindsHeld(x: Index, hash: string, certs: seq<Certificate>, p: Presented)
    requires Sound(x) && Matches(x) && FilesHold(x.files, hash, certs)
    requires Searchable(Contents(x, hash), p)
    ensures Probe(certs, p) == Accepted <==> exists c :: c in HeldIn(x, hash) && SameName(c, p) && c.key == p.key
  {
    hide Sound, FilesHold, Probe;
    assert FilesHold(x.files, hash, Contents(x, hash));
    FilesDetermine(x.files, hash, certs, Contents(x, hash));
    ProbeIsSearch(certs, p);
    assert forall c :: c in certs <==> c in multiset(certs);
  }

  /** With Remove as written it is a search of what was last written to each number. */
  lemma ProbeFindsWritten(x: Index, ops: seq<Operation>, hash: string, certs: seq<Certificate>, p: Presented)
    requires Sound(x) && Matches(x) && NoSlashed(x.files) && After(x, ops, false).Some?
    requires FilesHold(After(x, ops, false).value.files, hash, certs)
    requires Searchable(Written(x, ops, hash, Contents(x, hash)), p)
    ensures Probe(certs, p) == Accepted <==> Found(Written(x, ops, hash, Contents(x, hash)), p)
  {
    hide Sound, Matches, FilesHold, Probe, Written;
    WrittenIsDirectory(x, ops, hash);
    FilesDetermine(After(x, ops, false).value.files, hash, certs, Written(x, ops, hash, Contents(x, hash)));
    ProbeIsSearch(certs, p);
  }

  /**
   As written, in four calls: a certificate that was withdrawn is still accepted, and one that is still in
   the tables is not found any more, because its file was written over.
   */
  lemma WithdrawnAcceptedLiveLost(
    hash: string, cn: string, a: (string, string), b: (string, string), c: (string, string), x: string, y: string,
    z: string, p: Presented)
    requires a.0 != b.0 && b.0 != c.0 && x != y
    requires p.cn == p.issuerCn == cn
    ensures var end := After(EMPTY, FourCalls(hash, cn, a, b, c, x, y, z), false);
      && Sound(EMPTY) && end.Some? && Contents(end.value, hash) == [CertOf(cn, b), CertOf(cn, c)]
      && FilesHold(end.value.files, hash, [CertOf(cn, a), CertOf(cn, c)])
    ensures Probe([CertOf(cn, a), CertOf(cn, c)], p.(issuerOu := Some(a.0), key := a.1)) == Accepted
    ensures Probe([CertOf(cn, a), CertOf(cn, c)], p.(issuerOu := Some(b.0), key := b.1)) == Failed
  {
    hide Sound, SwapRemoved, Added, Removed, After, Probe, FilesHold, Contents;
    ProbeOfTwo(cn, a, b, c, p);
    EmptySound();
    var ca, cb, cc := CertOf(cn, a), CertOf(cn, b), CertOf(cn, c);
    var one := Added(EMPTY, hash, ca, Some(x));
    AddedSound(EMPTY, hash, ca, Some(x));
    ContentsAdded(EMPTY, hash, ca, Some(x), hash);
    FirstAdded(hash, ca, x);
    var two := Added(one, hash, cb, Some(y));
    AddedSound(one, hash, cb, Some(y));
    ContentsAdded(one, hash, cb, Some(y), hash);
    SecondAdded(one, hash, cb, x, y);
    RemovedFirst(two, x, hash, ca);
    RemovedFrom(two, x, false);
    var three := Removed(two, x, false).value;
    SwappedTwo(ca, cb);
    assert Contents(two, hash) == [ca, cb] && Contents(three, hash) == [cb];
    ContentsAdded(three, hash, cc, Some(z), hash);
    ThirdAdded(three, hash, ca, cb, cc, z);
    FourSteps(EMPTY, FourCalls(hash, cn, a, b, c, x, y, z), one, two, three, Added(three, hash, cc, Some(z)), false);
  }

  function FourCalls(
    hash: string, cn: string, a: (string, string), b: (string, string), c: (string, string), x: string, y: string,
    z: string): seq<Operation>
  {
    [Add(hash, CertOf(cn, a), Some(x)), Add(hash, CertOf(cn, b), Some(y)), Withdraw(x),
     Add(hash, CertOf(cn, c), Some(z))]
  }

  lemma FourSteps(
    x: Index, ops: seq<Operation>, one: Index, two: Index, three: Index, four: Index, mended: bool)
    requires Sound(x) && |ops| == 4 && Step(x, ops[0], mended) == Some(one)
    requires Sound(one) && Step(one, ops[1], mended) == Some(two)
    requires Sound(two) && Step(two, ops[2], mended) == Some(three)
    requires Sound(three) && Step(three, ops[3], mended) == Some(four)
    ensures After(x, ops, mended) == Some(four)
  {
    hide Sound, Step;
    assert ops == [] + [ops[0]] + [ops[1]] + [ops[2]] + [ops[3]];
    AfterNext(x, [], ops[0], mended);
    AfterNext(x, [] + [ops[0]], ops[1], mended);
    AfterNext(x, [] + [ops[0]] + [ops[1]], ops[2], mended);
    AfterNext(x, [] + [ops[0]] + [ops[1]] + [ops[2]], ops[3], mended);
  }

  lemma FirstAdded(hash: string, cert: Certificate, x: string)
    ensures var one := Added(EMPTY, hash, cert, Some(x));
      && one.names == map[x := 0] && one.slots == [Slot(hash, cert, 0)] && one.files == map[Dotted(hash, 0) := cert]
      && |BucketIn(one, hash)| == 1
  {
  }

  lemma SecondAdded(one: Index, hash: string, cert: Certificate, x: string, y: string)
    requires x != y && x in one.names && one.names[x] < |one.slots| && |BucketIn(one, hash)| == 1
    ensures var two := Added(one, hash, cert, Some(y));
      && x in two.names && two.names[x] == one.names[x] && two.slots[two.names[x]] == one.slots[one.names[x]]
      && two.files == one.files[Dotted(hash, 1) := cert] && |BucketIn(two, hash)| == 2
  {
  }

  lemma ThirdAdded(three: Index, hash: string, a: Certificate, b: Certificate, c: Certificate, z: string)
    requires |BucketIn(three, hash)| == 1 && three.files == map[Dotted(hash, 0) := a][Dotted(hash, 1) := b]
    ensures FilesHold(Added(three, hash, c, Some(z)).files, hash, [a, c])
  {
  }

  lemma RemovedFirst(x: Index, alias: string, hash: string, cert: Certificate)
    requires Sound(x) && alias in x.names && x.slots[x.names[alias]] == Slot(hash, cert, 0) && BucketIn(x, hash) != []
    requires forall h, i :: Slashed(h, i) !in x.files
    ensures Removed(x, alias, false).Some? && Removed(x, alias, false).value.files == x.files
  {
  }

  lemma ProbeOfTwo(cn: string, a: (string, string), b: (string, string), c: (string, string), p: Presented)
    requires a.0 != b.0 && b.0 != c.0 && p.cn == p.issuerCn == cn
    ensures Probe([CertOf(cn, a), CertOf(cn, c)], p.(issuerOu := Some(a.0), key := a.1)) == Accepted
    ensures Probe([CertOf(cn, a), CertOf(cn, c)], p.(issuerOu := Some(b.0), key := b.1)) == Failed
  {
    var certs := [CertOf(cn, a), CertOf(cn, c)];
    var single := [CertOf(cn, c)];
    assert certs[1..] == single && single[1..] == [];
    var q := p.(issuerOu := Some(b.0), key := b.1);
    assert !SameName(CertOf(cn, a), q) && !SameName(CertOf(cn, c), q);
    assert Probe([], q) == Failed && ProbeFrom(CertOf(cn, c), [], q) == Failed;
    assert Probe(single, q) == Failed;
  }

  function CertOf(cn: string, unit: (string, string)): Certificate {
    Certificate(cn, Some(unit.0), unit.1)
  }

  lemma SwappedTwo<T>(a: T, b: T)
    ensures SwapRemoved([a, b], 0) == [b]
  {
  }
}
