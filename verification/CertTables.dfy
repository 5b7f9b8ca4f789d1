/**
 The certificate manager by value: its two tables, the entries they share, and the directory with
 OpenSSL's hashed names, `hash.0`, `hash.1`, ..., moved by additions and removals one at a time. `CertIndex`
 is the same on the heap.

 The source is the manager with `mended == false`: Remove builds the path `hash/index` where the
 certificates lie at `hash.index`, so its file operations fail, and it leaves the alias registered.
 With `mended == true` Remove uses the name addCertificate uses and forgets the alias.
 */
module CertTables {
  import opened Wrappers

  // The fields CheckCertificate compares. Certificates of the authority itself have no unit.
  datatype Certificate = Certificate(cn: string, ou: Option<string>, key: string)

  datatype Path = Dotted(hash: string, index: nat) | Slashed(hash: string, index: nat)

  // An entry of the tables: its bucket, the certificate it was made for and its place.
  datatype Slot = Slot(hash: string, cert: Certificate, index: nat)

  // Entries are told apart by their number in `slots`. An entry that has left its bucket keeps its last place.
  datatype Index = Index(
    slots: seq<Slot>, buckets: map<string, seq<nat>>, names: map<string, nat>, files: map<Path, Certificate>)

  const EMPTY := Index([], map[], map[], map[])

  // What the callers ask for: adding a certificate, with or without a name, and withdrawing a name.
  datatype Operation = Add(hash: string, cert: Certificate, alias: Option<string>) | Withdraw(name: string)

  function BucketIn(x: Index, hash: string): seq<nat> {
    if hash in x.buckets then x.buckets[hash] else []
  }

  // Every entry of a bucket knows its bucket and its place.
  ghost predicate Placed(x: Index, hash: string) {
    forall i | 0 <= i < |BucketIn(x, hash)| ::
      var k := BucketIn(x, hash)[i];
      k < |x.slots| && x.slots[k].hash == hash && x.slots[k].index == i
  }

  // No two names share an entry.
  ghost predicate Named(x: Index) {
    && (forall a | a in x.names :: x.names[a] < |x.slots|)
    && forall a, b | a in x.names && b in x.names && x.names[a] == x.names[b] :: a == b
  }

  ghost predicate Sound(x: Index) {
    (forall h :: Placed(x, h)) && Named(x)
  }

  function Added(x: Index, hash: string, cert: Certificate, alias: Option<string>): Index {
    var k, bucket := |x.slots|, BucketIn(x, hash);
    Index(
      x.slots + [Slot(hash, cert, |bucket|)],
      x.buckets[hash := bucket + [k]],
      if alias.Some? then x.names[alias.value := k] else x.names,
      x.files[Dotted(hash, |bucket|) := cert])
  }

  function SwapRemoved<T>(s: seq<T>, index: nat): (rest: seq<T>)
    requires index < |s|
    ensures |rest| == |s| - 1 && forall x | x in rest :: x in s
  {
    s[index := s[|s| - 1]][..|s| - 1]
  }

  // The last entry of the bucket takes the freed place.
  function TakenOut(x: Index, hash: string, index: nat): Index
    requires Sound(x) && index < |BucketIn(x, hash)|
  {
    var bucket := BucketIn(x, hash);
    var moved := bucket[|bucket| - 1];
    assert Placed(x, hash);
    x.(slots := x.slots[moved := x.slots[moved].(index := index)],
       buckets := x.buckets[hash := SwapRemoved(bucket, index)])
  }

  // The rename or the removal; without the file it fails and changes nothing.
  function RemovedAt(files: map<Path, Certificate>, target: Path, source: Path): map<Path, Certificate> {
    if source !in files then files
    else if target == source then files - {source}
    else (files - {source})[target := files[source]]
  }

  function PathOf(hash: string, index: nat, mended: bool): Path {
    if mended then Dotted(hash, index) else Slashed(hash, index)
  }

  // None if the name is not registered or the place its entry remembers is gone: the server stops.
  function Removed(x: Index, alias: string, mended: bool): Option<Index>
    requires Sound(x)
  {
    if alias !in x.names then None
    else
      var slot := x.slots[x.names[alias]];
      var length := |BucketIn(x, slot.hash)|;
      if slot.index >= length then None
      else
        Some(TakenOut(x, slot.hash, slot.index).(
          names := if mended then x.names - {alias} else x.names,
          files := RemovedAt(
            x.files, PathOf(slot.hash, slot.index, mended), PathOf(slot.hash, length - 1, mended))))
  }

  lemma AddedSound(x: Index, hash: string, cert: Certificate, alias: Option<string>)
    requires Sound(x)
    ensures Sound(Added(x, hash, cert, alias))
  {
    var y := Added(x, hash, cert, alias);
    forall h
      ensures Placed(y, h)
    {
      assert Placed(x, h);
      forall i | 0 <= i < |BucketIn(y, h)|
        ensures var k := BucketIn(y, h)[i]; k < |y.slots| && y.slots[k].hash == h && y.slots[k].index == i
      {
        assert i < |BucketIn(x, h)| ==> BucketIn(y, h)[i] == BucketIn(x, h)[i];
      }
    }
  }

  lemma TakenOutSound(x: Index, hash: string, index: nat)
    requires Sound(x) && index < |BucketIn(x, hash)|
    ensures Sound(TakenOut(x, hash, index))
  {
    var y := TakenOut(x, hash, index);
    assert Placed(x, hash);
    forall h
      ensures Placed(y, h)
    {
      assert Placed(x, h) && Placed(x, hash);
      forall i | 0 <= i < |BucketIn(y, h)|
        ensures var k := BucketIn(y, h)[i]; k < |y.slots| && y.slots[k].hash == h && y.slots[k].index == i
      {
        var k := BucketIn(x, h)[i];
        assert x.slots[k].hash == h && x.slots[k].index == i;
      }
    }
  }

  lemma SamePlaces(x: Index, y: Index)
    requires (forall h :: Placed(x, h)) && x.slots == y.slots && x.buckets == y.buckets
    ensures forall h :: Placed(y, h)
  {
    forall h
      ensures Placed(y, h)
    {
      assert Placed(x, h) && BucketIn(y, h) == BucketIn(x, h);
      assert forall i | 0 <= i < |BucketIn(y, h)| :: BucketIn(y, h)[i] == BucketIn(x, h)[i];
    }
  }

  lemma RemovedSound(x: Index, alias: string, mended: bool)
    requires Sound(x)
    ensures Removed(x, alias, mended).Some? ==> Sound(Removed(x, alias, mended).value)
  {
    if Removed(x, alias, mended).Some? {
      hide SwapRemoved;
      var slot := x.slots[x.names[alias]];
      var y := TakenOut(x, slot.hash, slot.index);
      TakenOutSound(x, slot.hash, slot.index);
      SamePlaces(y, Removed(x, alias, mended).value);
    }
  }

  function Step(x: Index, op: Operation, mended: bool): (r: Option<Index>)
    requires Sound(x)
    ensures r.Some? ==> Sound(r.value)
  {
    match op
    case Add(hash, cert, alias) => AddedSound(x, hash, cert, alias); Some(Added(x, hash, cert, alias))
    case Withdraw(name) => RemovedSound(x, name, mended); Removed(x, name, mended)
  }

  // The state after a run, unless some removal stops the server.
  function After(x: Index, ops: seq<Operation>, mended: bool): (r: Option<Index>)
    requires Sound(x)
    ensures r.Some? ==> Sound(r.value)
  {
    if ops == [] then Some(x)
    else
      var before := After(x, ops[..|ops| - 1], mended);
      if before.None? then None else Step(before.value, ops[|ops| - 1], mended)
  }

  lemma AfterNext(x: Index, ops: seq<Operation>, op: Operation, mended: bool)
    requires Sound(x)
    ensures After(x, ops + [op], mended) ==
      if After(x, ops, mended).None? then None else Step(After(x, ops, mended).value, op, mended)
  {
    assert (ops + [op])[..|ops|] == ops;
  }

  lemma {:induction false} AfterConcat(x: Index, a: seq<Operation>, b: seq<Operation>, mended: bool)
    requires Sound(x)
    ensures After(x, a + b, mended) ==
      if After(x, a, mended).None? then None else After(After(x, a, mended).value, b, mended)
  {
    hide Step, Sound;
    if b == [] {
      assert a + b == a;
    } else {
      var most := b[..|b| - 1];
      AfterConcat(x, a, most, mended);
      assert a + b == (a + most) + [b[|b| - 1]] && b == most + [b[|b| - 1]];
      AfterNext(x, a + most, b[|b| - 1], mended);
    }
  }

  // A stopped server stays stopped.
  lemma StopsForGood(x: Index, ops: seq<Operation>, k: nat, mended: bool)
    requires Sound(x) && k <= |ops| && After(x, ops[..k], mended).None?
    ensures After(x, ops, mended).None?
  {
    assert ops == ops[..k] + ops[k..];
    AfterConcat(x, ops[..k], ops[k..], mended);
  }

  // The certificate at each place of a bucket.
  ghost function Contents(x: Index, hash: string): (certs: seq<Certificate>)
    requires Sound(x)
    ensures |certs| == |BucketIn(x, hash)|
  {
    seq(|BucketIn(x, hash)|, i requires 0 <= i < |BucketIn(x, hash)| =>
      assert Placed(x, hash); x.slots[BucketIn(x, hash)[i]].cert)
  }

  // An entry in its bucket, at its place.
  predicate AtPlace(x: Index, k: nat) {
    k < |x.slots| &&
    var slot := x.slots[k];
    slot.index < |BucketIn(x, slot.hash)| && BucketIn(x, slot.hash)[slot.index] == k
  }

  predicate Live(x: Index, alias: string) {
    alias in x.names && AtPlace(x, x.names[alias])
  }

  lemma ContentsAt(x: Index, k: nat)
    requires Sound(x) && AtPlace(x, k)
    ensures Contents(x, x.slots[k].hash)[x.slots[k].index] == x.slots[k].cert
  {
  }

  lemma ContentsAdded(x: Index, hash: string, cert: Certificate, alias: Option<string>, h: string)
    requires Sound(x)
    ensures Sound(Added(x, hash, cert, alias))
    ensures Contents(Added(x, hash, cert, alias), h) == if h == hash then Contents(x, h) + [cert] else Contents(x, h)
  {
    AddedSound(x, hash, cert, alias);
    assert Placed(x, h);
  }

  lemma ContentsTakenOut(x: Index, hash: string, index: nat, h: string)
    requires Sound(x) && index < |BucketIn(x, hash)|
    ensures Sound(TakenOut(x, hash, index))
    ensures Contents(TakenOut(x, hash, index), h) ==
      if h == hash then SwapRemoved(Contents(x, h), index) else Contents(x, h)
  {
    TakenOutSound(x, hash, index);
    assert Placed(x, h) && Placed(x, hash);
  }

  // Additions: nothing that is at its place is moved, and the new entry is at its own.
  lemma AddedPlaces(x: Index, hash: string, cert: Certificate, alias: Option<string>)
    requires Sound(x)
    ensures var y := Added(x, hash, cert, alias);
      && AtPlace(y, |x.slots|) && |y.slots| == |x.slots| + 1
      && (forall k | 0 <= k < |x.slots| :: y.slots[k] == x.slots[k])
      && (forall k | 0 <= k < |x.slots| :: AtPlace(y, k) <==> AtPlace(x, k))
  {
    forall k | 0 <= k < |x.slots|
      ensures AtPlace(Added(x, hash, cert, alias), k) <==> AtPlace(x, k)
    {
      assert Placed(x, x.slots[k].hash);
    }
  }

  /** A removal takes exactly the entry at that place: every other entry at its place stays so, with its certificate. */
  lemma TakenOutPlaces(x: Index, hash: string, index: nat)
    requires Sound(x) && index < |BucketIn(x, hash)|
    ensures var y, gone := TakenOut(x, hash, index), BucketIn(x, hash)[index];
      && |y.slots| == |x.slots|
      && (forall k | 0 <= k < |x.slots| :: y.slots[k].hash == x.slots[k].hash && y.slots[k].cert == x.slots[k].cert)
      && (forall k | 0 <= k < |x.slots| :: AtPlace(y, k) <==> AtPlace(x, k) && k != gone)
  {
    assert Placed(x, hash);
    forall k | 0 <= k < |x.slots|
      ensures AtPlace(TakenOut(x, hash, index), k) <==> AtPlace(x, k) && k != BucketIn(x, hash)[index]
    {
      assert Placed(x, x.slots[k].hash);
    }
  }

  lemma MultisetCancel<T>(a: multiset<T>, b: multiset<T>, x: T)
    requires a + multiset{x} == b + multiset{x}
    ensures a == b
  {
    assert a == (a + multiset{x}) - multiset{x};
    assert b == (b + multiset{x}) - multiset{x};
  }

  /** Swap-with-last removal takes one occurrence of the element and keeps the rest. */
  lemma SwapRemovedMultiset<T>(s: seq<T>, index: nat)
    requires index < |s|
    ensures multiset(SwapRemoved(s, index)) == multiset(s) - multiset{s[index]}
  {
    var last := |s| - 1;
    var t := s[index := s[last]];
    assert t == t[..last] + [s[last]];
    assert multiset(t) == multiset(s) - multiset{s[index]} + multiset{s[last]};
    assert multiset(t) == multiset(t[..last]) + multiset{s[last]};
    assert multiset(SwapRemoved(s, index)) == multiset(t[..last]);
    MultisetCancel(multiset(t[..last]), multiset(s) - multiset{s[index]}, s[last]);
  }

  // How often each bucket holds each certificate.
  ghost function HeldIn(x: Index, hash: string): multiset<Certificate>
    requires Sound(x)
  {
    multiset(Contents(x, hash))
  }

  /**
   A removal under a live name does not stop the server, whichever Remove it is. It takes the name's own
   entry and its certificate, and leaves every other entry at its place, with its certificate.
   */
  lemma RemovedOwn(x: Index, alias: string, mended: bool)
    requires Sound(x) && Live(x, alias)
    ensures Removed(x, alias, mended).Some?
    ensures var y, own := Removed(x, alias, mended).value, x.names[alias];
      && Sound(y) && |y.slots| == |x.slots|
      && y.names == (if mended then x.names - {alias} else x.names)
      && (forall k | 0 <= k < |x.slots| :: y.slots[k].hash == x.slots[k].hash && y.slots[k].cert == x.slots[k].cert)
      && (forall k | 0 <= k < |x.slots| :: AtPlace(y, k) <==> AtPlace(x, k) && k != own)
      && forall h :: HeldIn(y, h) ==
           HeldIn(x, h) - if h == x.slots[own].hash then multiset{x.slots[own].cert} else multiset{}
  {
    hide Sound, SwapRemoved, TakenOut;
    var own := x.names[alias];
    var slot := x.slots[own];
    RemovedFrom(x, alias, mended);
    var y := Removed(x, alias, mended).value;
    ContentsAt(x, own);
    forall h
      ensures HeldIn(y, h) == HeldIn(x, h) - if h == slot.hash then multiset{slot.cert} else multiset{}
    {
      if h == slot.hash {
        SwapRemovedMultiset(Contents(x, h), slot.index);
      }
    }
  }

  // What a removal takes, live or not: the entry at the place the name's entry remembers.
  lemma RemovedFrom(x: Index, alias: string, mended: bool)
    requires Sound(x) && Removed(x, alias, mended).Some?
    ensures alias in x.names && x.names[alias] < |x.slots|
    ensures var y, slot := Removed(x, alias, mended).value, x.slots[x.names[alias]];
      && slot.index < |BucketIn(x, slot.hash)|
      && Sound(y) && |y.slots| == |x.slots|
      && (forall k | 0 <= k < |x.slots| :: y.slots[k].hash == x.slots[k].hash && y.slots[k].cert == x.slots[k].cert)
      && (forall k | 0 <= k < |x.slots| ::
            AtPlace(y, k) <==> AtPlace(x, k) && k != BucketIn(x, slot.hash)[slot.index])
      && forall h ::
           Contents(y, h) == if h == slot.hash then SwapRemoved(Contents(x, h), slot.index) else Contents(x, h)
  {
    hide SwapRemoved;
    RemovedSound(x, alias, mended);
    var y, slot := Removed(x, alias, mended).value, x.slots[x.names[alias]];
    var z := TakenOut(x, slot.hash, slot.index);
    TakenOutPlaces(x, slot.hash, slot.index);
    forall k | 0 <= k < |x.slots|
      ensures AtPlace(y, k) <==> AtPlace(z, k)
    {
      assert BucketIn(y, y.slots[k].hash) == BucketIn(z, z.slots[k].hash);
    }
    forall h
      ensures Contents(y, h) == if h == slot.hash then SwapRemoved(Contents(x, h), slot.index) else Contents(x, h)
    {
      ContentsTakenOut(x, slot.hash, slot.index, h);
      assert Contents(y, h) == Contents(z, h);
    }
  }

  predicate AllLive(x: Index) {
    forall a | a in x.names :: Live(x, a)
  }

  lemma EmptySound()
    ensures Sound(EMPTY) && AllLive(EMPTY)
  {
    assert forall h :: Placed(EMPTY, h);
  }

  /** With the mended Remove every name is live, over any run, and so only an unregistered name stops the server. */
  lemma {:induction false} MendedAllLive(x: Index, ops: seq<Operation>)
    requires Sound(x) && AllLive(x)
    ensures After(x, ops, true).Some? ==> AllLive(After(x, ops, true).value)
    ensures After(x, ops, true).Some? ==>
      forall a :: Removed(After(x, ops, true).value, a, true).None? <==> a !in After(x, ops, true).value.names
  {
    hide Sound;
    if ops != [] {
      MendedAllLive(x, ops[..|ops| - 1]);
      var before := After(x, ops[..|ops| - 1], true);
      if before.Some? && After(x, ops, true).Some? {
        StepAllLive(before.value, ops[|ops| - 1]);
      }
    }
    if After(x, ops, true).Some? {
      forall a
        ensures Removed(After(x, ops, true).value, a, true).None? <==> a !in After(x, ops, true).value.names
      {
      }
    }
  }

  lemma StepAllLive(x: Index, op: Operation)
    requires Sound(x) && AllLive(x) && Step(x, op, true).Some?
    ensures AllLive(Step(x, op, true).value)
  {
    match op
    case Add(hash, cert, alias) =>
      AddedPlaces(x, hash, cert, alias);
    case Withdraw(name) =>
      RemovedOwn(x, name, true);
  }

  // The removal of a bucket's last entry.
  lemma LastTakenOut(x: Index, hash: string)
    requires Sound(x) && BucketIn(x, hash) != []
    ensures var last := |BucketIn(x, hash)| - 1;
      TakenOut(x, hash, last) == x.(buckets := x.buckets[hash := BucketIn(x, hash)[..last]])
  {
    var last := |BucketIn(x, hash)| - 1;
    assert Placed(x, hash);
    var k := BucketIn(x, hash)[last];
    assert x.slots[k].(index := last) == x.slots[k];
    assert x.slots[k := x.slots[k]] == x.slots;
    assert SwapRemoved(BucketIn(x, hash), last) == BucketIn(x, hash)[..last];
  }

  /** A name withdrawn again right after its certificate went stops the server, whichever Remove it is. */
  lemma WithdrawnTwiceStops(x: Index, hash: string, cert: Certificate, alias: string, mended: bool)
    requires Sound(x)
    ensures var once := Step(x, Add(hash, cert, Some(alias)), mended);
      var twice := Step(once.value, Withdraw(alias), mended);
      twice.Some? && Step(twice.value, Withdraw(alias), mended).None?
  {
    hide Sound, TakenOut, SwapRemoved, RemovedAt;
    var y := Added(x, hash, cert, Some(alias));
    AddedSound(x, hash, cert, Some(alias));
    LastTakenOut(y, hash);
    RemovedSound(y, alias, mended);
  }
}
