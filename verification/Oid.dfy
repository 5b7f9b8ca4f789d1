/** Object identifiers: base-128 subidentifiers (section 8.19 of X.690). */
module Oid {
  import opened Wrappers
  import opened Digits

  // A writer reads its first two arcs unconditionally.
  type ObjectId = ids: seq<nat> | |ids| >= 2 witness [0, 0]

  // Every digit but the last carries the continuation bit.
  function Mark(digits: seq<Octet>): (marked: seq<Octet>)
    requires AreDigits(digits, 128)
    ensures |marked| == |digits|
  {
    seq(|digits|, i requires 0 <= i < |digits| => if i < |digits| - 1 then digits[i] + 0x80 else digits[i])
  }

  function Subidentifier(id: nat): seq<Octet> {
    PositionalCorrect(id, 128);
    Mark(Positional(id, 128))
  }

  function Subidentifiers(ids: seq<nat>): seq<Octet> {
    if ids == [] then [] else Subidentifiers(ids[..|ids| - 1]) + Subidentifier(ids[|ids| - 1])
  }

  // The first two arcs share one octet, reduced modulo 256 when it is stored.
  function OidContent(ids: ObjectId): seq<Octet> {
    [(ids[0] * 40 + ids[1]) % 256] + Subidentifiers(ids[2..])
  }

  // The inner loop of the writer: all digits but the last, marked, then the last one.
  method AppendMarked(bytes: seq<Octet>, idBytes: seq<Octet>) returns (more: seq<Octet>)
    requires idBytes != [] && AreDigits(idBytes, 128)
    ensures more == bytes + Mark(idBytes)
  {
    more := bytes;
    for j := 0 to |idBytes| - 1
      invariant more == bytes + Mark(idBytes)[..j]
    {
      more := more + [idBytes[j] + 0x80];
    }
    more := more + [idBytes[|idBytes| - 1]];
  }

  method AppendArc(bytes: seq<Octet>, id: nat) returns (more: seq<Octet>)
    requires ToInt32(id) >= 0
    ensures more == bytes + Subidentifier(ToInt32(id))
  {
    hide Mark;
    hide Positional;
    var idBytes := IntToBits(id, 7);
    PositionalCorrect(ToInt32(id), 128);
    more := AppendMarked(bytes, idBytes);
  }

  // The digit loop ends for every arc after the first two: see DigitLoopEnds.
  predicate ArcsEnd(ids: ObjectId) {
    forall i | 2 <= i < |ids| :: ToInt32(ids[i]) >= 0
  }

  // What the writer takes the arcs for: later ones go through the 32-bit operators.
  function Taken(ids: ObjectId): (taken: ObjectId)
    requires ArcsEnd(ids)
    ensures |taken| == |ids|
  {
    ids[..2] + seq(|ids| - 2, i requires 0 <= i < |ids| - 2 => ToInt32(ids[i + 2]))
  }

  lemma TakenSameIff(ids: ObjectId)
    requires ArcsEnd(ids)
    ensures Taken(ids)[0] == ids[0] && Taken(ids)[1] == ids[1]
    ensures Taken(ids) == ids <==> forall i | 2 <= i < |ids| :: ids[i] < INT32_LIMIT
  {
    forall i | 2 <= i < |ids|
      ensures Taken(ids)[i] == ToInt32(ids[i]) && (ToInt32(ids[i]) == ids[i] <==> ids[i] < INT32_LIMIT)
    {
    }
  }

  lemma SmallArcs(ids: ObjectId)
    requires forall i | 2 <= i < |ids| :: ids[i] < INT32_LIMIT
    ensures ArcsEnd(ids) && Taken(ids) == ids
  {
    assert ArcsEnd(ids);
    TakenSameIff(ids);
  }

  lemma NoSubidentifiers()
    ensures Subidentifiers([]) == []
  {
  }

  lemma SubidentifiersNext(ids: seq<nat>, from: nat, to: nat)
    requires from <= to < |ids|
    ensures Subidentifiers(ids[from..to + 1]) == Subidentifiers(ids[from..to]) + Subidentifier(ids[to])
  {
    assert ids[from..to + 1][..to - from] == ids[from..to];
  }

  method EncodeOid(ids: ObjectId) returns (bytes: seq<Octet>)
    requires ArcsEnd(ids)
    ensures bytes == OidContent(Taken(ids))
  {
    hide Subidentifier, Subidentifiers, ToInt32;
    ghost var taken := Taken(ids);
    assert taken[2..2] == [];
    NoSubidentifiers();
    bytes := [(ids[0] * 40 + ids[1]) % 256];
    for i := 2 to |ids|
      invariant bytes == [(ids[0] * 40 + ids[1]) % 256] + Subidentifiers(taken[2..i])
    {
      bytes := AppendArc(bytes, ids[i]);
      SubidentifiersNext(taken, 2, i);
    }
    assert taken[2..] == taken[2..|ids|];
  }

  // How many leading octets carry the continuation bit.
  function Continued(s: seq<Octet>): (n: nat)
    ensures n <= |s|
    ensures forall i | 0 <= i < n :: s[i] >= 0x80
    ensures n < |s| ==> s[n] < 0x80
  {
    if s == [] || s[0] < 0x80 then 0 else 1 + Continued(s[1..])
  }

  function Unmark(s: seq<Octet>): (digits: seq<Octet>)
    ensures |digits| == |s|
  {
    seq(|s|, i requires 0 <= i < |s| => s[i] % 128)
  }

  // Section 8.19.2 of X.690: up to the first octet without the bit; the first octet is not 0x80.
  function ReadSubidentifier(s: seq<Octet>): (r: Option<(nat, seq<Octet>)>)
    ensures r.Some? ==> |r.value.1| < |s|
  {
    var n := Continued(s);
    if n == |s| || s[0] == 0x80 then None
    else
      ValueNonNegative128(Unmark(s[..n + 1]));
      Some((Value(Unmark(s[..n + 1]), 128), s[n + 1..]))
  }

  lemma {:induction false} ValueNonNegative128(digits: seq<Octet>)
    ensures Value(digits, 128) >= 0
  {
    if digits != [] {
      ValueNonNegative128(digits[..|digits| - 1]);
    }
  }

  function ReadSubidentifiers(s: seq<Octet>): Option<seq<nat>> {
    if s == [] then Some([])
    else
      match ReadSubidentifier(s)
      case None => None
      case Some((id, rest)) =>
        match ReadSubidentifiers(rest)
        case None => None
        case Some(ids) => Some([id] + ids)
  }

  // Section 8.19.4 of X.690: the first subidentifier is 40 * X + Y with X at most 2.
  function FirstArcs(v: nat): (nat, nat) {
    var x := if v < 40 then 0 else if v < 80 then 1 else 2;
    (x, v - 40 * x)
  }

  function ReadOid(s: seq<Octet>): Option<ObjectId> {
    match ReadSubidentifiers(s)
    case None => None
    case Some(ids) =>
      if ids == [] then None
      else Some([FirstArcs(ids[0]).0, FirstArcs(ids[0]).1] + ids[1..])
  }

  lemma UnmarkMark(digits: seq<Octet>)
    requires AreDigits(digits, 128)
    ensures Unmark(Mark(digits)) == digits
  {
    forall i | 0 <= i < |digits|
      ensures Unmark(Mark(digits))[i] == digits[i]
    {
      assert (digits[i] + 0x80) % 128 == digits[i];
    }
  }

  lemma SubidentifierRoundTrip(id: nat, suffix: seq<Octet>)
    ensures ReadSubidentifier(Subidentifier(id) + suffix) == Some((id, suffix))
  {
    PositionalCorrect(id, 128);
    var digits := Positional(id, 128);
    var s := Mark(digits) + suffix;
    var last := |digits| - 1;
    ContinuedStops(s, last);
    assert s[..last + 1] == Mark(digits);
    UnmarkMark(digits);
    assert s[last + 1..] == suffix;
    if id == 0 {
      assert digits == [0];
    }
  }

  lemma {:induction false} ContinuedStops(s: seq<Octet>, last: nat)
    requires last < |s| && s[last] < 0x80
    requires forall i | 0 <= i < last :: s[i] >= 0x80
    ensures Continued(s) == last
  {
    if last > 0 {
      ContinuedStops(s[1..], last - 1);
    }
  }

  lemma ReadOne(id: nat, tail: seq<Octet>)
    ensures ReadSubidentifiers(Subidentifier(id) + tail).Some? <==> ReadSubidentifiers(tail).Some?
    ensures ReadSubidentifiers(tail).Some? ==>
      ReadSubidentifiers(Subidentifier(id) + tail) == Some([id] + ReadSubidentifiers(tail).value)
  {
    SubidentifierRoundTrip(id, tail);
    PositionalCorrect(id, 128);
    assert Subidentifier(id) + tail != [];
  }

  lemma {:induction false} SubidentifiersRoundTrip(ids: seq<nat>)
    ensures ReadSubidentifiers(Subidentifiers(ids)) == Some(ids)
  {
    hide Subidentifier;
    if ids != [] {
      SubidentifiersFront(ids);
      SubidentifiersRoundTrip(ids[1..]);
      ReadOne(ids[0], Subidentifiers(ids[1..]));
      assert ids == [ids[0]] + ids[1..];
    }
  }

  lemma {:induction false} SubidentifiersConcat(a: seq<nat>, b: seq<nat>)
    ensures Subidentifiers(a + b) == Subidentifiers(a) + Subidentifiers(b)
  {
    hide Subidentifier;
    if b == [] {
      assert a + b == a;
    } else {
      SubidentifiersConcat(a, b[..|b| - 1]);
      assert (a + b)[..|a + b| - 1] == a + b[..|b| - 1];
    }
  }

  lemma SubidentifiersFront(ids: seq<nat>)
    requires ids != []
    ensures Subidentifiers(ids) == Subidentifier(ids[0]) + Subidentifiers(ids[1..])
  {
    assert ids == ids[..1] + ids[1..];
    SubidentifiersConcat(ids[..1], ids[1..]);
    assert Subidentifiers(ids[..1]) == Subidentifier(ids[0]) by {
      assert Subidentifiers(ids[..1][..0]) == [];
    }
  }

  // Octets without the continuation bit: each ends one subidentifier.
  function Ends(s: seq<Octet>): nat {
    if s == [] then 0 else Ends(s[..|s| - 1]) + if s[|s| - 1] < 0x80 then 1 else 0
  }

  lemma {:induction false} EndsConcat(a: seq<Octet>, b: seq<Octet>)
    ensures Ends(a + b) == Ends(a) + Ends(b)
  {
    if b == [] {
      assert a + b == a;
    } else {
      EndsConcat(a, b[..|b| - 1]);
      assert (a + b)[..|a + b| - 1] == a + b[..|b| - 1];
    }
  }

  lemma {:induction false} AllContinued(s: seq<Octet>)
    requires forall i | 0 <= i < |s| :: s[i] >= 0x80
    ensures Ends(s) == 0
  {
    if s != [] {
      AllContinued(s[..|s| - 1]);
    }
  }

  lemma OneEnd(s: seq<Octet>)
    requires s != [] && s[|s| - 1] < 0x80
    requires forall i | 0 <= i < |s| - 1 :: s[i] >= 0x80
    ensures Ends(s) == 1
  {
    AllContinued(s[..|s| - 1]);
  }

  lemma {:induction false} SubidentifiersEnds(ids: seq<nat>)
    ensures Ends(Subidentifiers(ids)) == |ids|
  {
    if ids != [] {
      var last := ids[|ids| - 1];
      PositionalCorrect(last, 128);
      SubidentifiersEnds(ids[..|ids| - 1]);
      OneEnd(Subidentifier(last));
      EndsConcat(Subidentifiers(ids[..|ids| - 1]), Subidentifier(last));
    }
  }

  lemma ReadDropsOneEnd(s: seq<Octet>)
    requires ReadSubidentifier(s).Some?
    ensures Ends(s) == 1 + Ends(ReadSubidentifier(s).value.1)
  {
    var n := Continued(s);
    OneEnd(s[..n + 1]);
    EndsConcat(s[..n + 1], s[n + 1..]);
    assert s == s[..n + 1] + s[n + 1..];
  }

  lemma {:induction false} ReadCountsEnds(s: seq<Octet>)
    requires ReadSubidentifiers(s).Some?
    ensures |ReadSubidentifiers(s).value| == Ends(s)
  {
    if s != [] {
      ReadDropsOneEnd(s);
      ReadCountsEnds(ReadSubidentifier(s).value.1);
    }
  }

  // The arcs X.660 allows, as far as they fit the single first octet the writer gives them.
  predicate FitsFirstOctet(ids: ObjectId) {
    ids[0] <= 2 && (ids[0] < 2 ==> ids[1] < 40) && ids[0] * 40 + ids[1] <= 0x7F
  }

  lemma FirstArcsInverse(x: nat, y: nat)
    ensures (x * 40 + y) % 256 < 0x80 ==>
      (FirstArcs((x * 40 + y) % 256) == (x, y) <==> FitsFirstOctet([x, y]))
    ensures FitsFirstOctet([x, y]) ==> (x * 40 + y) % 256 < 0x80
  {
  }

  /**
   An object identifier the writer gets to the end of is read back exactly when its first two arcs fit one
   octet without the continuation bit and every later arc is below 2^31.
   */
  lemma OidRoundTrip(ids: ObjectId)
    requires ArcsEnd(ids)
    ensures ReadOid(OidContent(Taken(ids))) == Some(ids) <==>
      FitsFirstOctet(ids) && forall i | 2 <= i < |ids| :: ids[i] < INT32_LIMIT
  {
    hide ReadSubidentifiers, Subidentifiers, FirstArcs, Taken;
    TakenSameIff(ids);
    var taken := Taken(ids);
    var first := (ids[0] * 40 + ids[1]) % 256;
    FirstArcsInverse(ids[0], ids[1]);
    assert ids == [ids[0], ids[1]] + ids[2..] && taken == [ids[0], ids[1]] + taken[2..];
    if first < 0x80 {
      ReadFirst(first, taken[2..]);
    } else if ReadSubidentifiers(OidContent(taken)).Some? {
      FirstOctetSwallowed(first, taken[2..]);
    }
  }

  // A first octet with the continuation bit runs into the next arc, and one arc is lost.
  lemma FirstOctetSwallowed(first: Octet, ids: seq<nat>)
    requires first >= 0x80 && ReadSubidentifiers([first] + Subidentifiers(ids)).Some?
    ensures |ReadSubidentifiers([first] + Subidentifiers(ids)).value| == |ids|
  {
    ReadCountsEnds([first] + Subidentifiers(ids));
    EndsConcat([first], Subidentifiers(ids));
    AllContinued([first]);
    SubidentifiersEnds(ids);
  }

  lemma ReadFirst(first: Octet, ids: seq<nat>)
    requires first < 0x80
    ensures ReadSubidentifiers([first] + Subidentifiers(ids)) == Some([first] + ids)
  {
    assert Subidentifier(first) == [first] by {
      assert Positional(first, 128) == [first];
    }
    SubidentifiersRoundTrip(ids);
    ReadOne(first, Subidentifiers(ids));
  }

  /** Octet by octet for an identifier the client writes: rsadsi, {1 2 840 113549}. */
  lemma KnownOid()
    ensures OidContent([1, 2, 840, 113549]) == [0x2A, 0x86, 0x48, 0x86, 0xF7, 0x0D]
  {
    assert Positional(840, 128) == [6, 72] by {
      assert Positional(6, 128) == [6];
    }
    assert Positional(113549, 128) == [6, 119, 13] by {
      assert Positional(6, 128) == [6];
      assert Positional(887, 128) == [6, 119];
    }
    var ids: seq<nat> := [840, 113549];
    assert [1, 2, 840, 113549][2..] == ids;
    assert ids[..1] == [840] && [840][..0] == [];
    assert Subidentifiers([840]) == Subidentifiers([]) + Subidentifier(840);
    assert Subidentifiers(ids) == Subidentifiers([840]) + Subidentifier(113549);
  }
}
