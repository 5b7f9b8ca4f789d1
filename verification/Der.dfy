/**
 The encoding the ASN.1 writer produces, as a function of the finite tree it starts from, and a
 reader for it: the tag-length-value rules of section 8.1 of X.690, with single-octet identifiers
 and definite lengths.
 */
module Der {
  import opened Wrappers
  import opened Digits

  // Raw holds octets that are already encoded (ASN1Bytes): the reader never produces it.
  datatype Tree =
    | Primitive(tag: Octet, content: seq<Octet>)
    | Constructed(tag: Octet, items: seq<Tree>)
    | Raw(octets: seq<Octet>)

  function Header(tag: Octet, length: nat): seq<Octet> {
    [tag] + LengthOctets(length)
  }

  function Encode(t: Tree): seq<Octet>
    decreases t, 1
  {
    match t
    case Primitive(tag, content) => Header(tag, |content|) + content
    case Constructed(tag, items) => Header(tag, |EncodeAll(items)|) + EncodeAll(items)
    case Raw(octets) => octets
  }

  function EncodeAll(ts: seq<Tree>): seq<Octet>
    decreases ts, 0
  {
    if ts == [] then [] else Encode(ts[0]) + EncodeAll(ts[1..])
  }

  // Section 8.1.2 of X.690: bit 6 marks a constructed encoding, and 31 in the low bits the multi-octet form.
  predicate MarksConstructed(tag: Octet) { tag / 32 % 2 == 1 }

  predicate SingleOctet(tag: Octet) { tag % 32 != 31 }

  function Decode(s: seq<Octet>): (r: Option<(Tree, seq<Octet>)>)
    ensures r.Some? ==> |r.value.1| < |s|
    decreases |s|, 0
  {
    if s == [] || !SingleOctet(s[0]) then None
    else
      match ReadLength(s[1..])
      case None => None
      case Some((length, rest)) =>
        if |rest| < length then None
        else if !MarksConstructed(s[0]) then Some((Primitive(s[0], rest[..length]), rest[length..]))
        else
          match DecodeAll(rest[..length])
          case None => None
          case Some(items) => Some((Constructed(s[0], items), rest[length..]))
  }

  function DecodeAll(s: seq<Octet>): Option<seq<Tree>>
    decreases |s|, 1
  {
    if s == [] then Some([])
    else
      match Decode(s)
      case None => None
      case Some((t, rest)) =>
        match DecodeAll(rest)
        case None => None
        case Some(ts) => Some([t] + ts)
  }

  // Tags agree with the shape, and raw octets are one complete encoding.
  ghost predicate WellFormed(t: Tree)
    decreases t, 1
  {
    match t
    case Primitive(tag, _) => SingleOctet(tag) && !MarksConstructed(tag)
    case Constructed(tag, items) => SingleOctet(tag) && MarksConstructed(tag) && AllWellFormed(items)
    case Raw(octets) => Decode(octets).Some? && Decode(octets).value.1 == []
  }

  ghost predicate AllWellFormed(ts: seq<Tree>)
    decreases ts, 0
  {
    ts == [] || (WellFormed(ts[0]) && AllWellFormed(ts[1..]))
  }

  // The tree with every raw leaf replaced by what its octets encode.
  ghost function Resolve(t: Tree): Tree
    requires WellFormed(t)
    decreases t, 1
  {
    match t
    case Primitive(_, _) => t
    case Constructed(tag, items) => Constructed(tag, ResolveAll(items))
    case Raw(octets) => Decode(octets).value.0
  }

  ghost function ResolveAll(ts: seq<Tree>): (rs: seq<Tree>)
    requires AllWellFormed(ts)
    ensures |rs| == |ts|
    decreases ts, 0
  {
    if ts == [] then [] else [Resolve(ts[0])] + ResolveAll(ts[1..])
  }

  lemma HeaderRoundTrip(tag: Octet, length: nat, tail: seq<Octet>)
    requires length < INT32_LIMIT
    ensures var s := Header(tag, length) + tail;
      s[0] == tag && ReadLength(s[1..]) == Some((length, tail))
  {
    var s := Header(tag, length) + tail;
    assert s[1..] == LengthOctets(length) + tail;
    LengthRoundTrip(length, tail);
  }

  lemma ReadLengthExtends(s: seq<Octet>, more: seq<Octet>)
    requires ReadLength(s).Some?
    ensures ReadLength(s + more) == Some((ReadLength(s).value.0, ReadLength(s).value.1 + more))
  {
    hide Value;
    var longer := s + more;
    assert longer[0] == s[0];
    if s[0] < 0x80 {
      assert longer[1..] == s[1..] + more;
    } else {
      var count := s[0] - 0x80;
      assert 0 < count < 127 && 1 + count <= |s| <= |longer|;
      assert longer[1..1 + count] == s[1..1 + count];
      assert longer[1 + count..] == s[1 + count..] + more;
      assert ReadLength(s) == Some((Value(s[1..1 + count], 256), s[1 + count..]));
    }
  }

  /** What the reader accepts it accepts in front of anything, and it leaves that alone. */
  lemma DecodeExtends(s: seq<Octet>, more: seq<Octet>)
    requires Decode(s).Some?
    ensures Decode(s + more) == Some((Decode(s).value.0, Decode(s).value.1 + more))
  {
    var (length, rest) := ReadLength(s[1..]).value;
    assert (s + more)[1..] == s[1..] + more;
    ReadLengthExtends(s[1..], more);
    assert (rest + more)[..length] == rest[..length];
    assert (rest + more)[length..] == rest[length..] + more;
  }

  /** Reading back: the tree and the suffix, for every tree whose encoding has a length the writer can express. */
  lemma {:induction false} RoundTrip(t: Tree, suffix: seq<Octet>)
    requires WellFormed(t) && |Encode(t)| < INT32_LIMIT
    ensures Decode(Encode(t) + suffix) == Some((Resolve(t), suffix))
    decreases t, 1
  {
    match t
    case Primitive(tag, content) =>
      BodyReadBack(tag, content, suffix);
    case Constructed(tag, items) =>
      BodyReadBack(tag, EncodeAll(items), suffix);
      RoundTripAll(items);
    case Raw(octets) =>
      DecodeExtends(octets, suffix);
      assert [] + suffix == suffix;
  }

  lemma BodyReadBack(tag: Octet, body: seq<Octet>, suffix: seq<Octet>)
    requires |body| < INT32_LIMIT
    ensures var s := Header(tag, |body|) + body + suffix;
      s[0] == tag && ReadLength(s[1..]) == Some((|body|, body + suffix))
    ensures (body + suffix)[..|body|] == body && (body + suffix)[|body|..] == suffix
  {
    assert Header(tag, |body|) + body + suffix == Header(tag, |body|) + (body + suffix);
    HeaderRoundTrip(tag, |body|, body + suffix);
  }

  lemma {:induction false} RoundTripAll(ts: seq<Tree>)
    requires AllWellFormed(ts) && |EncodeAll(ts)| < INT32_LIMIT
    ensures DecodeAll(EncodeAll(ts)) == Some(ResolveAll(ts))
    decreases ts, 0
  {
    if ts != [] {
      RoundTrip(ts[0], EncodeAll(ts[1..]));
      RoundTripAll(ts[1..]);
    }
  }

  ghost predicate IsPrefix(a: seq<Octet>, b: seq<Octet>) {
    |a| <= |b| && a == b[..|a|]
  }

  lemma ReadsPrefix(t: Tree, s: seq<Octet>)
    requires WellFormed(t) && |Encode(t)| < INT32_LIMIT && IsPrefix(Encode(t), s)
    ensures Decode(s) == Some((Resolve(t), s[|Encode(t)|..]))
  {
    var more := s[|Encode(t)|..];
    assert Encode(t) + more == s;
    RoundTrip(t, more);
  }

  /** No encoding is a proper prefix of another, and equal encodings come from equal trees. */
  lemma PrefixFree(t: Tree, t': Tree)
    requires WellFormed(t) && |Encode(t)| < INT32_LIMIT
    requires WellFormed(t') && |Encode(t')| < INT32_LIMIT
    requires IsPrefix(Encode(t), Encode(t'))
    ensures Encode(t) == Encode(t') && Resolve(t) == Resolve(t')
  {
    ReadsPrefix(t, Encode(t'));
    ReadsPrefix(t', Encode(t'));
  }

  ghost predicate RawFree(t: Tree)
    decreases t, 1
  {
    match t
    case Primitive(_, _) => true
    case Constructed(_, items) => AllRawFree(items)
    case Raw(_) => false
  }

  ghost predicate AllRawFree(ts: seq<Tree>)
    decreases ts, 0
  {
    ts == [] || (RawFree(ts[0]) && AllRawFree(ts[1..]))
  }

  /** The reader yields raw-free trees with matching tags, so it can be applied to its own results. */
  lemma {:induction false} DecodeWellFormed(s: seq<Octet>)
    requires Decode(s).Some?
    ensures WellFormed(Decode(s).value.0) && RawFree(Decode(s).value.0)
    ensures Resolve(Decode(s).value.0) == Decode(s).value.0
    decreases |s|, 0
  {
    var (length, rest) := ReadLength(s[1..]).value;
    if MarksConstructed(s[0]) {
      DecodeAllWellFormed(rest[..length]);
    }
  }

  lemma {:induction false} DecodeAllWellFormed(s: seq<Octet>)
    requires DecodeAll(s).Some?
    ensures AllWellFormed(DecodeAll(s).value) && AllRawFree(DecodeAll(s).value)
    ensures ResolveAll(DecodeAll(s).value) == DecodeAll(s).value
    decreases |s|, 1
  {
    if s != [] {
      DecodeWellFormed(s);
      DecodeAllWellFormed(Decode(s).value.1);
    }
  }

  /** Section 10.1 of X.690: no octet string that reads as the same tree is as short as the encoding written. */
  lemma {:induction false} ShortestEncoding(t: Tree, other: seq<Octet>)
    requires Decode(other) == Some((t, []))
    ensures |Encode(t)| <= |other|
    ensures |Encode(t)| == |other| ==> Encode(t) == other
    decreases |other|, 0
  {
    var (length, rest) := ReadLength(other[1..]).value;
    assert rest[length..] == [] && rest[..length] == rest;
    var body := rest;
    if MarksConstructed(other[0]) {
      ShortestEncodings(t.items, rest);
      body := EncodeAll(t.items);
    }
    HeaderShortest(other, |body|);
    assert Encode(t) == Header(other[0], |body|) + body;
    assert other == [other[0]] + other[1..];
  }

  lemma HeaderShortest(other: seq<Octet>, bodyLength: nat)
    requires other != [] && ReadLength(other[1..]).Some?
    requires var (length, rest) := ReadLength(other[1..]).value; length == |rest| && bodyLength <= length
    ensures |Header(other[0], bodyLength)| + bodyLength <= |other|
    ensures |Header(other[0], bodyLength)| + bodyLength == |other| ==>
      other == Header(other[0], bodyLength) + ReadLength(other[1..]).value.1
  {
    hide LengthOctets, ReadLength;
    var (length, rest) := ReadLength(other[1..]).value;
    var octets := ReadLengthSplit(other[1..]);
    LengthMinimal(length, octets);
    PositionalLengthMonotone(bodyLength, length);
    assert |other| == 1 + |octets| + |rest|;
    if |Header(other[0], bodyLength)| + bodyLength == |other| {
      assert bodyLength == length && LengthOctets(bodyLength) == octets;
      assert other == [other[0]] + other[1..];
      assert [other[0]] + (octets + rest) == [other[0]] + octets + rest;
    }
  }

  lemma {:induction false} ShortestEncodings(ts: seq<Tree>, other: seq<Octet>)
    requires DecodeAll(other) == Some(ts)
    ensures |EncodeAll(ts)| <= |other|
    ensures |EncodeAll(ts)| == |other| ==> EncodeAll(ts) == other
    decreases |other|, 1
  {
    if other != [] {
      var (t, rest) := Decode(other).value;
      assert ts == [t] + ts[1..] && DecodeAll(rest) == Some(ts[1..]);
      var first := DecodeSplit(other);
      ShortestEncoding(t, first);
      ShortestEncodings(ts[1..], rest);
    }
  }

  // The octets of the tree that was read, apart from what follows them.
  lemma DecodeSplit(s: seq<Octet>) returns (octets: seq<Octet>)
    requires Decode(s).Some?
    ensures s == octets + Decode(s).value.1
    ensures Decode(octets) == Some((Decode(s).value.0, []))
  {
    var (length, rest) := ReadLength(s[1..]).value;
    var lengthOctets := ReadLengthSplit(s[1..]);
    var body := rest[..length];
    octets := [s[0]] + (lengthOctets + body);
    assert s == octets + rest[length..] by { Reassociate(s, lengthOctets, rest, length); }
    assert Decode(octets) == Some((Decode(s).value.0, [])) by {
      TrimmedLength(lengthOctets, length, body);
      assert octets[0] == s[0] && octets[1..] == lengthOctets + body;
    }
  }

  lemma Reassociate(s: seq<Octet>, lengthOctets: seq<Octet>, rest: seq<Octet>, length: nat)
    requires s != [] && s[1..] == lengthOctets + rest && length <= |rest|
    ensures s == [s[0]] + (lengthOctets + rest[..length]) + rest[length..]
  {
  }

  lemma TrimmedLength(octets: seq<Octet>, length: nat, body: seq<Octet>)
    requires ReadLength(octets) == Some((length, [])) && |body| == length
    ensures ReadLength(octets + body) == Some((length, body))
    ensures body[..length] == body && body[length..] == []
  {
    ReadLengthExtends(octets, body);
    assert [] + body == body;
  }
}
