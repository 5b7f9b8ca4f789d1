/**
 The end of buildX509Certificate: the certificate holds the very octets that were signed, as a raw leaf,
 next to an algorithm identifier that shares its object with the one inside.
 */
module Certificates {
  import opened Wrappers
  import opened Digits
  import opened Oid
  import opened Der
  import opened Asn1Nodes

  const SEQUENCE: Octet := 0x30

  ghost function CertificateTree(tbs: Tree, algorithm: ObjectId, signature: seq<Octet>): Tree {
    Constructed(SEQUENCE, [tbs, AlgorithmTree(algorithm), Primitive(BIT_STRING, [0] + signature)])
  }

  ghost function AlgorithmTree(algorithm: ObjectId): Tree {
    Constructed(SEQUENCE, [Primitive(OBJECT_IDENTIFIER, OidContent(algorithm))])
  }

  lemma EncodeThree(a: Tree, b: Tree, c: Tree)
    ensures EncodeAll([a, b, c]) == Encode(a) + Encode(b) + Encode(c)
  {
    hide Encode;
    EncodeAllAppend([], a);
    EncodeAllAppend([a], b);
    EncodeAllAppend([a, b], c);
    EncodeNone();
    assert [a] + [b] == [a, b] && [a, b] + [c] == [a, b, c] && [] + [a] == [a];
  }

  /** Embedding the signed octets is embedding the tree they encode, and they lie in the certificate untouched. */
  lemma SignedOctetsInside(tbs: Tree, algorithm: ObjectId, signature: seq<Octet>)
    ensures Encode(CertificateTree(Raw(Encode(tbs)), algorithm, signature))
      == Encode(CertificateTree(tbs, algorithm, signature))
    ensures var all := Encode(CertificateTree(tbs, algorithm, signature));
      exists before, after :: all == before + Encode(tbs) + after
  {
    hide EncodeAll, LengthOctets, OidContent, AlgorithmTree;
    var rest, end := AlgorithmTree(algorithm), Primitive(BIT_STRING, [0] + signature);
    EncodeThree(tbs, rest, end);
    EncodeThree(Raw(Encode(tbs)), rest, end);
    RawEncode(Encode(tbs));
    var body := Encode(tbs) + Encode(rest) + Encode(end);
    assert Encode(CertificateTree(tbs, algorithm, signature)) == Header(SEQUENCE, |body|) + body;
    assert Header(SEQUENCE, |body|) + body == Header(SEQUENCE, |body|) + Encode(tbs) + (Encode(rest) + Encode(end));
  }

  /** A reader gets back the tree that was signed, the algorithm and the signature, and no octet too many. */
  lemma CertificateRoundTrip(tbs: Tree, algorithm: ObjectId, signature: seq<Octet>, suffix: seq<Octet>)
    requires WellFormed(tbs)
    requires |Encode(CertificateTree(tbs, algorithm, signature))| < INT32_LIMIT
    ensures Decode(Encode(CertificateTree(Raw(Encode(tbs)), algorithm, signature)) + suffix)
      == Some((CertificateTree(Resolve(tbs), algorithm, signature), suffix))
  {
    SignedOctetsInside(tbs, algorithm, signature);
    CertificateWellFormed(tbs, algorithm, signature);
    RoundTrip(CertificateTree(tbs, algorithm, signature), suffix);
  }

  lemma CertificateWellFormed(tbs: Tree, algorithm: ObjectId, signature: seq<Octet>)
    requires WellFormed(tbs)
    ensures WellFormed(CertificateTree(tbs, algorithm, signature))
    ensures Resolve(CertificateTree(tbs, algorithm, signature)) == CertificateTree(Resolve(tbs), algorithm, signature)
  {
    hide OidContent;
    var oid, end := Primitive(OBJECT_IDENTIFIER, OidContent(algorithm)), Primitive(BIT_STRING, [0] + signature);
    WellFormedSingle(oid);
    WellFormedThree(tbs, AlgorithmTree(algorithm), end);
  }

  lemma WellFormedSingle(t: Tree)
    requires WellFormed(t)
    ensures AllWellFormed([t]) && ResolveAll([t]) == [Resolve(t)]
  {
    assert [t][1..] == [];
  }

  lemma WellFormedThree(a: Tree, b: Tree, c: Tree)
    requires WellFormed(a) && WellFormed(b) && WellFormed(c)
    ensures AllWellFormed([a, b, c]) && ResolveAll([a, b, c]) == [Resolve(a), Resolve(b), Resolve(c)]
  {
    hide WellFormed, Resolve;
    assert [a, b, c][1..] == [b, c] && [b, c][1..] == [c];
    WellFormedSingle(c);
    assert AllWellFormed([b, c]) && ResolveAll([b, c]) == [Resolve(b)] + ResolveAll([c]);
  }

  // A larger graph with the same nodes below: what a node stands for does not change.
  lemma {:induction false} TreeOfExtends(
    n: Node, nodes: set<Node>, rank: map<Node, nat>, more: set<Node>, higher: map<Node, nat>)
    requires Acyclic(nodes, rank) && Acyclic(more, higher) && n in nodes && nodes <= more
    ensures TreeOf(n, nodes, rank) == TreeOf(n, more, higher)
    decreases rank[n], 0
  {
    if n.kind.Tag? {
      TreeOfExtends(n.items[0], nodes, rank, more, higher);
    } else if n.kind.Sequence? {
      TreesOfExtend(n, |n.items|, nodes, rank, more, higher);
    }
  }

  lemma {:induction false} TreesOfExtend(
    n: Node, count: nat, nodes: set<Node>, rank: map<Node, nat>, more: set<Node>, higher: map<Node, nat>)
    requires Acyclic(nodes, rank) && Acyclic(more, higher) && n in nodes && nodes <= more && count <= |n.items|
    ensures TreesOf(n, count, nodes, rank) == TreesOf(n, count, more, higher)
    decreases rank[n], 0, count
  {
    if count > 0 {
      TreesOfExtend(n, count - 1, nodes, rank, more, higher);
      TreeOfExtends(n.items[count - 1], nodes, rank, more, higher);
    }
  }

  lemma ConsistentExtends(nodes: set<Node>, rank: map<Node, nat>, more: set<Node>, higher: map<Node, nat>)
    requires Consistent(nodes, rank) && Acyclic(more, higher) && nodes <= more
    requires forall n | n in more - nodes :: n.LeafReady() && !n.kind.Oid?
    ensures Consistent(more, higher)
  {
    hide TreeOf, BodyLength, Stored, Acyclic;
    forall n | n in more
      ensures n.LeafReady() && (n.kind.Oid? && n.frozen ==> Frozen(n, more, higher))
    {
      if n in nodes {
        TreeOfExtends(n, nodes, rank, more, higher);
      } else {
        assert n in more - nodes;
      }
    }
  }

  lemma SignatureFits(tbs: Tree, algorithm: ObjectId, signature: seq<Octet>)
    ensures |Encode(tbs)| + 1 + |signature| < |Encode(CertificateTree(tbs, algorithm, signature))|
  {
    hide LengthOctets, OidContent, AlgorithmTree, EncodeAll;
    EncodeThree(tbs, AlgorithmTree(algorithm), Primitive(BIT_STRING, [0] + signature));
  }

  // The tree of the nodes built around the signed octets.
  lemma CertificateNodes(
    cert: Node, raw: Node, identifier: Node, algorithm: Node, bits: Node, nodes: set<Node>, rank: map<Node, nat>)
    requires Acyclic(nodes, rank) && cert in nodes
    requires cert.kind == Kind.Sequence(SEQUENCE) && cert.items == [raw, identifier, bits]
    requires identifier.kind == Kind.Sequence(SEQUENCE) && identifier.items == [algorithm]
    requires raw.kind.Bytes? && algorithm.kind.Oid? && bits.kind.BitString?
    ensures TreeOf(cert, nodes, rank) == CertificateTree(Raw(raw.kind.encoded), algorithm.kind.ids, bits.kind.bits)
  {
    hide OidContent;
    ItemBelow(cert, 1, nodes, rank);
    TreesOfOne(identifier, nodes, rank);
    TreesOfThree(cert, nodes, rank);
  }

  lemma TreesOfOne(n: Node, nodes: set<Node>, rank: map<Node, nat>)
    requires Acyclic(nodes, rank) && n in nodes && |n.items| == 1
    ensures TreesOf(n, 1, nodes, rank) == [TreeOf(n.items[0], nodes, rank)]
  {
    assert TreesOf(n, 0, nodes, rank) == [];
  }

  lemma TreesOfThree(n: Node, nodes: set<Node>, rank: map<Node, nat>)
    requires Acyclic(nodes, rank) && n in nodes && |n.items| == 3
    ensures TreesOf(n, 3, nodes, rank) ==
      [TreeOf(n.items[0], nodes, rank), TreeOf(n.items[1], nodes, rank), TreeOf(n.items[2], nodes, rank)]
  {
    hide TreeOf;
    assert TreesOf(n, 0, nodes, rank) == [];
    assert TreesOf(n, 1, nodes, rank) == [TreeOf(n.items[0], nodes, rank)];
  }

  // The nodes around the signed octets.
  method Assemble(tbsOctets: seq<Octet>, algorithm: Node, signature: seq<Octet>)
    returns (cert: Node, ghost raw: Node, ghost identifier: Node, ghost bits: Node)
    requires 1 + |signature| < INT32_LIMIT
    ensures fresh(cert) && fresh(raw) && fresh(identifier) && fresh(bits)
    ensures cert.kind == Kind.Sequence(SEQUENCE) && cert.items == [raw, identifier, bits]
    ensures identifier.kind == Kind.Sequence(SEQUENCE) && identifier.items == [algorithm]
    ensures raw.kind == Bytes(tbsOctets) && raw.items == [] && bits.kind == BitString(signature) && bits.items == []
    ensures cert.LeafReady() && raw.LeafReady() && identifier.LeafReady() && bits.LeafReady()
  {
    hide LengthOctets, OidContent;
    var tbs := new Node(Bytes(tbsOctets), []);
    cert := new Node(Kind.Sequence(SEQUENCE), [tbs]);
    var sequence := new Node(Kind.Sequence(SEQUENCE), [algorithm]);
    cert.Add(sequence);
    var bitString := new Node(BitString(signature), []);
    cert.Add(bitString);
    raw, identifier, bits := tbs, sequence, bitString;
  }

  lemma AcyclicExtends(
    cert: Node, raw: Node, identifier: Node, algorithm: Node, bits: Node, nodes: set<Node>, rank: map<Node, nat>)
    returns (higher: map<Node, nat>)
    requires Acyclic(nodes, rank) && algorithm in nodes && {raw, cert, identifier, bits} !! nodes
    requires cert.kind.Sequence? && cert.items == [raw, identifier, bits]
    requires identifier.kind.Sequence? && identifier.items == [algorithm]
    requires raw.kind.Bytes? && raw.items == [] && bits.kind.BitString? && bits.items == []
    ensures Acyclic(nodes + {raw, cert, identifier, bits}, higher)
  {
    higher := rank[raw := 0][bits := 0][identifier := rank[algorithm] + 1][cert := rank[algorithm] + 2];
  }

  method EncodeCertificate(
    tbsOctets: seq<Octet>, algorithm: Node, signature: seq<Octet>, ghost nodes: set<Node>, ghost rank: map<Node, nat>)
    returns (data: array<Octet>)
    requires Acyclic(nodes, rank) && Consistent(nodes, rank) && Expressible(nodes)
    requires algorithm in nodes && algorithm.kind.Oid? && 1 + |signature| < INT32_LIMIT
    requires |Encode(CertificateTree(Raw(tbsOctets), algorithm.kind.ids, signature))| < INT32_LIMIT
    modifies nodes`lengthBytes, nodes`itemsLength, nodes`bytes, nodes`frozen
    ensures fresh(data) && data[..] == Encode(CertificateTree(Raw(tbsOctets), algorithm.kind.ids, signature))
  {
    hide Encode, TreeOf, CertificateTree, Consistent, Acyclic, Node.LeafReady;
    var cert;
    ghost var raw, identifier, bits;
    cert, raw, identifier, bits := Assemble(tbsOctets, algorithm, signature);
    ghost var more := nodes + {raw, cert, identifier, bits};
    ghost var higher := AcyclicExtends(cert, raw, identifier, algorithm, bits, nodes, rank);
    ConsistentExtends(nodes, rank, more, higher);
    CertificateNodes(cert, raw, identifier, algorithm, bits, more, higher);
    assert forall n | n in more :: n in nodes || fresh(n);
    data := EncodeAsn1(cert, more, higher);
  }

  /**
   From the part to be signed to the certificate. The algorithm identifier's object is shared: the first
   encoding has frozen it, and the second uses it again.
   */
  method BuildCertificate(
    tbs: Node, algorithm: Node, sign: seq<Octet> -> seq<Octet>, ghost nodes: set<Node>, ghost rank: map<Node, nat>)
    returns (data: array<Octet>)
    requires Consistent(nodes, rank) && Expressible(nodes)
    requires tbs in nodes && algorithm in nodes && algorithm.kind.Oid?
    requires var t := TreeOf(tbs, nodes, rank);
      |Encode(CertificateTree(t, algorithm.kind.ids, sign(Encode(t))))| < INT32_LIMIT
    modifies nodes`lengthBytes, nodes`itemsLength, nodes`bytes, nodes`frozen
    ensures var t := TreeOf(tbs, nodes, rank);
      fresh(data) && data[..] == Encode(CertificateTree(t, algorithm.kind.ids, sign(Encode(t))))
    ensures (forall m | m in nodes :: Readable(m.kind)) ==>
      Acyclic(nodes, rank) && IsSigned(data[..], tbs, algorithm, sign, nodes, rank)
  {
    hide Encode, TreeOf, CertificateTree, Consistent, Acyclic, Expressible, Readable, IsSigned;
    ConsistentAcyclic(nodes, rank);
    ghost var t := TreeOf(tbs, nodes, rank);
    SignatureFits(t, algorithm.kind.ids, sign(Encode(t)));
    SignedOctetsInside(t, algorithm.kind.ids, sign(Encode(t)));
    var tbsBuffer := EncodeAsn1(tbs, nodes, rank);
    data := EncodeCertificate(tbsBuffer[..], algorithm, sign(tbsBuffer[..]), nodes, rank);
    if forall m | m in nodes :: Readable(m.kind) {
      CertificateShows(data[..], tbs, algorithm, sign, nodes, rank);
    }
  }

  // A reader sees the signed part, the algorithm and the signature of the very octets of the signed part.
  ghost predicate IsSigned(
    octets: seq<Octet>, tbs: Node, algorithm: Node, sign: seq<Octet> -> seq<Octet>, nodes: set<Node>,
    rank: map<Node, nat>)
    requires Acyclic(nodes, rank) && tbs in nodes && algorithm in nodes
    reads nodes`items
  {
    exists t, identifier, before, inside, after ::
      && Decode(octets) == Some((
           Constructed(0x30, [t, Constructed(0x30, [identifier]), Primitive(0x03, [0x00] + sign(inside))]), []))
      && Shows(t, tbs, nodes, rank) && Shows(identifier, algorithm, nodes, rank)
      && octets == before + inside + after && Decode(inside) == Some((t, []))
  }

  lemma CertificateShows(
    octets: seq<Octet>, tbs: Node, algorithm: Node, sign: seq<Octet> -> seq<Octet>, nodes: set<Node>,
    rank: map<Node, nat>)
    requires Acyclic(nodes, rank) && tbs in nodes && algorithm in nodes && algorithm.kind.Oid?
    requires Expressible(nodes) && forall m | m in nodes :: Readable(m.kind)
    requires var t := TreeOf(tbs, nodes, rank);
      octets == Encode(CertificateTree(t, algorithm.kind.ids, sign(Encode(t)))) && |octets| < INT32_LIMIT
    ensures IsSigned(octets, tbs, algorithm, sign, nodes, rank)
  {
    hide Encode, TreeOf, Expressible, Readable, Shows, Decode, Resolve, WellFormed, OidContent;
    var t := TreeOf(tbs, nodes, rank);
    var inside := Encode(t);
    TreeShows(tbs, nodes, rank);
    TreeShows(algorithm, nodes, rank);
    SignatureFits(t, algorithm.kind.ids, sign(inside));
    SignedOctetsInside(t, algorithm.kind.ids, sign(inside));
    CertificateRoundTrip(t, algorithm.kind.ids, sign(inside), []);
    assert octets + [] == octets && inside + [] == inside;
    RoundTrip(t, []);
    AlgorithmShows(algorithm, nodes, rank);
    var before, after :| octets == before + inside + after;
    var identifier := Resolve(TreeOf(algorithm, nodes, rank));
    var certificate :=
      Constructed(0x30, [Resolve(t), Constructed(0x30, [identifier]), Primitive(0x03, [0x00] + sign(inside))]);
    assert Decode(octets) == Some((certificate, []));
  }

  lemma AlgorithmShows(algorithm: Node, nodes: set<Node>, rank: map<Node, nat>)
    requires Acyclic(nodes, rank) && algorithm in nodes && algorithm.kind.Oid?
    requires WellFormed(TreeOf(algorithm, nodes, rank))
    ensures AlgorithmTree(algorithm.kind.ids) == Constructed(SEQUENCE, [Resolve(TreeOf(algorithm, nodes, rank))])
  {
    hide OidContent;
  }

  lemma ConsistentAcyclic(nodes: set<Node>, rank: map<Node, nat>)
    requires Consistent(nodes, rank)
    ensures Acyclic(nodes, rank)
  {
  }
}
