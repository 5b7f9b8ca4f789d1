/**
 The two-pass ASN.1 writer on the heap. freeze() stores lengths bottom-up in the node objects,
 encode() then writes into a buffer of exactly the root's length. Nodes may be shared: the object
 identifiers of the client are constants that occur in many trees and are frozen again each time.
 */
module Asn1Nodes {
  import opened Wrappers
  import opened Digits
  import opened Oid
  import opened Der

  const INTEGER: Octet := 0x2
  const BIT_STRING: Octet := 0x3
  const OCTET_STRING: Octet := 0x4
  const NULL_TYPE: Octet := 0x5
  const OBJECT_IDENTIFIER: Octet := 0x6

  class ByteBuffer {
    var data: array<Octet>
    var position: nat

    ghost predicate Valid()
      reads this
    {
      position <= data.Length
    }

    ghost function Written(): seq<Octet>
      requires Valid()
      reads this, data
    {
      data[..position]
    }

    constructor (size: nat)
      ensures Valid() && fresh(data) && data.Length == size && Written() == []
    {
      data := new Octet[size](_ => 0);
      position := 0;
    }

    // put() of one number.
    method PutOctet(item: Octet)
      requires Valid() && position < data.Length
      modifies this`position, data
      ensures Valid() && Written() == old(Written()) + [item]
    {
      data[position] := item;
      position := position + 1;
    }

    // put() of an array. Uint8Array.set throws unless the items fit, so fitting is the precondition.
    method PutOctets(items: seq<Octet>)
      requires Valid() && position + |items| <= data.Length
      modifies this`position, data
      ensures Valid() && Written() == old(Written()) + items
    {
      forall i | 0 <= i < |items| {
        data[position + i] := items[i];
      }
      position := position + |items|;
    }

    // put(type, lengthBytes, content).
    method PutElement(type_: Octet, lengthBytes: seq<Octet>, content: seq<Octet>)
      requires Valid() && position + 1 + |lengthBytes| + |content| <= data.Length
      modifies this`position, data
      ensures Valid() && Written() == old(Written()) + ([type_] + lengthBytes + content)
    {
      PutOctet(type_);
      PutOctets(lengthBytes);
      PutOctets(content);
      assert Written() == old(Written()) + [type_] + lengthBytes + content;
    }
  }

  // One constructor per node class of the source; ASN1Set and ASN1Sequence differ in the type octet only.
  datatype Kind =
    | Tag(tagType: Octet)
    | Sequence(sequenceType: Octet)
    | Oid(ids: ObjectId)
    | Integer(content: seq<Octet>)
    | Text(textType: Octet, text: seq<Octet>)
    | BitString(bits: seq<Octet>)
    | OctetString(octets: seq<Octet>)
    | Null
    | Bytes(encoded: seq<Octet>)

  class Node {
    const kind: Kind
    var items: seq<Node>          // a tag's value, a sequence's items
    var lengthBytes: seq<Octet>
    var itemsLength: nat          // sequences
    var bytes: seq<Octet>         // object identifiers
    var frozen: bool              // object identifiers

    // Nodes with no children compute their length octets here, except object identifiers.
    constructor (kind: Kind, items: seq<Node>)
      requires kind.Tag? ==> |items| == 1
      requires !kind.Tag? && !kind.Sequence? ==> items == []
      requires StoresLength(kind) ==> |LeafContent(kind)| < INT32_LIMIT
      ensures this.kind == kind && this.items == items && !frozen && LeafReady()
    {
      this.kind := kind;
      this.items := items;
      this.frozen := false;
      this.itemsLength := 0;
      this.bytes := [];
      this.lengthBytes := [];
      new;
      if StoresLength(kind) {
        lengthBytes := EncodeLength(|LeafContent(kind)|);
      }
    }

    method Add(item: Node)
      requires kind.Sequence?
      modifies this`items
      ensures items == old(items) + [item]
    {
      items := items + [item];
    }

    ghost predicate LeafReady()
      reads this`lengthBytes
    {
      StoresLength(kind) ==> lengthBytes == LengthOctets(|LeafContent(kind)|)
    }
  }

  predicate StoresLength(kind: Kind) {
    kind.Integer? || kind.Text? || kind.BitString? || kind.OctetString?
  }

  function LeafType(kind: Kind): Octet {
    match kind
    case Integer(_) => INTEGER
    case Text(type_, _) => type_
    case BitString(_) => BIT_STRING
    case OctetString(_) => OCTET_STRING
    case Oid(_) => OBJECT_IDENTIFIER
    case _ => NULL_TYPE
  }

  function LeafContent(kind: Kind): seq<Octet> {
    match kind
    case Integer(content) => content
    case Text(_, text) => text
    case BitString(bits) => [0] + bits  // no unused bits
    case OctetString(octets) => octets
    case Oid(ids) => OidContent(ids)
    case _ => []
  }

  // Children lie in the set and have a lower rank: the nodes form a finite graph without cycles.
  ghost predicate Acyclic(nodes: set<Node>, rank: map<Node, nat>)
    reads nodes`items
  {
    && nodes <= rank.Keys
    && (forall n | n in nodes :: if n.kind.Tag? then |n.items| == 1 else n.kind.Sequence? || n.items == [])
    && forall n, c | n in nodes && c in n.items :: c in nodes && rank[c] < rank[n]
  }

  // The tree a node stands for.
  ghost function TreeOf(n: Node, nodes: set<Node>, rank: map<Node, nat>): Tree
    requires Acyclic(nodes, rank) && n in nodes
    reads nodes`items
    decreases rank[n], 0
  {
    match n.kind
    case Tag(type_) => Constructed(type_, [TreeOf(n.items[0], nodes, rank)])
    case Sequence(type_) => Constructed(type_, TreesOf(n, |n.items|, nodes, rank))
    case Bytes(encoded) => Raw(encoded)
    case _ => Primitive(LeafType(n.kind), LeafContent(n.kind))
  }

  // The trees of the first `count` items.
  ghost function TreesOf(n: Node, count: nat, nodes: set<Node>, rank: map<Node, nat>): (ts: seq<Tree>)
    requires Acyclic(nodes, rank) && n in nodes && count <= |n.items|
    ensures |ts| == count
    reads nodes`items
    decreases rank[n], 0, count
  {
    if count == 0 then []
    else TreesOf(n, count - 1, nodes, rank) + [TreeOf(n.items[count - 1], nodes, rank)]
  }

  ghost function BodyLength(t: Tree): nat {
    match t
    case Primitive(_, content) => |content|
    case Constructed(_, items) => |EncodeAll(items)|
    case Raw(octets) => |octets|
  }

  // The stored lengths are those of a body of the given length.
  ghost predicate Stored(n: Node, length: nat)
    reads n`lengthBytes, n`itemsLength, n`bytes
  {
    && (n.kind.Tag? || n.kind.Sequence? || n.kind.Oid? ==> n.lengthBytes == LengthOctets(length))
    && (n.kind.Sequence? ==> n.itemsLength == length)
    && (n.kind.Oid? ==> n.bytes == LeafContent(n.kind))
    && n.LeafReady()
  }

  // What freeze() stores is what the tree asks for.
  ghost predicate Frozen(n: Node, nodes: set<Node>, rank: map<Node, nat>)
    requires Acyclic(nodes, rank) && n in nodes
    reads nodes`items, n`lengthBytes, n`itemsLength, n`bytes
  {
    Stored(n, BodyLength(TreeOf(n, nodes, rank)))
  }

  // The state between calls: leaves keep what their constructors stored, and the flag is honest.
  ghost predicate Consistent(nodes: set<Node>, rank: map<Node, nat>)
    reads nodes`items, nodes`lengthBytes, nodes`itemsLength, nodes`bytes, nodes`frozen
  {
    && Acyclic(nodes, rank)
    && forall n | n in nodes :: n.LeafReady() && (n.kind.Oid? && n.frozen ==> Frozen(n, nodes, rank))
  }

  // A set of frozen nodes that contains the children of its members.
  ghost predicate AllFrozen(done: set<Node>, nodes: set<Node>, rank: map<Node, nat>)
    requires Acyclic(nodes, rank)
    reads nodes`items, nodes`lengthBytes, nodes`itemsLength, nodes`bytes
  {
    && done <= nodes
    && (forall n | n in done :: Frozen(n, nodes, rank))
    && forall n, c | n in done && c in n.items :: c in done
  }

  // The length getters.
  function Length(n: Node, ghost nodes: set<Node>, ghost rank: map<Node, nat>): nat
    requires Acyclic(nodes, rank) && n in nodes
    reads nodes
    decreases rank[n]
  {
    match n.kind
    case Tag(_) => 1 + |n.lengthBytes| + Length(n.items[0], nodes, rank)
    case Sequence(_) => 1 + |n.lengthBytes| + n.itemsLength
    case Oid(_) => 1 + |n.lengthBytes| + |n.bytes|
    case Null => 2
    case Bytes(encoded) => |encoded|
    case _ => 1 + |n.lengthBytes| + |LeafContent(n.kind)|
  }

  lemma {:induction false} EncodeAllAppend(ts: seq<Tree>, t: Tree)
    ensures EncodeAll(ts + [t]) == EncodeAll(ts) + Encode(t)
  {
    hide Encode;
    if ts == [] {
      assert EncodeAll([t]) == Encode(t) + EncodeAll([]);
    } else {
      EncodeAllAppend(ts[1..], t);
      assert (ts + [t])[1..] == ts[1..] + [t];
    }
  }

  lemma EncodeLengthIs(t: Tree)
    requires !t.Raw?
    ensures |Encode(t)| == 1 + |LengthOctets(BodyLength(t))| + BodyLength(t)
  {
  }

  /** On frozen nodes the length getters give the length of the encoding. */
  lemma {:induction false} LengthIsEncodedLength(n: Node, done: set<Node>, nodes: set<Node>, rank: map<Node, nat>)
    requires Acyclic(nodes, rank) && AllFrozen(done, nodes, rank) && n in done
    ensures Length(n, nodes, rank) == |Encode(TreeOf(n, nodes, rank))|
    decreases rank[n]
  {
    hide Encode, LengthOctets;
    var t := TreeOf(n, nodes, rank);
    if n.kind.Bytes? {
      assert Encode(t) == n.kind.encoded by { RawEncode(n.kind.encoded); }
    } else {
      EncodeLengthIs(t);
    }
    if n.kind.Tag? {
      LengthIsEncodedLength(n.items[0], done, nodes, rank);
      EncodeSingle(TreeOf(n.items[0], nodes, rank));
    } else if n.kind.Null? {
      assert LengthOctets(0) == [0] by { ShortLength(); }
    }
  }

  lemma RawEncode(octets: seq<Octet>)
    ensures Encode(Raw(octets)) == octets
  {
  }

  lemma ShortLength()
    ensures LengthOctets(0) == [0]
  {
  }

  lemma EncodeSingle(t: Tree)
    ensures EncodeAll([t]) == Encode(t)
  {
    EncodeAllAppend([], t);
  }

  // Each item's encoding is part of the body of its parent.
  lemma {:induction false} ItemFits(n: Node, i: nat, count: nat, nodes: set<Node>, rank: map<Node, nat>)
    requires Acyclic(nodes, rank) && n in nodes && i < count <= |n.items|
    ensures |Encode(TreeOf(n.items[i], nodes, rank))| <= |EncodeAll(TreesOf(n, count, nodes, rank))|
    decreases count
  {
    hide Encode, EncodeAll, TreeOf;
    EncodeAllAppend(TreesOf(n, count - 1, nodes, rank), TreeOf(n.items[count - 1], nodes, rank));
    if i < count - 1 {
      ItemFits(n, i, count - 1, nodes, rank);
    }
  }

  // The digit loop of an object identifier ends for arcs below 2^31 only.
  ghost predicate Expressible(nodes: set<Node>)
  {
    forall n | n in nodes && n.kind.Oid? :: forall i | 0 <= i < |n.kind.ids| :: n.kind.ids[i] < INT32_LIMIT
  }

  /**
   freeze(): stores correct lengths at n and below, whatever of it was frozen before, and leaves
   the rest as it was. `frozenNow` is the set of nodes known to be frozen afterwards.
   */
  method Freeze(n: Node, ghost done: set<Node>, ghost nodes: set<Node>, ghost rank: map<Node, nat>)
    returns (ghost frozenNow: set<Node>)
    requires Acyclic(nodes, rank) && Consistent(nodes, rank) && AllFrozen(done, nodes, rank)
    requires Expressible(nodes) && n in nodes
    requires |Encode(TreeOf(n, nodes, rank))| < INT32_LIMIT
    modifies nodes`lengthBytes, nodes`itemsLength, nodes`bytes, nodes`frozen
    ensures Acyclic(nodes, rank) && Consistent(nodes, rank) && AllFrozen(frozenNow, nodes, rank)
    ensures done <= frozenNow && n in frozenNow
    decreases rank[n]
  {
    hide Encode, EncodeAll, LengthOctets, TreesOf, TreeOf, Frozen;
    if n.kind.Tag? {
      frozenNow := FreezeTag(n, done, nodes, rank);
    } else if n.kind.Sequence? {
      frozenNow := FreezeSequence(n, done, nodes, rank);
    } else if n.kind.Oid? {
      FreezeOid(n, done, nodes, rank);
      frozenNow := done;
    } else {
      LeafFrozen(n, nodes, rank);
      frozenNow := done;
    }
    frozenNow := frozenNow + {n};
  }

  lemma LeafFrozen(n: Node, nodes: set<Node>, rank: map<Node, nat>)
    requires Consistent(nodes, rank) && n in nodes
    requires !n.kind.Tag? && !n.kind.Sequence? && !n.kind.Oid?
    ensures Frozen(n, nodes, rank)
  {
  }

  method FreezeTag(n: Node, ghost done: set<Node>, ghost nodes: set<Node>, ghost rank: map<Node, nat>)
    returns (ghost frozenNow: set<Node>)
    requires Acyclic(nodes, rank) && Consistent(nodes, rank) && AllFrozen(done, nodes, rank)
    requires Expressible(nodes) && n in nodes
    requires n.kind.Tag? && |Encode(TreeOf(n, nodes, rank))| < INT32_LIMIT
    modifies nodes`lengthBytes, nodes`itemsLength, nodes`bytes, nodes`frozen
    ensures Acyclic(nodes, rank) && Consistent(nodes, rank) && AllFrozen(frozenNow, nodes, rank)
    ensures done <= frozenNow && Frozen(n, nodes, rank) && n.items[0] in frozenNow
    decreases rank[n], 0
  {
    hide Encode, EncodeAll, LengthOctets, TreesOf, TreeOf, BodyLength, Frozen;
    TagBody(n, nodes, rank);
    frozenNow := Freeze(n.items[0], done, nodes, rank);
    LengthIsEncodedLength(n.items[0], frozenNow, nodes, rank);
    var octets := EncodeLength(Length(n.items[0], nodes, rank));
    Store(n, octets, n.itemsLength, n.bytes, n.frozen, frozenNow, nodes, rank);
  }

  lemma TagBody(n: Node, nodes: set<Node>, rank: map<Node, nat>)
    requires Acyclic(nodes, rank) && n in nodes && n.kind.Tag?
    ensures BodyLength(TreeOf(n, nodes, rank)) == |Encode(TreeOf(n.items[0], nodes, rank))|
    ensures BodyLength(TreeOf(n, nodes, rank)) <= |Encode(TreeOf(n, nodes, rank))|
  {
    hide Encode, EncodeAll;
    EncodeSingle(TreeOf(n.items[0], nodes, rank));
    BodyShorter(TreeOf(n, nodes, rank));
  }

  // The assignments that end each freeze(): correct lengths at one node disturb nothing that was frozen.
  method Store(n: Node, lengthBytes: seq<Octet>, itemsLength: nat, bytes: seq<Octet>, frozen: bool,
               ghost done: set<Node>, ghost nodes: set<Node>, ghost rank: map<Node, nat>)
    requires Acyclic(nodes, rank) && Consistent(nodes, rank) && AllFrozen(done, nodes, rank) && n in nodes
    requires var length := BodyLength(TreeOf(n, nodes, rank));
      && (n.kind.Tag? || n.kind.Sequence? || n.kind.Oid?)
      && lengthBytes == LengthOctets(length)
      && (n.kind.Sequence? ==> itemsLength == length)
      && (n.kind.Oid? ==> bytes == LeafContent(n.kind))
    modifies nodes`lengthBytes, nodes`itemsLength, nodes`bytes, nodes`frozen
    ensures n.lengthBytes == lengthBytes && n.itemsLength == itemsLength && n.bytes == bytes && n.frozen == frozen
    ensures Acyclic(nodes, rank) && Consistent(nodes, rank) && AllFrozen(done, nodes, rank)
    ensures Frozen(n, nodes, rank)
  {
    hide TreeOf, BodyLength, LengthOctets, Stored;
    n.lengthBytes, n.itemsLength, n.bytes, n.frozen := lengthBytes, itemsLength, bytes, frozen;
    StoredBy(n, BodyLength(TreeOf(n, nodes, rank)));
    assert forall m | m in nodes && m != n :: Frozen(m, nodes, rank) == old(Frozen(m, nodes, rank));
  }

  lemma StoredBy(n: Node, length: nat)
    requires n.kind.Tag? || n.kind.Sequence? || n.kind.Oid?
    requires n.lengthBytes == LengthOctets(length)
    requires n.kind.Sequence? ==> n.itemsLength == length
    requires n.kind.Oid? ==> n.bytes == LeafContent(n.kind)
    ensures Stored(n, length) && n.LeafReady()
  {
  }

  method FreezeSequence(n: Node, ghost done: set<Node>, ghost nodes: set<Node>, ghost rank: map<Node, nat>)
    returns (ghost frozenNow: set<Node>)
    requires Acyclic(nodes, rank) && Consistent(nodes, rank) && AllFrozen(done, nodes, rank)
    requires Expressible(nodes) && n in nodes
    requires n.kind.Sequence? && |Encode(TreeOf(n, nodes, rank))| < INT32_LIMIT
    modifies nodes`lengthBytes, nodes`itemsLength, nodes`bytes, nodes`frozen
    ensures Acyclic(nodes, rank) && Consistent(nodes, rank) && AllFrozen(frozenNow, nodes, rank)
    ensures done <= frozenNow && Frozen(n, nodes, rank) && forall c | c in n.items :: c in frozenNow
    decreases rank[n], 1
  {
    hide Encode, EncodeAll, LengthOctets, TreesOf, TreeOf, BodyLength, Frozen;
    SequenceBody(n, nodes, rank);
    var total: nat;
    total, frozenNow := FreezeItems(n, done, nodes, rank);
    var octets := EncodeLength(total);
    Store(n, octets, total, n.bytes, n.frozen, frozenNow, nodes, rank);
  }

  lemma SequenceBody(n: Node, nodes: set<Node>, rank: map<Node, nat>)
    requires Acyclic(nodes, rank) && n in nodes && n.kind.Sequence?
    ensures BodyLength(TreeOf(n, nodes, rank)) == |EncodeAll(TreesOf(n, |n.items|, nodes, rank))|
    ensures BodyLength(TreeOf(n, nodes, rank)) <= |Encode(TreeOf(n, nodes, rank))|
  {
    hide Encode, EncodeAll, TreesOf;
    BodyShorter(TreeOf(n, nodes, rank));
  }

  method FreezeOid(n: Node, ghost done: set<Node>, ghost nodes: set<Node>, ghost rank: map<Node, nat>)
    requires Acyclic(nodes, rank) && Consistent(nodes, rank) && AllFrozen(done, nodes, rank)
    requires Expressible(nodes) && n in nodes
    requires n.kind.Oid? && |Encode(TreeOf(n, nodes, rank))| < INT32_LIMIT
    modifies nodes`lengthBytes, nodes`itemsLength, nodes`bytes, nodes`frozen
    ensures Acyclic(nodes, rank) && Consistent(nodes, rank) && AllFrozen(done, nodes, rank) && Frozen(n, nodes, rank)
  {
    hide Encode, EncodeAll, LengthOctets, TreesOf, TreeOf, BodyLength, OidContent, Frozen;
    if n.frozen {
      return;
    }
    OidBody(n, nodes, rank);
    SmallArcs(n.kind.ids);
    var bytes := EncodeOid(n.kind.ids);
    var octets := EncodeLength(|bytes|);
    Store(n, octets, n.itemsLength, bytes, true, done, nodes, rank);
  }

  lemma OidBody(n: Node, nodes: set<Node>, rank: map<Node, nat>)
    requires Acyclic(nodes, rank) && n in nodes && n.kind.Oid?
    ensures BodyLength(TreeOf(n, nodes, rank)) == |OidContent(n.kind.ids)|
    ensures BodyLength(TreeOf(n, nodes, rank)) <= |Encode(TreeOf(n, nodes, rank))|
  {
    hide Encode, OidContent;
    BodyShorter(TreeOf(n, nodes, rank));
  }

  lemma BodyShorter(t: Tree)
    ensures BodyLength(t) <= |Encode(t)|
  {
  }

  lemma ItemBelow(n: Node, i: nat, nodes: set<Node>, rank: map<Node, nat>)
    requires Acyclic(nodes, rank) && n in nodes && i < |n.items|
    ensures n.items[i] in nodes && n in rank && rank[n.items[i]] < rank[n]
  {
  }

  // The reduce() over the items of a sequence.
  method FreezeItems(n: Node, ghost done: set<Node>, ghost nodes: set<Node>, ghost rank: map<Node, nat>)
    returns (total: nat, ghost frozenNow: set<Node>)
    requires Acyclic(nodes, rank) && Consistent(nodes, rank) && AllFrozen(done, nodes, rank)
    requires Expressible(nodes) && n in nodes
    requires |EncodeAll(TreesOf(n, |n.items|, nodes, rank))| < INT32_LIMIT
    modifies nodes`lengthBytes, nodes`itemsLength, nodes`bytes, nodes`frozen
    ensures Acyclic(nodes, rank) && Consistent(nodes, rank) && AllFrozen(frozenNow, nodes, rank)
    ensures done <= frozenNow && forall c | c in n.items :: c in frozenNow
    ensures total == |EncodeAll(TreesOf(n, |n.items|, nodes, rank))|
    decreases rank[n], 0
  {
    hide Encode, EncodeAll, LengthOctets, TreeOf, BodyLength, Consistent, AllFrozen, Acyclic, Expressible;
    frozenNow := done;
    total := 0;
    assert EncodeAll([]) == [] by { EncodeNone(); }
    for i := 0 to |n.items|
      invariant Acyclic(nodes, rank) && Consistent(nodes, rank) && AllFrozen(frozenNow, nodes, rank)
      invariant done <= frozenNow && forall c | c in n.items[..i] :: c in frozenNow
      invariant total == |EncodeAll(TreesOf(n, i, nodes, rank))|
    {
      ItemBelow(n, i, nodes, rank);
      ItemFits(n, i, |n.items|, nodes, rank);
      frozenNow := Freeze(n.items[i], frozenNow, nodes, rank);
      LengthIsEncodedLength(n.items[i], frozenNow, nodes, rank);
      EncodeAllAppend(TreesOf(n, i, nodes, rank), TreeOf(n.items[i], nodes, rank));
      total := total + Length(n.items[i], nodes, rank);
    }
  }

  lemma EncodeNone()
    ensures EncodeAll([]) == []
  {
  }

  // All that a reader needs: readable nodes, arcs below 2^31, and an encoding below the length limit.
  ghost predicate CanShow(n: Node, nodes: set<Node>, rank: map<Node, nat>)
    requires Acyclic(nodes, rank) && n in nodes
    reads nodes`items
  {
    (forall m | m in nodes :: Readable(m.kind)) && Expressible(nodes) && |Encode(TreeOf(n, nodes, rank))| < INT32_LIMIT
  }

  // A reader sees the node in these octets, and no octet more.
  ghost predicate ReadsAs(octets: seq<Octet>, n: Node, nodes: set<Node>, rank: map<Node, nat>)
    requires Acyclic(nodes, rank) && n in nodes
    reads nodes`items
  {
    Decode(octets).Some? && Decode(octets).value.1 == [] && Shows(Decode(octets).value.0, n, nodes, rank)
  }

  lemma NodeReadsAs(n: Node, nodes: set<Node>, rank: map<Node, nat>)
    requires Acyclic(nodes, rank) && n in nodes && CanShow(n, nodes, rank)
    ensures ReadsAs(Encode(TreeOf(n, nodes, rank)), n, nodes, rank)
  {
    hide Encode, TreeOf, Readable, Decode, Resolve, Shows, WellFormed;
    WrittenShows(n, nodes, rank, Encode(TreeOf(n, nodes, rank)));
  }

  /** encode(): appends exactly the encoding of the tree, at every node; a reader sees the node in it. */
  method EncodeNode(n: Node, buf: ByteBuffer, ghost done: set<Node>, ghost nodes: set<Node>, ghost rank: map<Node, nat>)
    requires Acyclic(nodes, rank) && AllFrozen(done, nodes, rank) && n in done
    requires buf.Valid() && buf.position + |Encode(TreeOf(n, nodes, rank))| <= buf.data.Length
    modifies buf`position, buf.data
    ensures buf.Valid() && buf.Written() == old(buf.Written()) + Encode(TreeOf(n, nodes, rank))
    ensures CanShow(n, nodes, rank) ==>
      exists octets :: buf.Written() == old(buf.Written()) + octets && ReadsAs(octets, n, nodes, rank)
    decreases rank[n]
  {
    hide LengthOctets, Encode, EncodeAll, TreesOf, LeafContent, LeafType, CanShow, ReadsAs;
    ghost var t := TreeOf(n, nodes, rank);
    if n.kind.Tag? {
      EncodeSingle(t.items[0]);
      ElementSplit(t);
      buf.PutElement(n.kind.tagType, n.lengthBytes, []);
      EncodeNode(n.items[0], buf, done, nodes, rank);
    } else if n.kind.Sequence? {
      ElementSplit(t);
      buf.PutElement(n.kind.sequenceType, n.lengthBytes, []);
      EncodeItems(n, buf, done, nodes, rank);
    } else if n.kind.Bytes? {
      RawEncode(n.kind.encoded);
      buf.PutOctets(n.kind.encoded);
    } else {
      ElementSplit(t);
      EncodeLeaf(n, buf);
    }
    assert buf.Written() == old(buf.Written()) + Encode(t);
    if CanShow(n, nodes, rank) {
      NodeReadsAs(n, nodes, rank);
    }
  }

  lemma ElementSplit(t: Tree)
    requires !t.Raw?
    ensures Encode(t) ==
      [t.tag] + LengthOctets(BodyLength(t)) + (if t.Constructed? then EncodeAll(t.items) else t.content)
  {
  }

  lemma NullContent(kind: Kind)
    requires kind.Null?
    ensures LeafContent(kind) == []
  {
  }

  lemma LeafMeans(kind: Kind)
    ensures match kind
      case Integer(c) => LeafType(kind) == 0x02 && LeafContent(kind) == c
      case BitString(c) => LeafType(kind) == 0x03 && LeafContent(kind) == [0x00] + c
      case OctetString(c) => LeafType(kind) == 0x04 && LeafContent(kind) == c
      case Null => LeafType(kind) == 0x05 && LeafContent(kind) == []
      case Text(type_, c) => LeafType(kind) == type_ && LeafContent(kind) == c
      case Oid(_) => LeafType(kind) == 0x06
      case _ => true
  {
    hide OidContent;
  }

  // The encode() of the classes without children; ASN1Bytes is written by the caller.
  method EncodeLeaf(n: Node, buf: ByteBuffer)
    requires !n.kind.Tag? && !n.kind.Sequence? && !n.kind.Bytes?
    requires !n.kind.Null? ==> n.lengthBytes == LengthOctets(|LeafContent(n.kind)|)
    requires n.kind.Oid? ==> n.bytes == LeafContent(n.kind)
    requires buf.Valid()
    requires buf.position + 1 + |LengthOctets(|LeafContent(n.kind)|)| + |LeafContent(n.kind)| <= buf.data.Length
    modifies buf`position, buf.data
    ensures buf.Valid()
    ensures buf.Written() == old(buf.Written())
      + ([LeafType(n.kind)] + LengthOctets(|LeafContent(n.kind)|) + LeafContent(n.kind))
    ensures match n.kind
      case Integer(c) => buf.Written() == old(buf.Written()) + ([0x02] + LengthOctets(|c|) + c)
      case BitString(c) => buf.Written() == old(buf.Written()) + ([0x03] + LengthOctets(|c| + 1) + ([0x00] + c))
      case OctetString(c) => buf.Written() == old(buf.Written()) + ([0x04] + LengthOctets(|c|) + c)
      case Null => buf.Written() == old(buf.Written()) + [0x05, 0x00]
      case Text(type_, c) => buf.Written() == old(buf.Written()) + ([type_] + LengthOctets(|c|) + c)
      case Oid(_) => buf.Written() == old(buf.Written()) + ([0x06] + n.lengthBytes + n.bytes)
      case _ => true
  {
    hide LengthOctets, OidContent, LeafContent, LeafType;
    LeafMeans(n.kind);
    if n.kind.Null? {
      NullContent(n.kind);
      ShortLength();
      buf.PutElement(NULL_TYPE, [0], []);
    } else {
      var content := if n.kind.Oid? then n.bytes else LeafContent(n.kind);
      buf.PutElement(LeafType(n.kind), n.lengthBytes, content);
    }
  }

  method EncodeItems(
    n: Node, buf: ByteBuffer, ghost done: set<Node>, ghost nodes: set<Node>, ghost rank: map<Node, nat>)
    requires Acyclic(nodes, rank) && AllFrozen(done, nodes, rank) && n in done
    requires buf.Valid() && buf.position + |EncodeAll(TreesOf(n, |n.items|, nodes, rank))| <= buf.data.Length
    modifies buf`position, buf.data
    ensures buf.Valid() && buf.Written() == old(buf.Written()) + EncodeAll(TreesOf(n, |n.items|, nodes, rank))
    decreases rank[n], 0
  {
    hide Encode, EncodeAll, TreeOf, Frozen;
    assert EncodeAll([]) == [] by { EncodeNone(); }
    for i := 0 to |n.items|
      invariant buf.Valid()
      invariant buf.Written() == old(buf.Written()) + EncodeAll(TreesOf(n, i, nodes, rank))
    {
      EncodeAllAppend(TreesOf(n, i, nodes, rank), TreeOf(n.items[i], nodes, rank));
      ItemsPrefix(n, i + 1, |n.items|, nodes, rank);
      EncodeNode(n.items[i], buf, done, nodes, rank);
    }
  }

  lemma {:induction false} ItemsPrefix(n: Node, few: nat, many: nat, nodes: set<Node>, rank: map<Node, nat>)
    requires Acyclic(nodes, rank) && n in nodes && few <= many <= |n.items|
    ensures |EncodeAll(TreesOf(n, few, nodes, rank))| <= |EncodeAll(TreesOf(n, many, nodes, rank))|
    decreases many
  {
    hide Encode, EncodeAll, TreeOf;
    if few < many {
      EncodeAllAppend(TreesOf(n, many - 1, nodes, rank), TreeOf(n.items[many - 1], nodes, rank));
      ItemsPrefix(n, few, many - 1, nodes, rank);
    }
  }

  // What makes a node's encoding readable: type octets that fit its class, and octets that are complete.
  ghost predicate Readable(kind: Kind) {
    match kind
    case Tag(type_) => SingleOctet(type_) && MarksConstructed(type_)
    case Sequence(type_) => SingleOctet(type_) && MarksConstructed(type_)
    case Text(type_, _) => SingleOctet(type_) && !MarksConstructed(type_)
    case Bytes(encoded) => Decode(encoded).Some? && Decode(encoded).value.1 == []
    case _ => true
  }

  lemma {:induction false} AllWellFormedAppend(ts: seq<Tree>, t: Tree)
    ensures AllWellFormed(ts + [t]) <==> AllWellFormed(ts) && WellFormed(t)
  {
    hide WellFormed;
    if ts == [] {
      assert ([] + [t])[1..] == [] && ([] + [t])[0] == t;
    } else {
      AllWellFormedAppend(ts[1..], t);
      assert (ts + [t])[1..] == ts[1..] + [t];
    }
  }

  /** The tree of a node is well formed exactly if the node is readable and the trees of its items are. */
  lemma WellFormedIff(n: Node, nodes: set<Node>, rank: map<Node, nat>)
    requires Acyclic(nodes, rank) && n in nodes
    ensures WellFormed(TreeOf(n, nodes, rank)) <==>
      Readable(n.kind) && forall c | c in n.items :: WellFormed(TreeOf(c, nodes, rank))
  {
    if n.kind.Tag? {
      AllWellFormedAppend([], TreeOf(n.items[0], nodes, rank));
      assert [] + [TreeOf(n.items[0], nodes, rank)] == [TreeOf(n.items[0], nodes, rank)];
    } else if n.kind.Sequence? {
      ItemsWellFormedIff(n, |n.items|, nodes, rank);
    }
  }

  lemma {:induction false} ItemsWellFormedIff(n: Node, count: nat, nodes: set<Node>, rank: map<Node, nat>)
    requires Acyclic(nodes, rank) && n in nodes && count <= |n.items|
    ensures AllWellFormed(TreesOf(n, count, nodes, rank)) <==>
      forall i | 0 <= i < count :: WellFormed(TreeOf(n.items[i], nodes, rank))
  {
    hide WellFormed, TreeOf;
    if count > 0 {
      ItemsWellFormedIff(n, count - 1, nodes, rank);
      AllWellFormedAppend(TreesOf(n, count - 1, nodes, rank), TreeOf(n.items[count - 1], nodes, rank));
    } else {
      assert AllWellFormed([]);
    }
  }

  lemma {:induction false} ReadableTree(n: Node, nodes: set<Node>, rank: map<Node, nat>)
    requires Acyclic(nodes, rank) && n in nodes && forall m | m in nodes :: Readable(m.kind)
    ensures WellFormed(TreeOf(n, nodes, rank))
    decreases rank[n]
  {
    hide WellFormed, TreeOf, Readable;
    forall c | c in n.items
      ensures WellFormed(TreeOf(c, nodes, rank))
    {
      ReadableTree(c, nodes, rank);
    }
    WellFormedIff(n, nodes, rank);
  }

  /** What is written for readable nodes is read back as their tree, in front of anything. */
  lemma NodesReadBack(root: Node, nodes: set<Node>, rank: map<Node, nat>, suffix: seq<Octet>)
    requires Acyclic(nodes, rank) && root in nodes && forall m | m in nodes :: Readable(m.kind)
    requires |Encode(TreeOf(root, nodes, rank))| < INT32_LIMIT
    ensures WellFormed(TreeOf(root, nodes, rank))
    ensures Decode(Encode(TreeOf(root, nodes, rank)) + suffix) == Some((Resolve(TreeOf(root, nodes, rank)), suffix))
  {
    hide WellFormed, TreeOf, Readable, Encode, Decode;
    ReadableTree(root, nodes, rank);
    RoundTrip(TreeOf(root, nodes, rank), suffix);
  }

  // What a reader's tree says of a node, class by class: type octet and content.
  ghost predicate Shows(t: Tree, n: Node, nodes: set<Node>, rank: map<Node, nat>)
    requires Acyclic(nodes, rank) && n in nodes
    reads nodes`items
    decreases t
  {
    match n.kind
    case Integer(content) => t == Primitive(0x02, content)
    case BitString(bits) => t == Primitive(0x03, [0x00] + bits)
    case OctetString(octets) => t == Primitive(0x04, octets)
    case Null => t == Primitive(0x05, [])
    case Text(type_, text) => t == Primitive(type_, text)
    case Oid(ids) =>
      && t.Primitive? && t.tag == 0x06
      && (ids[0] <= 2 && (ids[0] < 2 ==> ids[1] < 40) && ids[0] * 40 + ids[1] < 0x80 ==>
            ReadOid(t.content) == Some(ids))
    case Bytes(encoded) => Decode(encoded) == Some((t, []))
    case Tag(type_) =>
      t.Constructed? && t.tag == type_ && |t.items| == 1 && Shows(t.items[0], n.items[0], nodes, rank)
    case Sequence(type_) =>
      && t.Constructed? && t.tag == type_ && |t.items| == |n.items|
      && forall i | 0 <= i < |n.items| :: Shows(t.items[i], n.items[i], nodes, rank)
  }

  lemma {:induction false} ResolvedAt(ts: seq<Tree>, i: nat)
    requires AllWellFormed(ts) && i < |ts|
    ensures WellFormed(ts[i]) && ResolveAll(ts)[i] == Resolve(ts[i])
  {
    hide WellFormed, Resolve;
    if i > 0 {
      ResolvedAt(ts[1..], i - 1);
    }
  }

  lemma {:induction false} TreesOfAt(n: Node, count: nat, i: nat, nodes: set<Node>, rank: map<Node, nat>)
    requires Acyclic(nodes, rank) && n in nodes && i < count <= |n.items|
    ensures TreesOf(n, count, nodes, rank)[i] == TreeOf(n.items[i], nodes, rank)
  {
    hide TreeOf;
    if i < count - 1 {
      TreesOfAt(n, count - 1, i, nodes, rank);
    }
  }

  /** The tree of a readable node says of the node, and of all below it, what a reader should see. */
  lemma {:induction false} TreeShows(n: Node, nodes: set<Node>, rank: map<Node, nat>)
    requires Acyclic(nodes, rank) && n in nodes && Expressible(nodes) && forall m | m in nodes :: Readable(m.kind)
    ensures WellFormed(TreeOf(n, nodes, rank)) && Shows(Resolve(TreeOf(n, nodes, rank)), n, nodes, rank)
    decreases rank[n]
  {
    ReadableTree(n, nodes, rank);
    if n.kind.Tag? {
      TagShows(n, nodes, rank);
    } else if n.kind.Sequence? {
      SequenceShows(n, nodes, rank);
    } else if n.kind.Oid? {
      OidShows(n, nodes, rank);
    } else if n.kind.Bytes? {
      assert Readable(n.kind);
    }
  }

  lemma {:induction false} TagShows(n: Node, nodes: set<Node>, rank: map<Node, nat>)
    requires Acyclic(nodes, rank) && n in nodes && Expressible(nodes) && forall m | m in nodes :: Readable(m.kind)
    requires n.kind.Tag? && WellFormed(TreeOf(n, nodes, rank))
    ensures Shows(Resolve(TreeOf(n, nodes, rank)), n, nodes, rank)
    decreases rank[n], 0
  {
    var item := TreeOf(n.items[0], nodes, rank);
    ResolvedAt([item], 0);
    TreeShows(n.items[0], nodes, rank);
  }

  lemma {:induction false} SequenceShows(n: Node, nodes: set<Node>, rank: map<Node, nat>)
    requires Acyclic(nodes, rank) && n in nodes && Expressible(nodes) && forall m | m in nodes :: Readable(m.kind)
    requires n.kind.Sequence? && WellFormed(TreeOf(n, nodes, rank))
    ensures Shows(Resolve(TreeOf(n, nodes, rank)), n, nodes, rank)
    decreases rank[n], 0
  {
    hide Readable, TreesOf;
    var ts := TreesOf(n, |n.items|, nodes, rank);
    forall i | 0 <= i < |n.items|
      ensures Shows(ResolveAll(ts)[i], n.items[i], nodes, rank)
    {
      hide TreeOf, WellFormed;
      TreesOfAt(n, |n.items|, i, nodes, rank);
      ResolvedAt(ts, i);
      ItemBelow(n, i, nodes, rank);
      TreeShows(n.items[i], nodes, rank);
    }
  }

  lemma OidShows(n: Node, nodes: set<Node>, rank: map<Node, nat>)
    requires Acyclic(nodes, rank) && n in nodes && Expressible(nodes) && n.kind.Oid?
    requires WellFormed(TreeOf(n, nodes, rank))
    ensures Shows(Resolve(TreeOf(n, nodes, rank)), n, nodes, rank)
  {
    hide OidContent;
    SmallArcs(n.kind.ids);
    OidRoundTrip(n.kind.ids);
  }

  // The octets of short leaves.
  lemma ShortLeaf(n: Node, nodes: set<Node>, rank: map<Node, nat>)
    requires Acyclic(nodes, rank) && n in nodes
    ensures var octets := Encode(TreeOf(n, nodes, rank));
      match n.kind
      case Null => octets == [0x05, 0x00]
      case Integer(c) => |c| < 0x80 ==> octets == [0x02, |c|] + c
      case OctetString(c) => |c| < 0x80 ==> octets == [0x04, |c|] + c
      case BitString(c) => |c| < 0x7F ==> octets == [0x03, |c| + 1, 0x00] + c
      case Text(type_, c) => |c| < 0x80 ==> octets == [type_, |c|] + c
      case _ => true
  {
  }

  // What has been written for readable nodes shows the nodes.
  lemma WrittenShows(root: Node, nodes: set<Node>, rank: map<Node, nat>, octets: seq<Octet>)
    requires Acyclic(nodes, rank) && root in nodes && Expressible(nodes) && forall m | m in nodes :: Readable(m.kind)
    requires octets == Encode(TreeOf(root, nodes, rank)) && |octets| < INT32_LIMIT
    ensures WellFormed(TreeOf(root, nodes, rank)) && Decode(octets) == Some((Resolve(TreeOf(root, nodes, rank)), []))
    ensures Shows(Decode(octets).value.0, root, nodes, rank)
  {
    hide Encode, TreeOf, WellFormed, Readable, Decode, Resolve, Shows;
    NodesReadBack(root, nodes, rank, []);
    TreeShows(root, nodes, rank);
    assert octets + [] == octets;
  }

  /** encodeASN1(): the buffer holds the encoding, with no gap and no overflow. */
  method EncodeAsn1(root: Node, ghost nodes: set<Node>, ghost rank: map<Node, nat>) returns (data: array<Octet>)
    requires Consistent(nodes, rank) && Expressible(nodes) && root in nodes
    requires |Encode(TreeOf(root, nodes, rank))| < INT32_LIMIT
    modifies nodes`lengthBytes, nodes`itemsLength, nodes`bytes, nodes`frozen
    ensures fresh(data) && data[..] == Encode(TreeOf(root, nodes, rank))
    ensures Consistent(nodes, rank)
    ensures (forall m | m in nodes :: Readable(m.kind)) ==>
      WellFormed(TreeOf(root, nodes, rank)) && Decode(data[..]) == Some((Resolve(TreeOf(root, nodes, rank)), []))
    ensures (forall m | m in nodes :: Readable(m.kind)) ==> ReadsAs(data[..], root, nodes, rank)
  {
    hide Encode, TreeOf, WellFormed, Readable, Decode, Resolve, Shows, CanShow;
    ghost var done := Freeze(root, {}, nodes, rank);
    LengthIsEncodedLength(root, done, nodes, rank);
    var buf := new ByteBuffer(Length(root, nodes, rank));
    EncodeNode(root, buf, done, nodes, rank);
    data := buf.data;
    assert data[..buf.position] == Encode(TreeOf(root, nodes, rank));
    if forall m | m in nodes :: Readable(m.kind) {
      WrittenShows(root, nodes, rank, data[..]);
    }
  }
}
