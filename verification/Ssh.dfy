/** The SSH public key blob: string, mpint, mpint (section 6.6 of RFC 4253), base64 encoded. */
module Ssh {
  import opened Wrappers
  import opened Digits
  import opened Base64

  const KEY_TYPE: seq<Octet> := [115, 115, 104, 45, 114, 115, 97]  // "ssh-rsa"

  const UINT32_LIMIT := 0x1_0000_0000

  // DataView.setUint32, big-endian, which reduces its argument modulo 2^32.
  function Uint32(n: nat): (octets: seq<Octet>)
    ensures |octets| == 4
  {
    [n / 0x100_0000 % 256, n / 0x1_0000 % 256, n / 0x100 % 256, n % 256]
  }

  method PutUint32(view: array<Octet>, pos: nat, n: nat)
    requires pos + 4 <= view.Length
    modifies view
    ensures view[..pos + 4] == old(view[..pos]) + Uint32(n)
    ensures view[pos + 4..] == old(view[pos + 4..])
  {
    var octets := Uint32(n);
    view[pos], view[pos + 1], view[pos + 2], view[pos + 3] := octets[0], octets[1], octets[2], octets[3];
  }

  // A magnitude that starts with the top bit set gets a zero octet in front.
  function Signed(magnitude: seq<Octet>): seq<Octet> {
    if magnitude != [] && magnitude[0] >= 0x80 then [0] + magnitude else magnitude
  }

  lemma SignedForm(magnitude: seq<Octet>)
    ensures Signed(magnitude) == (if magnitude != [] && magnitude[0] >= 0x80 then [0] else []) + magnitude
  {
  }

  class MPInt {
    const octets: seq<Octet>
    const prefix: bool
    const length: nat

    constructor (arr: seq<Octet>)
      ensures octets == arr && Valid()
    {
      octets := arr;
      prefix := arr != [] && arr[0] >= 0x80;
      length := |arr| + if arr != [] && arr[0] >= 0x80 then 1 else 0;
    }

    predicate Valid() {
      prefix == (octets != [] && octets[0] >= 0x80) && length == |Signed(octets)|
    }

    // The prefix octet is skipped, not written: the buffer starts out zero from `pos` on.
    method Write(pos: nat, view: array<Octet>) returns (next: nat)
      requires Valid() && pos + 4 + length <= view.Length
      requires forall k | pos <= k < view.Length :: view[k] == 0
      modifies view
      ensures next == pos + 4 + length
      ensures view[..next] == old(view[..pos]) + (Uint32(length) + Signed(octets))
      ensures forall k | next <= k < view.Length :: view[k] == 0
    {
      hide Uint32, Signed;
      SignedForm(octets);
      PutUint32(view, pos, length);
      next := pos + 4;
      assert forall k | next <= k < view.Length :: view[k] == view[pos + 4..][k - next] == 0;
      if prefix {
        assert view[..next + 1] == view[..next] + [0];
        next := next + 1;
      }
      next := PutOctets(view, next, octets);
    }
  }

  method PutOctets(view: array<Octet>, pos: nat, octets: seq<Octet>) returns (next: nat)
    requires pos + |octets| <= view.Length
    modifies view
    ensures next == pos + |octets|
    ensures view[..next] == old(view[..pos]) + octets
    ensures view[pos + |octets|..] == old(view[pos + |octets|..])
  {
    next := pos;
    for i := 0 to |octets|
      invariant next == pos + i
      invariant view[..next] == old(view[..pos]) + octets[..i]
      invariant view[pos + i..] == old(view[pos + i..])
    {
      view[next] := octets[i];
      next := next + 1;
    }
  }

  // A length and that many octets: the `string` of section 5 of RFC 4251.
  function Field(content: seq<Octet>): seq<Octet> {
    Uint32(|content|) + content
  }

  function Blob(e: seq<Octet>, n: seq<Octet>): seq<Octet> {
    Field(KEY_TYPE) + Field(Signed(e)) + Field(Signed(n))
  }

  /** The buffer has exactly the size of the blob, and the blob fills it. */
  method KeyBlob(e: MPInt, n: MPInt) returns (view: array<Octet>)
    requires e.Valid() && n.Valid()
    ensures fresh(view) && view[..] == Blob(e.octets, n.octets)
  {
    hide Uint32, Signed;
    var length := 12 + |KEY_TYPE| + e.length + n.length;
    view := new Octet[length](_ => 0);
    var pos := PutKeyType(view);
    pos := e.Write(pos, view);
    pos := n.Write(pos, view);
    assert view[..] == view[..pos];
    assert Blob(e.octets, n.octets) == Field(KEY_TYPE) + Field(Signed(e.octets)) + Field(Signed(n.octets));
  }

  method PutKeyType(view: array<Octet>) returns (pos: nat)
    requires view.Length >= |Field(KEY_TYPE)|
    requires forall k | 0 <= k < view.Length :: view[k] == 0
    modifies view
    ensures pos == 11 && view[..pos] == Field(KEY_TYPE)
    ensures forall k | pos <= k < view.Length :: view[k] == 0
  {
    hide Uint32;
    PutUint32(view, 0, |KEY_TYPE|);
    assert forall k | 4 <= k < view.Length :: view[k] == view[4..][k - 4] == 0;
    pos := PutOctets(view, 4, KEY_TYPE);
    assert forall k | pos <= k < view.Length :: view[k] == view[pos..][k - pos] == 0;
  }

  /** exportSSHPublicKey: the exponent and the modulus come base64url encoded out of a JSON web key. */
  method ExportPublicKey(e64: string, n64: string) returns (line: string)
    ensures line == "ssh-rsa " + EncodeSpec(Blob(DecodeSpec(e64), DecodeSpec(n64)), Standard(), false) + "\n"
  {
    hide Blob, EncodeSpec, DecodeSpec;
    var eBytes := Decode(e64);
    var nBytes := Decode(n64);
    var e := new MPInt(eBytes[..]);
    var n := new MPInt(nBytes[..]);
    var view := KeyBlob(e, n);
    var encoded := Encode(view[..], Standard(), false);
    line := "ssh-rsa " + encoded + "\n";
  }

  function ReadField(s: seq<Octet>): Option<(seq<Octet>, seq<Octet>)> {
    if |s| < 4 then None
    else
      ValueNonNegative(s[..4]);
      var length := Value(s[..4], 256);
      if |s| < 4 + length then None else Some((s[4..4 + length], s[4 + length..]))
  }

  // Section 5 of RFC 4251: two's complement; a negative number is none here.
  function ReadMagnitude(s: seq<Octet>): Option<int> {
    if s != [] && s[0] >= 0x80 then None else Some(Value(s, 256))
  }

  datatype PublicKey = PublicKey(kind: seq<Octet>, e: seq<Octet>, n: seq<Octet>)

  function ReadBlob(s: seq<Octet>): Option<PublicKey> {
    match ReadField(s)
    case None => None
    case Some((kind, s1)) =>
      match ReadField(s1)
      case None => None
      case Some((e, s2)) =>
        match ReadField(s2)
        case None => None
        case Some((n, s3)) => if s3 == [] then Some(PublicKey(kind, e, n)) else None
  }

  lemma FieldRoundTrip(content: seq<Octet>, suffix: seq<Octet>)
    requires |content| < UINT32_LIMIT
    ensures ReadField(Field(content) + suffix) == Some((content, suffix))
  {
    hide Uint32;
    var s := Field(content) + suffix;
    var length := |content|;
    Uint32Value(length);
    assert s[..4] == Uint32(length);
    assert s[4..4 + length] == content && s[4 + length..] == suffix;
  }

  lemma Uint32Value(n: nat)
    requires n < UINT32_LIMIT
    ensures Value(Uint32(n), 256) == n
  {
    var s := Uint32(n);
    assert Value(s[..1], 256) == s[0] == n / 0x100_0000;
    assert Value(s[..2], 256) == n / 0x1_0000 by { assert s[..2][..1] == s[..1]; }
    assert Value(s[..3], 256) == n / 0x100 by { assert s[..3][..2] == s[..2]; }
  }

  /** Parsing the blob gives back the type and both numbers. */
  lemma BlobRoundTrip(e: seq<Octet>, n: seq<Octet>)
    requires |e| + 1 < UINT32_LIMIT && |n| + 1 < UINT32_LIMIT
    ensures ReadBlob(Blob(e, n)) == Some(PublicKey(KEY_TYPE, Signed(e), Signed(n)))
    ensures |KEY_TYPE| == 7 && forall i | 0 <= i < 7 :: KEY_TYPE[i] == "ssh-rsa"[i] as int
  {
    hide Field, ReadField;
    assert Blob(e, n) == Field(KEY_TYPE) + (Field(Signed(e)) + Field(Signed(n)));
    FieldRoundTrip(KEY_TYPE, Field(Signed(e)) + Field(Signed(n)));
    FieldRoundTrip(Signed(e), Field(Signed(n)));
    FieldRoundTrip(Signed(n), []);
    assert Field(Signed(n)) + [] == Field(Signed(n));
  }

  /** The signed form is never negative and stands for the magnitude. */
  lemma SignedValue(magnitude: seq<Octet>)
    ensures ReadMagnitude(Signed(magnitude)) == Some(Value(magnitude, 256))
  {
    if magnitude != [] && magnitude[0] >= 0x80 {
      LeadingZero(magnitude);
    }
  }

  lemma {:induction false} LeadingZero(digits: seq<Octet>)
    ensures Value([0] + digits, 256) == Value(digits, 256)
  {
    if digits == [] {
      assert ([0] + digits)[..0] == [];
    } else {
      LeadingZero(digits[..|digits| - 1]);
      assert ([0] + digits)[..|digits|] == [0] + digits[..|digits| - 1];
    }
  }

  // Section 5 of RFC 4251: no leading octet that only repeats the sign.
  predicate MinimalMPInt(s: seq<Octet>) {
    s != [] && s[0] == 0 ==> |s| >= 2 && s[1] >= 0x80
  }

  /** The mpint is minimal exactly for magnitudes without a superfluous leading zero octet. */
  lemma SignedMinimal(magnitude: seq<Octet>)
    ensures MinimalMPInt(Signed(magnitude)) <==>
      magnitude == [] || magnitude[0] != 0 || (|magnitude| >= 2 && magnitude[1] >= 0x80)
  {
  }

  /** The whole export: from the base64url text of e and n to a line whose payload parses to the same numbers. */
  lemma ExportRoundTrip(e: seq<Octet>, n: seq<Octet>)
    requires |e| + 1 < UINT32_LIMIT && |n| + 1 < UINT32_LIMIT
    ensures var exponent, modulus := DecodeSpec(EncodeSpec(e, Url(), false)), DecodeSpec(EncodeSpec(n, Url(), false));
      var payload := EncodeSpec(Blob(exponent, modulus), Standard(), false);
      ReadBlob(DecodeSpec(payload)) == Some(PublicKey(KEY_TYPE, Signed(e), Signed(n)))
  {
    hide Blob, ReadBlob, EncodeSpec, DecodeSpec, Signed;
    ClientAlphabets();
    ReversibleRoundTrip(e, Url(), false);
    ReversibleRoundTrip(n, Url(), false);
    ReversibleRoundTrip(Blob(e, n), Standard(), false);
    BlobRoundTrip(e, n);
  }
}
