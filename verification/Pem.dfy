/** The textual encoding of keys and certificates: base64 in lines of 64 columns between markers. */
module Pem {
  import opened Wrappers
  import opened Digits
  import opened Base64

  function Begin(label_: string): string { "-----BEGIN " + label_ + "-----\n" }

  function End(label_: string): string { "-----END " + label_ + "-----\n" }

  // The first line of 64 columns, or what there is.
  function Width(encoded: string): (w: nat)
    ensures w <= |encoded| && (encoded != "" ==> 0 < w)
  {
    if |encoded| <= 64 then |encoded| else 64
  }

  function Lines(encoded: string): string {
    if encoded == "" then "" else encoded[..Width(encoded)] + "\n" + Lines(encoded[Width(encoded)..])
  }

  function PemOf(label_: string, value: seq<Octet>): string {
    Begin(label_) + Lines(EncodeSpec(value, Standard(), true)) + End(label_)
  }

  // Padded base64 between two markers, in lines of 64 columns.
  ghost predicate IsPem(pem: string, label_: string, value: seq<Octet>) {
    exists body ::
      && pem == "-----BEGIN " + label_ + "-----\n" + body + "-----END " + label_ + "-----\n"
      && IsBase64(DropNewlines(body), value, Standard(), true)
      && forall k | 0 <= k < |body| :: body[k] == '\n' <==> k % 65 == 64 || k == |body| - 1
  }

  lemma PemOfIsPem(label_: string, value: seq<Octet>)
    ensures IsPem(PemOf(label_, value), label_, value)
  {
    hide EncodeSpec, Lines, DropNewlines, IsBase64;
    var encoded := EncodeSpec(value, Standard(), true);
    var body := Lines(encoded);
    EncodedAs(value, Standard(), true);
    EncodedSingleLine(value);
    LinesJoined(encoded);
    forall k | 0 <= k < |body|
      ensures body[k] == '\n' <==> k % 65 == 64 || k == |body| - 1
    {
      LinesWrapped(encoded, k);
    }
    assert PemOf(label_, value) == "-----BEGIN " + label_ + "-----\n" + body + "-----END " + label_ + "-----\n";
  }

  method ToPem(label_: string, value: seq<Octet>) returns (pem: string)
    ensures pem == PemOf(label_, value)
    ensures IsPem(pem, label_, value)
  {
    hide EncodeSpec, Begin, End, IsPem;
    PemOfIsPem(label_, value);
    var encoded := Encode(value, Standard(), true);
    pem := Begin(label_);
    var i := 0;
    while i < |encoded|
      invariant 0 <= i
      invariant pem + Lines(encoded[if i < |encoded| then i else |encoded|..]) == Begin(label_) + Lines(encoded)
    {
      pem := AddLine(pem, encoded, i);
      i := i + 64;
    }
    pem := pem + End(label_);
  }

  // One round of the loop; substring() stops at the end of the text.
  method AddLine(pem: string, encoded: string, i: nat) returns (more: string)
    requires i < |encoded|
    ensures more + Lines(encoded[if i + 64 < |encoded| then i + 64 else |encoded|..]) == pem + Lines(encoded[i..])
  {
    var end := if i + 64 < |encoded| then i + 64 else |encoded|;
    more := pem + encoded[i..end] + "\n";
    var rest := encoded[i..];
    assert rest[..Width(rest)] == encoded[i..end] && rest[Width(rest)..] == encoded[end..];
  }

  function Keep(c: char): string {
    if c == '\n' then "" else [c]
  }

  function DropNewlines(s: string): string {
    if s == "" then "" else Keep(s[0]) + DropNewlines(s[1..])
  }

  // Drop the markers and the line ends, then decode.
  function ReadPem(label_: string, pem: string): Option<seq<Octet>> {
    var first := |Begin(label_)|;
    var last := |pem| - |End(label_)|;
    if last < first || pem[..first] != Begin(label_) || pem[last..] != End(label_) then None
    else Some(DecodeSpec(DropNewlines(pem[first..last])))
  }

  ghost predicate SingleLine(s: string) { '\n' !in s }

  lemma {:induction false} DropNewlinesConcat(a: string, b: string)
    ensures DropNewlines(a + b) == DropNewlines(a) + DropNewlines(b)
  {
    hide Keep;
    if a == "" {
      assert a + b == b;
    } else {
      var s := a + b;
      assert s[0] == a[0] && s[1..] == a[1..] + b;
      DropNewlinesConcat(a[1..], b);
      assert DropNewlines(s) == Keep(a[0]) + DropNewlines(s[1..]);
    }
  }

  lemma {:induction false} DropNothing(s: string)
    requires SingleLine(s)
    ensures DropNewlines(s) == s
  {
    if s != "" {
      DropNothing(s[1..]);
      assert s == [s[0]] + s[1..];
    }
  }

  lemma DropLineEnd(s: string)
    requires SingleLine(s)
    ensures DropNewlines(s + "\n") == s
  {
    DropNewlinesConcat(s, "\n");
    DropNothing(s);
    assert "\n"[1..] == "";
  }

  lemma {:induction false} LinesJoined(encoded: string)
    requires SingleLine(encoded)
    ensures DropNewlines(Lines(encoded)) == encoded
  {
    hide DropNewlines, Width;
    if encoded == "" {
      DropNothing("");
    } else {
      var w := Width(encoded);
      LinesJoined(encoded[w..]);
      DropLineEnd(encoded[..w]);
      DropNewlinesConcat(encoded[..w] + "\n", Lines(encoded[w..]));
      assert encoded == encoded[..w] + encoded[w..];
    }
  }

  /** Section 2 of RFC 7468: a line end after every 64th column and after the last character, and nowhere else. */
  lemma {:induction false} LinesWrapped(encoded: string, k: nat)
    requires SingleLine(encoded) && k < |Lines(encoded)|
    ensures Lines(encoded)[k] == '\n' <==> k % 65 == 64 || k == |Lines(encoded)| - 1
  {
    if |encoded| > 64 && k >= 65 {
      LinesWrapped(encoded[64..], k - 65);
    }
  }

  lemma EncodedSingleLine(value: seq<Octet>)
    ensures SingleLine(EncodeSpec(value, Standard(), true))
  {
    var q := Sextets(value);
    forall i | 0 <= i < |q|
      ensures Chars(q, Standard())[i] != '\n'
    {
      assert Chars(q, Standard())[i] == Standard()[q[i]] == StandardChar(q[i]);
    }
  }

  /** Reading back what was written gives the octets. */
  lemma PemRoundTrip(label_: string, value: seq<Octet>)
    ensures ReadPem(label_, PemOf(label_, value)) == Some(value)
  {
    hide EncodeSpec, DecodeSpec, Begin, End, Lines, DropNewlines;
    var encoded := EncodeSpec(value, Standard(), true);
    var pem := PemOf(label_, value);
    var first, last := |Begin(label_)|, |pem| - |End(label_)|;
    assert pem[..first] == Begin(label_) && pem[last..] == End(label_);
    assert pem[first..last] == Lines(encoded);
    EncodedSingleLine(value);
    LinesJoined(encoded);
    ClientAlphabets();
    ReversibleRoundTrip(value, Standard(), true);
  }
}
