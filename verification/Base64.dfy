/**
 The base64 codec of the web client. encode() takes any 64-character alphabet; decode() has one
 reverse table, which knows the standard and the URL alphabet at once.
 */
module Base64 {
  import opened Digits

  type Sextet = x: int | 0 <= x < 64

  // The digits of the standard alphabet: A-Z, a-z, 0-9, '+' and '/'.
  function StandardChar(i: Sextet): char {
    if i < 26 then (i + 65) as char
    else if i < 52 then (i + 71) as char
    else if i < 62 then (i - 4) as char
    else if i == 62 then '+'
    else '/'
  }

  function Standard(): Alphabet { seq(64, i requires 0 <= i < 64 => StandardChar(i)) }

  function Url(): Alphabet { Standard()[..62] + "-_" }

  function Base62(): Alphabet { Standard()[..62] + "AB" }

  type Alphabet = a: string | |a| == 64 witness seq(64, _ => 'A')

  // The reverse table. A character without an entry is undefined, which the bit operators read as 0.
  function Rev(c: char): Sextet {
    if 'A' <= c <= 'Z' then c as int - 65
    else if 'a' <= c <= 'z' then c as int - 71
    else if '0' <= c <= '9' then c as int + 4
    else if c == '+' || c == '-' then 62
    else if c == '/' || c == '_' then 63
    else 0
  }

  // Three octets as four sextets, and the two short ends, as the shifts and masks compute them.
  function Quad(a: Octet, b: Octet, c: Octet): (q: seq<Sextet>)
    ensures |q| == 4
  {
    [a / 4, (a * 16 + b / 16) % 64, (b * 4 + c / 64) % 64, c % 64]
  }

  function Sextets(b: seq<Octet>): seq<Sextet> {
    if |b| == 0 then []
    else if |b| == 1 then Quad(b[0], 0, 0)[..2]
    else if |b| == 2 then Quad(b[0], b[1], 0)[..3]
    else Quad(b[0], b[1], b[2]) + Sextets(b[3..])
  }

  function Chars(q: seq<Sextet>, map_: Alphabet): (s: string)
    ensures |s| == |q|
  {
    seq(|q|, i requires 0 <= i < |q| => map_[q[i]])
  }

  function Padding(length: nat): string {
    if length % 3 == 2 then "=" else if length % 3 == 1 then "==" else ""
  }

  function EncodeSpec(buf: seq<Octet>, map_: Alphabet, pad: bool): string {
    Chars(Sextets(buf), map_) + if pad then Padding(|buf|) else ""
  }

  // Bit n of an octet string, the most significant bit of each octet first, and zeros behind its end.
  function BitAt(buf: seq<Octet>, n: nat): (bit: nat)
    ensures bit < 2
  {
    OctetAt(buf, n / 8) / Weight(n % 8) % 2
  }

  function Weight(j: nat): (w: nat)
    ensures w > 0
  {
    if j == 0 then 128 else if j == 1 then 64 else if j == 2 then 32 else if j == 3 then 16
    else if j == 4 then 8 else if j == 5 then 4 else if j == 6 then 2 else 1
  }

  function OctetAt(buf: seq<Octet>, k: nat): Octet {
    if k < |buf| then buf[k] else 0
  }

  // Section 4 of RFC 4648: six bits at a time, from left to right.
  function SixBits(buf: seq<Octet>, i: nat): Sextet {
    32 * BitAt(buf, 6 * i) + 16 * BitAt(buf, 6 * i + 1) + 8 * BitAt(buf, 6 * i + 2) + 4 * BitAt(buf, 6 * i + 3)
      + 2 * BitAt(buf, 6 * i + 4) + BitAt(buf, 6 * i + 5)
  }

  // Each six bits of the input give the character of their number, an incomplete last six with zeros. With padding
  // the text has four characters for every three octets begun, the last ones '=' for the octets missing of the
  // last three; without it there is none.
  ghost predicate IsBase64(rv: string, buf: seq<Octet>, map_: Alphabet, pad: bool) {
    var full, missing := (4 * |buf| + 2) / 3, (3 - |buf| % 3) % 3;
    && |rv| == (if pad then 4 * ((|buf| + 2) / 3) else full)
    && (pad ==> full == |rv| - missing)
    && (forall i | 0 <= i < full :: rv[i] == map_[SixBits(buf, i)])
    && (forall i | full <= i < |rv| :: rv[i] == '=')
  }

  method Encode(buf: seq<Octet>, map_: Alphabet, pad: bool) returns (rv: string)
    ensures rv == EncodeSpec(buf, map_, pad)
    ensures IsBase64(rv, buf, map_, pad)
  {
    hide Quad, Sextets, SixBits, IsBase64;
    EncodedAs(buf, map_, pad);
    rv := "";
    var i := 0;
    while i < |buf| - 2
      invariant 0 <= i <= |buf| && i % 3 == 0
      invariant rv + Chars(Sextets(buf[i..]), map_) == Chars(Sextets(buf), map_)
    {
      SextetsFront(buf[i..]);
      var q := Quad(buf[i], buf[i + 1], buf[i + 2]);
      assert buf[i..][3..] == buf[i + 3..];
      CharsConcat(q, Sextets(buf[i + 3..]), map_);
      rv := rv + Chars(q, map_);
      i := i + 3;
    }
    SextetsTail(buf[i..]);
    if i == |buf| - 2 {
      rv := rv + Chars(Quad(buf[i], buf[i + 1], 0)[..3], map_);
      if pad {
        rv := rv + "=";
      }
    } else if i == |buf| - 1 {
      rv := rv + Chars(Quad(buf[i], 0, 0)[..2], map_);
      if pad {
        rv := rv + "==";
      }
    }
  }

  lemma SextetsFront(b: seq<Octet>)
    requires |b| >= 3
    ensures Sextets(b) == Quad(b[0], b[1], b[2]) + Sextets(b[3..])
  {
    hide Quad;
  }

  lemma SextetsTail(b: seq<Octet>)
    requires |b| < 3
    ensures Sextets(b) == if |b| == 0 then [] else if |b| == 1 then Quad(b[0], 0, 0)[..2] else Quad(b[0], b[1], 0)[..3]
  {
    hide Quad;
  }

  // An octet is the sum of its bits.
  lemma OctetBits(buf: seq<Octet>, k: nat)
    ensures OctetAt(buf, k) ==
      128 * BitAt(buf, 8 * k) + 64 * BitAt(buf, 8 * k + 1) + 32 * BitAt(buf, 8 * k + 2) + 16 * BitAt(buf, 8 * k + 3)
      + 8 * BitAt(buf, 8 * k + 4) + 4 * BitAt(buf, 8 * k + 5) + 2 * BitAt(buf, 8 * k + 6) + BitAt(buf, 8 * k + 7)
  {
    hide BitAt, OctetAt;
    BitsMean(buf, k);
    SumOfBits(OctetAt(buf, k));
  }

  lemma BitsMean(buf: seq<Octet>, k: nat)
    ensures var a := OctetAt(buf, k);
      && BitAt(buf, 8 * k) == a / 128 % 2 && BitAt(buf, 8 * k + 1) == a / 64 % 2
      && BitAt(buf, 8 * k + 2) == a / 32 % 2 && BitAt(buf, 8 * k + 3) == a / 16 % 2
      && BitAt(buf, 8 * k + 4) == a / 8 % 2 && BitAt(buf, 8 * k + 5) == a / 4 % 2
      && BitAt(buf, 8 * k + 6) == a / 2 % 2 && BitAt(buf, 8 * k + 7) == a / 1 % 2
  {
    hide BitAt, OctetAt;
    BitMeans(buf, k, 0);
    BitMeans(buf, k, 1);
    BitMeans(buf, k, 2);
    BitMeans(buf, k, 3);
    BitMeans(buf, k, 4);
    BitMeans(buf, k, 5);
    BitMeans(buf, k, 6);
    BitMeans(buf, k, 7);
  }

  lemma BitMeans(buf: seq<Octet>, k: nat, j: nat)
    requires j < 8
    ensures BitAt(buf, 8 * k + j) == OctetAt(buf, k) / Weight(j) % 2
  {
    hide OctetAt, Weight;
    assert (8 * k + j) / 8 == k && (8 * k + j) % 8 == j;
  }

  lemma SumOfBits(a: Octet)
    ensures a == 128 * (a / 128 % 2) + 64 * (a / 64 % 2) + 32 * (a / 32 % 2) + 16 * (a / 16 % 2) + 8 * (a / 8 % 2)
      + 4 * (a / 4 % 2) + 2 * (a / 2 % 2) + a / 1 % 2
  {
    LowBits(a);
    HighBits(a);
  }

  lemma LowBits(a: Octet)
    ensures a == 16 * (a / 16) + 8 * (a / 8 % 2) + 4 * (a / 4 % 2) + 2 * (a / 2 % 2) + a / 1 % 2
  {
    Halved(a, 1);
    Halved(a, 2);
    Halved(a, 4);
    Halved(a, 8);
  }

  lemma HighBits(a: Octet)
    ensures a / 16 == 8 * (a / 128 % 2) + 4 * (a / 64 % 2) + 2 * (a / 32 % 2) + a / 16 % 2
  {
    Halved(a, 16);
    Halved(a, 32);
    Halved(a, 64);
  }

  lemma Halved(a: int, width: int)
    requires width in {1, 2, 4, 8, 16, 32, 64} && a >= 0
    ensures a / width == 2 * (a / (2 * width)) + a / width % 2
  {
    assert a / width / 2 == a / (2 * width);
  }

  lemma FirstSixBits(buf: seq<Octet>)
    ensures [SixBits(buf, 0), SixBits(buf, 1), SixBits(buf, 2), SixBits(buf, 3)]
      == Quad(OctetAt(buf, 0), OctetAt(buf, 1), OctetAt(buf, 2))
  {
    hide BitAt, OctetAt, Quad, SixBits;
    OctetBits(buf, 0);
    OctetBits(buf, 1);
    OctetBits(buf, 2);
    SixBitsMean(buf);
    QuadOfBits(
      BitAt(buf, 6), BitAt(buf, 7), BitAt(buf, 8), BitAt(buf, 9), BitAt(buf, 10), BitAt(buf, 11), BitAt(buf, 12),
      BitAt(buf, 13), BitAt(buf, 14), BitAt(buf, 15), BitAt(buf, 16), BitAt(buf, 17), SixBits(buf, 0), SixBits(buf, 3));
  }

  // The twelve bits in the middle of three octets, between the first six and the last.
  lemma QuadOfBits(
    a1: nat, a0: nat, b7: nat, b6: nat, b5: nat, b4: nat, b3: nat, b2: nat, b1: nat, b0: nat, c7: nat, c6: nat,
    first: Sextet, last: Sextet)
    requires a1 < 2 && a0 < 2 && b7 < 2 && b6 < 2 && b5 < 2 && b4 < 2 && b3 < 2 && b2 < 2 && b1 < 2 && b0 < 2
    requires c7 < 2 && c6 < 2
    ensures Quad(
      first * 4 + 2 * a1 + a0,
      128 * b7 + 64 * b6 + 32 * b5 + 16 * b4 + 8 * b3 + 4 * b2 + 2 * b1 + b0, 128 * c7 + 64 * c6 + last)
      == [first, 32 * a1 + 16 * a0 + 8 * b7 + 4 * b6 + 2 * b5 + b4,
          32 * b3 + 16 * b2 + 8 * b1 + 4 * b0 + 2 * c7 + c6, last]
  {
    hide Quad;
    var bh, bl := 8 * b7 + 4 * b6 + 2 * b5 + b4, 8 * b3 + 4 * b2 + 2 * b1 + b0;
    Regroup(first, 2 * a1 + a0, bh, bl, 2 * c7 + c6, last);
    assert first * 4 + (2 * a1 + a0) == first * 4 + 2 * a1 + a0;
    assert bh * 16 + bl == 128 * b7 + 64 * b6 + 32 * b5 + 16 * b4 + 8 * b3 + 4 * b2 + 2 * b1 + b0;
    assert (2 * c7 + c6) * 64 + last == 128 * c7 + 64 * c6 + last;
  }

  lemma SixBitsMean(buf: seq<Octet>)
    ensures SixBits(buf, 0) == 32 * BitAt(buf, 0) + 16 * BitAt(buf, 1) + 8 * BitAt(buf, 2) + 4 * BitAt(buf, 3)
      + 2 * BitAt(buf, 4) + BitAt(buf, 5)
    ensures SixBits(buf, 1) == 32 * BitAt(buf, 6) + 16 * BitAt(buf, 7) + 8 * BitAt(buf, 8) + 4 * BitAt(buf, 9)
      + 2 * BitAt(buf, 10) + BitAt(buf, 11)
    ensures SixBits(buf, 2) == 32 * BitAt(buf, 12) + 16 * BitAt(buf, 13) + 8 * BitAt(buf, 14) + 4 * BitAt(buf, 15)
      + 2 * BitAt(buf, 16) + BitAt(buf, 17)
    ensures SixBits(buf, 3) == 32 * BitAt(buf, 18) + 16 * BitAt(buf, 19) + 8 * BitAt(buf, 20) + 4 * BitAt(buf, 21)
      + 2 * BitAt(buf, 22) + BitAt(buf, 23)
  {
    hide BitAt;
  }

  lemma BitShift(buf: seq<Octet>, n: nat)
    requires |buf| >= 3
    ensures BitAt(buf, n + 24) == BitAt(buf[3..], n)
  {
  }

  lemma SixBitsShift(buf: seq<Octet>, i: nat)
    requires |buf| >= 3
    ensures SixBits(buf, i + 4) == SixBits(buf[3..], i)
  {
    hide BitAt;
    BitShift(buf, 6 * i);
    BitShift(buf, 6 * i + 1);
    BitShift(buf, 6 * i + 2);
    BitShift(buf, 6 * i + 3);
    BitShift(buf, 6 * i + 4);
    BitShift(buf, 6 * i + 5);
  }

  /** The sextets are the bits of the octets, six at a time. */
  lemma {:induction false} SextetsAreBits(buf: seq<Octet>)
    ensures |Sextets(buf)| == (4 * |buf| + 2) / 3
    ensures forall i | 0 <= i < |Sextets(buf)| :: Sextets(buf)[i] == SixBits(buf, i)
  {
    hide Quad, SixBits;
    if buf != [] {
      FirstSixBits(buf);
      if |buf| >= 3 {
        SextetsAreBits(buf[3..]);
        forall i | 4 <= i < |Sextets(buf)|
          ensures Sextets(buf)[i] == SixBits(buf, i)
        {
          SixBitsShift(buf, i - 4);
        }
      }
    }
  }

  lemma EncodedAs(buf: seq<Octet>, map_: Alphabet, pad: bool)
    ensures IsBase64(EncodeSpec(buf, map_, pad), buf, map_, pad)
  {
    hide Sextets, SixBits, Padding;
    SextetsAreBits(buf);
    PaddedLength(|buf|);
    var full := Chars(Sextets(buf), map_);
    var rv := EncodeSpec(buf, map_, pad);
    assert forall i | 0 <= i < |full| :: rv[i] == full[i];
    forall i | |full| <= i < |rv|
      ensures rv[i] == '='
    {
      assert rv[i] == Padding(|buf|)[i - |full|] && Padding(|buf|)[i - |full|] in Padding(|buf|);
    }
  }

  lemma PaddedLength(n: nat)
    ensures (4 * n + 2) / 3 + |Padding(n)| == 4 * ((n + 2) / 3) && |Padding(n)| == (3 - n % 3) % 3
    ensures forall c | c in Padding(n) :: c == '='
  {
    var k, r := n / 3, n % 3;
    assert n == 3 * k + r;
    if r == 0 {
      assert (4 * n + 2) / 3 == 4 * k && (n + 2) / 3 == k;
    } else if r == 1 {
      assert (4 * n + 2) / 3 == 4 * k + 2 && (n + 2) / 3 == k + 1;
    } else {
      assert (4 * n + 2) / 3 == 4 * k + 3 && (n + 2) / 3 == k + 1;
    }
  }

  lemma CharsConcat(a: seq<Sextet>, b: seq<Sextet>, map_: Alphabet)
    ensures Chars(a + b, map_) == Chars(a, map_) + Chars(b, map_)
  {
  }

  // decode() first drops the run of '=' at the end.
  function Strip(s: string): (t: string)
    ensures |t| <= |s| && t == s[..|t|]
  {
    if s != "" && s[|s| - 1] == '=' then Strip(s[..|s| - 1]) else s
  }

  // Four sextets as three octets.
  function Triple(a: Sextet, b: Sextet, c: Sextet, d: Sextet): (t: seq<Octet>)
    ensures |t| == 3
  {
    [a * 4 + b / 16, b % 16 * 16 + c / 4, c % 4 * 64 + d]
  }

  // A single sextet left over at the end is ignored: neither branch after the loop takes it.
  function Octets(q: seq<Sextet>): (b: seq<Octet>)
    ensures |b| == |q| * 3 / 4
  {
    if |q| < 2 then []
    else if |q| == 2 then Triple(q[0], q[1], 0, 0)[..1]
    else if |q| == 3 then Triple(q[0], q[1], q[2], 0)[..2]
    else Triple(q[0], q[1], q[2], q[3]) + Octets(q[4..])
  }

  function Reverse(s: string): (q: seq<Sextet>)
    ensures |q| == |s|
  {
    seq(|s|, i requires 0 <= i < |s| => Rev(s[i]))
  }

  function DecodeSpec(s: string): seq<Octet> {
    Octets(Reverse(Strip(s)))
  }

  method StripPadding(s: string) returns (t: string)
    ensures t == Strip(s)
  {
    t := s;
    if s != "" && s[|s| - 1] == '=' {
      var end := |s| - 2;
      while end >= 0 && s[end] == '='
        invariant -1 <= end < |s| - 1
        invariant Strip(s[..end + 1]) == Strip(s)
      {
        assert s[..end + 1][..end] == s[..end];
        end := end - 1;
      }
      t := s[..end + 1];
    } else {
      assert s == s[..|s|];
    }
  }

  /** The output array has floor(0.75 * length) places, and every one of them is written. */
  method Decode(str: string) returns (arr: array<Octet>)
    ensures fresh(arr) && arr[..] == DecodeSpec(str)
    ensures arr.Length == |Strip(str)| * 3 / 4
  {
    hide Octets, Strip, Reverse;
    var s := StripPadding(str);
    ghost var q := Reverse(s);
    arr := new Octet[|s| * 3 / 4](_ => 0);
    var i, z := 0, 0;
    assert q[0..] == q;
    while i < |s| - 3
      invariant 0 <= i <= |s| && i % 4 == 0 && z == i / 4 * 3
      invariant arr[..z] + Octets(q[i..]) == Octets(q)
    {
      PutFour(arr, z, s, i);
      i, z := i + 4, z + 3;
    }
    PutRest(arr, z, s, i);
    assert arr[..] == arr[..arr.Length];
  }

  // One round of the loop.
  method PutFour(arr: array<Octet>, z: nat, s: string, i: nat)
    requires i + 4 <= |s| && z + 3 <= arr.Length
    modifies arr
    ensures arr[..z + 3] + Octets(Reverse(s)[i + 4..]) == old(arr[..z]) + Octets(Reverse(s)[i..])
  {
    hide Triple, Rev, Octets;
    ghost var q := Reverse(s);
    OctetsFront(q[i..]);
    assert q[i..][4..] == q[i + 4..];
    Put(arr, z, Triple(Rev(s[i]), Rev(s[i + 1]), Rev(s[i + 2]), Rev(s[i + 3])));
  }

  // What is left over: two or three characters give one or two octets.
  method PutRest(arr: array<Octet>, z: nat, s: string, i: nat)
    requires i <= |s| <= i + 3 && z + (|s| - i) * 3 / 4 == arr.Length
    modifies arr
    ensures arr[..arr.Length] == old(arr[..z]) + Octets(Reverse(s)[i..])
  {
    hide Triple, Rev, Octets;
    OctetsTail(Reverse(s)[i..]);
    if i == |s| - 2 {
      Put(arr, z, Triple(Rev(s[i]), Rev(s[i + 1]), 0, 0)[..1]);
    } else if i == |s| - 3 {
      Put(arr, z, Triple(Rev(s[i]), Rev(s[i + 1]), Rev(s[i + 2]), 0)[..2]);
    }
  }

  // `arr[z++] = x`, once for each octet of a group.
  method Put(arr: array<Octet>, z: nat, octets: seq<Octet>)
    requires z + |octets| <= arr.Length
    modifies arr
    ensures arr[..z + |octets|] == old(arr[..z]) + octets
  {
    for k := 0 to |octets|
      invariant arr[..z + k] == old(arr[..z]) + octets[..k]
    {
      arr[z + k] := octets[k];
    }
  }

  lemma OctetsFront(q: seq<Sextet>)
    requires |q| >= 4
    ensures Octets(q) == Triple(q[0], q[1], q[2], q[3]) + Octets(q[4..])
  {
    hide Triple;
  }

  lemma OctetsTail(q: seq<Sextet>)
    requires |q| < 4
    ensures Octets(q) == if |q| < 2 then [] else if |q| == 2 then Triple(q[0], q[1], 0, 0)[..1]
                         else Triple(q[0], q[1], q[2], 0)[..2]
  {
    hide Triple;
  }

  // The bit fields of three octets and four sextets, named so that both regroupings are sums.
  lemma Regroup(ah: int, al: int, bh: int, bl: int, ch: int, cl: int)
    requires 0 <= ah < 64 && 0 <= al < 4 && 0 <= bh < 16 && 0 <= bl < 16 && 0 <= ch < 4 && 0 <= cl < 64
    ensures Quad(ah * 4 + al, bh * 16 + bl, ch * 64 + cl) == [ah, al * 16 + bh, bl * 4 + ch, cl]
    ensures Triple(ah, al * 16 + bh, bl * 4 + ch, cl) == [ah * 4 + al, bh * 16 + bl, ch * 64 + cl]
  {
    Field(ah, al, 4);
    Field(bh, bl, 16);
    Field(ch, cl, 64);
    Field(al, bh, 16);
    Field(bl, ch, 4);
    Field(ah, al * 16 + bh, 64);
    Field(bh, bl * 4 + ch, 64);
  }

  lemma Field(high: int, low: int, width: int)
    requires width == 4 || width == 16 || width == 64
    requires 0 <= low < width
    ensures (high * width + low) / width == high && (high * width + low) % width == low
  {
  }

  lemma TripleOfQuad(a: Octet, b: Octet, c: Octet)
    ensures var q := Quad(a, b, c); Triple(q[0], q[1], q[2], q[3]) == [a, b, c]
  {
    hide Quad, Triple;
    Regroup(a / 4, a % 4, b / 16, b % 16, c / 64, c % 64);
  }

  lemma QuadOfTriple(a: Sextet, b: Sextet, c: Sextet, d: Sextet)
    ensures var t := Triple(a, b, c, d); Quad(t[0], t[1], t[2]) == [a, b, c, d]
  {
    hide Quad, Triple;
    Regroup(a, b / 16, b % 16, c / 4, c % 4, d);
  }

  lemma ShortQuads(a: Octet, b: Octet)
    ensures Quad(a, b, 0)[3] == 0
    ensures Quad(a, 0, 0)[2] == 0 && Quad(a, 0, 0)[3] == 0
  {
  }

  /** The octets come back from their sextets, whatever the length leaves over. */
  lemma {:induction false} SextetsRoundTrip(b: seq<Octet>)
    ensures Octets(Sextets(b)) == b
  {
    hide Quad, Triple;
    if |b| == 0 {
    } else if |b| == 1 {
      ShortQuads(b[0], 0);
      TripleOfQuad(b[0], 0, 0);
      assert b == [b[0], 0, 0][..1];
    } else if |b| == 2 {
      ShortQuads(b[0], b[1]);
      TripleOfQuad(b[0], b[1], 0);
      assert b == [b[0], b[1], 0][..2];
    } else {
      var q := Quad(b[0], b[1], b[2]);
      TripleOfQuad(b[0], b[1], b[2]);
      assert (q + Sextets(b[3..]))[4..] == Sextets(b[3..]);
      SextetsRoundTrip(b[3..]);
      assert b == [b[0], b[1], b[2]] + b[3..];
    }
  }

  // The reverse table undoes the alphabet, and no character of it is taken for padding.
  ghost predicate Reversible(map_: Alphabet) {
    forall i | 0 <= i < 64 :: Rev(map_[i]) == i && map_[i] != '='
  }

  lemma {:induction false} StripAppended(s: string, count: nat)
    requires s == "" || s[|s| - 1] != '='
    ensures Strip(s + seq(count, _ => '=')) == s
  {
    var t := s + seq(count, _ => '=');
    if count > 0 {
      assert t[..|t| - 1] == s + seq(count - 1, _ => '=');
      StripAppended(s, count - 1);
    } else {
      assert t == s;
    }
  }

  lemma ReversibleRoundTrip(b: seq<Octet>, map_: Alphabet, pad: bool)
    requires Reversible(map_)
    ensures DecodeSpec(EncodeSpec(b, map_, pad)) == b
  {
    hide Rev, Sextets, Octets, Strip;
    var s := Chars(Sextets(b), map_);
    var padding := if pad then Padding(|b|) else "";
    assert padding == seq(|padding|, _ => '=');
    StripAppended(s, |padding|);
    assert Reverse(s) == Sextets(b);
    SextetsRoundTrip(b);
  }

  // An octet string whose encoding is one character four times.
  function Repeated(i: Sextet): seq<Octet> {
    Triple(i, i, i, i)
  }

  lemma RepeatedSextets(i: Sextet)
    ensures Sextets(Repeated(i)) == [i, i, i, i]
  {
    hide Quad, Triple;
    assert Sextets(Repeated(i)[3..]) == [];
    QuadOfTriple(i, i, i, i);
  }

  lemma {:induction false} StripAll(count: nat)
    ensures Strip(seq(count, _ => '=')) == ""
  {
    if count > 0 {
      assert seq(count, _ => '=')[..count - 1] == seq(count - 1, _ => '=');
      StripAll(count - 1);
    }
  }

  lemma IrreversibleFails(map_: Alphabet, i: Sextet, pad: bool)
    requires Rev(map_[i]) != i || map_[i] == '='
    ensures DecodeSpec(EncodeSpec(Repeated(i), map_, pad)) != Repeated(i)
  {
    hide Sextets, Rev, Strip, Octets;
    RepeatedSextets(i);
    var c := map_[i];
    var s := EncodeSpec(Repeated(i), map_, pad);
    assert s == [c, c, c, c];
    if c == '=' {
      assert s == seq(4, _ => '=');
      StripAll(4);
    } else {
      NoStrip(s);
      FourOctets(Reverse(s));
    }
  }

  lemma NoStrip(s: string)
    requires s == "" || s[|s| - 1] != '='
    ensures Strip(s) == s
  {
  }

  lemma FourOctets(q: seq<Sextet>)
    requires |q| == 4
    ensures Octets(q) == Triple(q[0], q[1], q[2], q[3])
  {
    assert Octets(q[4..]) == [];
  }

  /** decode undoes encode for an alphabet exactly when the reverse table undoes that alphabet. */
  lemma RoundTripIffReversible(map_: Alphabet, pad: bool)
    ensures (forall b :: DecodeSpec(EncodeSpec(b, map_, pad)) == b) <==> Reversible(map_)
  {
    if Reversible(map_) {
      forall b
        ensures DecodeSpec(EncodeSpec(b, map_, pad)) == b
      {
        ReversibleRoundTrip(b, map_, pad);
      }
    } else {
      var i: Sextet :| Rev(map_[i]) != i || map_[i] == '=';
      IrreversibleFails(map_, i, pad);
    }
  }

  /** The alphabets of sections 4 and 5 of RFC 4648 are reversible; the 62-character one is not. */
  lemma ClientAlphabets()
    ensures forall i | 0 <= i < 26 :: Standard()[i] as int == 'A' as int + i == Url()[i] as int
    ensures forall i | 26 <= i < 52 :: Standard()[i] as int == 'a' as int + (i - 26) == Url()[i] as int
    ensures forall i | 52 <= i < 62 :: Standard()[i] as int == '0' as int + (i - 52) == Url()[i] as int
    ensures Standard()[62..] == "+/" && Url()[62..] == "-_" && Base62() == Standard()[..62] + "AB"
    ensures Reversible(Standard()) && Reversible(Url()) && !Reversible(Base62())
  {
    assert forall i | 0 <= i < 64 :: Standard()[i] == StandardChar(i);
    assert forall i | 0 <= i < 62 :: Url()[i] == StandardChar(i);
    assert Url()[62] == '-' && Url()[63] == '_' && Base62()[62] == 'A';
  }
}
