/** Positional numbers: the digit loop and the length octets of the web client's ASN.1 writer. */
module Digits {
  import opened Wrappers

  type Octet = x: int | 0 <= x < 256

  const INT32_LIMIT := 0x8000_0000

  // The operand conversion of JavaScript's bitwise operators.
  function ToInt32(value: int): int {
    var low := value % 0x1_0000_0000;
    if low < INT32_LIMIT then low else low - 0x1_0000_0000
  }

  /** It is the number of 32 bits with a sign that is the same modulo 2^32. */
  lemma Int32Reading(value: int)
    ensures -INT32_LIMIT <= ToInt32(value) < INT32_LIMIT && INT32_LIMIT == 0x8000_0000
    ensures (value - ToInt32(value)) % 0x1_0000_0000 == 0
  {
  }

  // One more than the mask built from `bits`; the callers pass 7 and 8 only.
  function Radix(bits: nat): (radix: nat)
    requires bits == 7 || bits == 8
  {
    if bits == 7 then 128 else 256
  }

  // `value & mask`: on two's complement the low bits are the remainder, whatever the sign.
  function LowBits(value: int, bits: nat): (digit: Octet)
    requires bits == 7 || bits == 8
  {
    ToInt32(value) % Radix(bits)
  }

  // `value >> bits`: the arithmetic shift rounds down, as `/` does for a positive divisor.
  function ShiftRight(value: int, bits: nat): int
    requires bits == 7 || bits == 8
  {
    ToInt32(value) / Radix(bits)
  }

  // The number that big-endian digits stand for.
  function Value(digits: seq<int>, radix: nat): int {
    if digits == [] then 0
    else Value(digits[..|digits| - 1], radix) * radix + digits[|digits| - 1]
  }

  function Power(radix: nat, exponent: nat): nat {
    if exponent == 0 then 1 else radix * Power(radix, exponent - 1)
  }

  ghost predicate AreDigits(digits: seq<int>, radix: nat) {
    forall i | 0 <= i < |digits| :: 0 <= digits[i] < radix
  }

  // The positional digits of n, most significant first; zero has the one digit 0.
  function Positional(n: nat, radix: nat): (digits: seq<Octet>)
    requires 2 <= radix <= 256
    decreases n
  {
    if n < radix then [n]
    else
      DivisionShrinks(n, radix);
      Positional(n / radix, radix) + [n % radix]
  }

  lemma DivisionShrinks(n: nat, radix: nat)
    requires 2 <= radix <= n
    ensures 0 < n / radix < n
    ensures n / radix * radix + n % radix == n
  {
  }

  /** The digits stand for n, each fits the radix, and there is no leading zero except for zero itself. */
  lemma {:induction false} PositionalCorrect(n: nat, radix: nat)
    requires 2 <= radix <= 256
    ensures var digits := Positional(n, radix);
      digits != [] && AreDigits(digits, radix) && Value(digits, radix) == n && (n != 0 ==> digits[0] != 0)
  {
    if n >= radix {
      DivisionShrinks(n, radix);
      PositionalCorrect(n / radix, radix);
      var most := Positional(n / radix, radix);
      var digits := Positional(n, radix);
      assert digits[..|digits| - 1] == most;
    } else {
      assert Value([], radix) == 0;
    }
  }

  // One round of the digit loop: the last digit moves from the number to the output.
  lemma PeelDigit(value: int, bits: nat, digits: seq<Octet>)
    requires bits == 7 || bits == 8
    requires ToInt32(value) >= 0
    ensures Positional(ToInt32(value), Radix(bits)) + digits
         == (if ShiftRight(value, bits) == 0 then [] else Positional(ShiftRight(value, bits), Radix(bits)))
            + ([LowBits(value, bits)] + digits)
    ensures 0 <= ShiftRight(value, bits) <= ToInt32(value)
    ensures ToInt32(value) > 0 ==> ShiftRight(value, bits) < ToInt32(value)
    ensures ToInt32(ShiftRight(value, bits)) == ShiftRight(value, bits)
  {
    if bits == 7 {
    } else {
    }
  }

  method IntToBits(value: int, bits: nat) returns (digits: seq<Octet>)
    requires bits == 7 || bits == 8
    requires ToInt32(value) >= 0  // the loop ends for no other value: DigitLoopEnds
    ensures digits == Positional(ToInt32(value), Radix(bits))
  {
    if value == 0 {
      return [0];
    }
    digits := [];
    var rest := value;
    while rest != 0
      invariant digits == [] ==> rest == value
      invariant digits != [] ==> rest == ToInt32(rest)
      invariant 0 <= ToInt32(rest)
      invariant (if rest == 0 then [] else Positional(ToInt32(rest), Radix(bits))) + digits
             == Positional(ToInt32(value), Radix(bits))
      decreases digits == [], ToInt32(rest)
    {
      PeelDigit(rest, bits, digits);
      digits := [LowBits(rest, bits)] + digits;
      rest := ShiftRight(rest, bits);
    }
  }

  // What the loop variable holds after so many rounds.
  function AfterRounds(value: int, bits: nat, rounds: nat): int
    requires bits == 7 || bits == 8
  {
    if rounds == 0 then value else ShiftRight(AfterRounds(value, bits, rounds - 1), bits)
  }

  lemma ShiftKeepsSign(value: int, bits: nat)
    requires bits == 7 || bits == 8
    ensures ToInt32(value) < 0 ==> ToInt32(ShiftRight(value, bits)) == ShiftRight(value, bits) < 0
    ensures ToInt32(value) >= 0 ==> ToInt32(ShiftRight(value, bits)) == ShiftRight(value, bits) >= 0
    ensures ToInt32(value) > 0 ==> ShiftRight(value, bits) < ToInt32(value)
    ensures ToInt32(value) == 0 ==> ShiftRight(value, bits) == 0
  {
    if bits == 7 {
    } else {
    }
  }

  lemma {:induction false} NegativeNeverEnds(value: int, bits: nat, rounds: nat)
    requires bits == 7 || bits == 8
    requires ToInt32(value) < 0
    ensures AfterRounds(value, bits, rounds) != 0 && ToInt32(AfterRounds(value, bits, rounds)) < 0
  {
    if rounds > 0 {
      NegativeNeverEnds(value, bits, rounds - 1);
      ShiftKeepsSign(AfterRounds(value, bits, rounds - 1), bits);
    }
  }

  lemma {:induction false} NonNegativeShrinks(value: int, bits: nat, rounds: nat)
    requires bits == 7 || bits == 8
    requires ToInt32(value) >= 0 && rounds > 0
    ensures 0 <= AfterRounds(value, bits, rounds)
    ensures AfterRounds(value, bits, rounds) + rounds <= ToInt32(value) || AfterRounds(value, bits, rounds) == 0
  {
    if rounds > 1 {
      NonNegativeShrinks(value, bits, rounds - 1);
    }
    ShiftKeepsSign(AfterRounds(value, bits, rounds - 1), bits);
  }

  /** The digit loop ends exactly for the numbers whose 32-bit reading is not negative. */
  lemma DigitLoopEnds(value: int, bits: nat)
    requires bits == 7 || bits == 8
    ensures (exists rounds: nat :: AfterRounds(value, bits, rounds) == 0) <==> ToInt32(value) >= 0
  {
    if ToInt32(value) >= 0 {
      var rounds := ToInt32(value) + 1;
      NonNegativeShrinks(value, bits, rounds);
      assert AfterRounds(value, bits, rounds) == 0;
    } else {
      forall rounds: nat
        ensures AfterRounds(value, bits, rounds) != 0
      {
        NegativeNeverEnds(value, bits, rounds);
      }
    }
  }

  /** Where the loop ends, its digits stand for the number given exactly below 2^31. */
  lemma DigitsFaithfulBelowLimit(value: nat, bits: nat)
    requires bits == 7 || bits == 8
    requires ToInt32(value) >= 0
    ensures Value(Positional(ToInt32(value), Radix(bits)), Radix(bits)) == value <==> value < INT32_LIMIT
  {
    PositionalCorrect(ToInt32(value), Radix(bits));
  }

  lemma MulMonotone(a: int, b: int, radix: nat)
    requires a <= b
    ensures a * radix <= b * radix
  {
  }

  lemma MulStrict(a: int, b: int, radix: nat)
    requires a < b
    ensures a * radix + radix <= b * radix
  {
    MulMonotone(a + 1, b, radix);
    assert (a + 1) * radix == a * radix + radix;
  }

  lemma AppendDigitBounded(v: int, digit: int, limit: int, radix: nat)
    requires 0 <= v < limit && 0 <= digit < radix
    ensures 0 <= v * radix + digit < radix * limit
  {
    MulMonotone(0, v, radix);
    MulStrict(v, limit, radix);
  }

  lemma {:induction false} ValueBounded(digits: seq<int>, radix: nat)
    requires radix >= 2 && AreDigits(digits, radix)
    ensures 0 <= Value(digits, radix) < Power(radix, |digits|)
  {
    if digits != [] {
      var most := digits[..|digits| - 1];
      ValueBounded(most, radix);
      AppendDigitBounded(Value(most, radix), digits[|most|], Power(radix, |most|), radix);
    }
  }

  lemma {:induction false} ValueAtLeast(digits: seq<int>, radix: nat)
    requires radix >= 2 && AreDigits(digits, radix)
    requires digits != [] && digits[0] != 0
    ensures Value(digits, radix) >= Power(radix, |digits| - 1)
  {
    var most := digits[..|digits| - 1];
    if most == [] {
      assert Value(most, radix) == 0;
    } else {
      ValueAtLeast(most, radix);
      AppendDigitAtLeast(Value(most, radix), digits[|most|], Power(radix, |most| - 1), radix);
    }
  }

  lemma AppendDigitAtLeast(v: int, digit: int, limit: int, radix: nat)
    requires v >= limit && digit >= 0
    ensures v * radix + digit >= radix * limit
  {
    MulMonotone(limit, v, radix);
  }

  lemma {:induction false} PowerMonotone(radix: nat, small: nat, large: nat)
    requires radix >= 2 && small <= large
    ensures 1 <= Power(radix, small) <= Power(radix, large)
    decreases large
  {
    if small < large {
      PowerMonotone(radix, small, large - 1);
      assert radix * Power(radix, large - 1) >= Power(radix, large - 1);
    } else if small > 0 {
      PowerMonotone(radix, small - 1, large - 1);
    }
  }

  /** Digit strings of one length that stand for the same number are equal. */
  lemma {:induction false} ValueInjective(a: seq<int>, b: seq<int>, radix: nat)
    requires radix >= 2 && AreDigits(a, radix) && AreDigits(b, radix)
    requires |a| == |b| && Value(a, radix) == Value(b, radix)
    ensures a == b
  {
    if a != [] {
      var n := |a| - 1;
      QuotientUnique(Value(a[..n], radix), a[n], Value(b[..n], radix), b[n], radix);
      ValueInjective(a[..n], b[..n], radix);
      assert a == a[..n] + [a[n]] && b == b[..n] + [b[n]];
    }
  }

  lemma QuotientUnique(q: int, r: int, q': int, r': int, radix: nat)
    requires radix >= 2 && 0 <= r < radix && 0 <= r' < radix
    requires q * radix + r == q' * radix + r'
    ensures q == q' && r == r'
  {
    if q < q' {
      MulStrict(q, q', radix);
    } else if q' < q {
      MulStrict(q', q, radix);
    }
  }

  /** No digit string for n is shorter than Positional(n), and none of the same length differs from it. */
  lemma PositionalMinimal(n: nat, radix: nat, other: seq<int>)
    requires 2 <= radix <= 256
    requires other != [] && AreDigits(other, radix) && Value(other, radix) == n
    ensures |Positional(n, radix)| <= |other|
    ensures |Positional(n, radix)| == |other| ==> Positional(n, radix) == other
  {
    PositionalCorrect(n, radix);
    var digits := Positional(n, radix);
    if |other| < |digits| {
      ValueAtLeast(digits, radix);
      ValueBounded(other, radix);
      PowerMonotone(radix, |other|, |digits| - 1);
    } else if |other| == |digits| {
      ValueInjective(digits, other, radix);
    }
  }

  // The octets of encodeLength. The count octet is stored modulo 256, as a Uint8Array stores it.
  function LengthOctets(length: nat): (octets: seq<Octet>) {
    if length <= 0x7F then [length]
    else
      var digits := Positional(length, 256);
      [(0x80 + |digits|) % 256] + digits
  }

  method EncodeLength(length: nat) returns (octets: seq<Octet>)
    requires length < INT32_LIMIT
    ensures octets == LengthOctets(length)
  {
    if length <= 0x7F {
      octets := [length];
    } else {
      var digits := IntToBits(length, 8);
      octets := [(0x80 + |digits|) % 256] + digits;
    }
  }

  // Section 8.1.3 of X.690: definite lengths, short or long; None for the indefinite and the reserved first octet.
  function ReadLength(s: seq<Octet>): (r: Option<(nat, seq<Octet>)>)
    ensures r.Some? ==> |r.value.1| < |s|
  {
    if s == [] then None
    else if s[0] < 0x80 then Some((s[0], s[1..]))
    else
      var count := s[0] - 0x80;
      if count == 0 || count == 127 || |s| < 1 + count then None
      else
        ValueNonNegative(s[1..1 + count]);
        Some((Value(s[1..1 + count], 256), s[1 + count..]))
  }

  lemma {:induction false} ValueNonNegative(digits: seq<Octet>)
    ensures Value(digits, 256) >= 0
  {
    if digits != [] {
      ValueNonNegative(digits[..|digits| - 1]);
    }
  }

  lemma LengthDigitsShort(length: nat)
    requires length < INT32_LIMIT
    ensures |Positional(length, 256)| <= 4
  {
    assert length / 256 / 256 / 256 < 256;
    assert |Positional(length / 256 / 256 / 256, 256)| == 1;
    assert |Positional(length / 256 / 256, 256)| <= 2;
    assert |Positional(length / 256, 256)| <= 3;
  }

  /** Reading the length octets gives the length back and leaves what follows untouched. */
  lemma LengthRoundTrip(length: nat, suffix: seq<Octet>)
    requires length < INT32_LIMIT
    ensures ReadLength(LengthOctets(length) + suffix) == Some((length, suffix))
  {
    var octets := LengthOctets(length);
    var s := octets + suffix;
    if length > 0x7F {
      LengthDigitsShort(length);
      PositionalCorrect(length, 256);
      var digits := Positional(length, 256);
      assert s[1..1 + |digits|] == digits;
      assert s[1 + |digits|..] == suffix;
    } else {
      assert s[1..] == suffix;
    }
  }

  lemma PositionalLengthMonotone(small: nat, large: nat)
    requires small <= large
    ensures |LengthOctets(small)| <= |LengthOctets(large)|
  {
    var few, many := Positional(large, 256), Positional(small, 256);
    if |many| > |few| && small > 0 {
      assert small >= Power(256, |many| - 1) by { PositionalCorrect(small, 256); ValueAtLeast(many, 256); }
      assert large < Power(256, |few|) by { PositionalCorrect(large, 256); ValueBounded(few, 256); }
      PowerMonotone(256, |few|, |many| - 1);
    }
  }

  /** Section 10.1 of X.690: no other definite form of a length is as short. */
  lemma LengthMinimal(length: nat, other: seq<Octet>)
    requires ReadLength(other) == Some((length, []))
    ensures |LengthOctets(length)| <= |other|
    ensures |LengthOctets(length)| == |other| ==> LengthOctets(length) == other
  {
    if other[0] < 0x80 {
      assert other == [other[0]] + other[1..];
    } else {
      var count := other[0] - 0x80;
      LongFormMinimal(length, count, other[1..1 + count]);
      assert other[1 + count..] == [];
      assert other == [other[0]] + other[1..1 + count];
    }
  }

  lemma LongFormMinimal(length: nat, count: nat, digits: seq<Octet>)
    requires 0 < count == |digits| && count < 127 && Value(digits, 256) == length
    ensures |LengthOctets(length)| <= 1 + count
    ensures |LengthOctets(length)| == 1 + count ==> LengthOctets(length) == [0x80 + count] + digits
  {
    var own := Positional(length, 256);
    assert |own| <= count && (|own| == count ==> own == digits) by { PositionalMinimal(length, 256, digits); }
    if length > 0x7F {
      assert LengthOctets(length) == [0x80 + |own|] + own;
    }
  }

  // The octets that were read, apart from what follows them.
  lemma ReadLengthSplit(s: seq<Octet>) returns (octets: seq<Octet>)
    requires ReadLength(s).Some?
    ensures s == octets + ReadLength(s).value.1
    ensures ReadLength(octets) == Some((ReadLength(s).value.0, []))
  {
    var count := if s[0] < 0x80 then 0 else s[0] - 0x80;
    octets := s[..1 + count];
    assert octets[1..1 + count] == s[1..1 + count];
  }

  // The length of `length.toString(16)`.
  function HexDigits(n: nat): nat {
    if n < 16 then 1 else 1 + HexDigits(n / 16)
  }

  // lengthSize, which rounds a count of hexadecimal digits up to whole octets.
  function LengthSize(length: nat): nat {
    if length <= 0x7F then 1 else 1 + (HexDigits(length) + 1) / 2
  }

  lemma {:induction false} HexPairsAreOctets(n: nat)
    ensures (HexDigits(n) + 1) / 2 == |Positional(n, 256)|
  {
    if n >= 256 {
      HexPairsAreOctets(n / 256);
      assert n / 16 / 16 == n / 256;
      assert HexDigits(n) == 2 + HexDigits(n / 256);
    }
  }

  /** The hexadecimal shortcut predicts the number of length octets. */
  lemma LengthSizeAgrees(length: nat)
    ensures LengthSize(length) == |LengthOctets(length)|
  {
    HexPairsAreOctets(length);
  }

  /** Octet by octet: the short form, and the long form of lengths of one and of two octets. */
  lemma KnownLengths(length: nat)
    ensures length < 0x80 ==> LengthOctets(length) == [length]
    ensures 0x80 <= length < 0x100 ==> LengthOctets(length) == [0x81, length]
    ensures 0x100 <= length < 0x1_0000 ==> LengthOctets(length) == [0x82, length / 0x100, length % 0x100]
  {
    if 0x100 <= length < 0x1_0000 {
      assert Positional(length / 0x100, 256) == [length / 0x100];
    }
  }
}
