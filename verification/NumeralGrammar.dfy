/**
 The numbers of section 6 of RFC 8259, with their values, and how `strtod` takes them.
 */
module NumeralGrammar {
  import opened Bytes
  import opened Decimal

  datatype ExponentPart = NoExponent | ExponentPart(letter: nonzero, sign: Text, digits: Text)

  /** An empty fraction is one that is not written, without its point. */
  datatype Numeral = Numeral(negative: bool, whole: Text, fraction: Text, exponent: ExponentPart)

  predicate AllDigits(s: Text) {
    forall k :: 0 <= k < |s| ==> IsDigit(s[k])
  }

  predicate WellFormedExponent(e: ExponentPart) {
    e.ExponentPart? ==>
      && (e.letter == LOWER_E || e.letter == UPPER_E)
      && (e.sign == [] || e.sign == [PLUS] || e.sign == [MINUS])
      && e.digits != [] && AllDigits(e.digits)
  }

  predicate WellFormedNumeral(n: Numeral) {
    && n.whole != [] && AllDigits(n.whole) && (|n.whole| > 1 ==> n.whole[0] != ZERO)
    && AllDigits(n.fraction) && WellFormedExponent(n.exponent)
  }

  function ExponentText(e: ExponentPart): Text {
    if e.NoExponent? then [] else [e.letter] + e.sign + e.digits
  }

  function FractionText(fraction: Text): Text {
    if fraction == [] then [] else [DOT] + fraction
  }

  function SignText(negative: bool): Text {
    if negative then [MINUS] else []
  }

  function NumeralText(n: Numeral): Text {
    SignText(n.negative) + n.whole + (FractionText(n.fraction) + ExponentText(n.exponent))
  }

  function Number(digits: Text): nat
    requires AllDigits(digits)
  {
    DigitsValue(digits, 0, |digits|)
  }

  function ExponentValue(e: ExponentPart): int
    requires WellFormedExponent(e)
  {
    if e.NoExponent? then 0 else if e.sign == [MINUS] then 0 - Number(e.digits) else Number(e.digits)
  }

  /** All digits as one number, scaled by the exponent less the digits behind the point. */
  function NumeralValue(n: Numeral): real
    requires WellFormedNumeral(n)
  {
    var magnitude := Scale(Number(n.whole + n.fraction) as real, ExponentValue(n.exponent) - |n.fraction|);
    if n.negative then -magnitude else magnitude
  }

  // ---------------------------------------------------------------- strtod

  lemma {:induction false} DigitsAt(c: seq<byte>, p: nat, s: Text, n: nat)
    requires At(c, p, s) && AllDigits(s) && n <= |s|
    ensures forall k :: p <= k < p + n ==> IsDigit(c[k])
    ensures DigitsValue(c, p, p + n) == DigitsValue(s, 0, n)
  {
    forall k | p <= k < p + n ensures IsDigit(c[k]) {
      AtIndex(c, p, s, k - p);
    }
    if n == 0 {
    } else {
      DigitsAt(c, p, s, n - 1);
      AtIndex(c, p, s, n - 1);
    }
  }

  lemma {:induction false} NumberConcat(a: Text, b: Text)
    requires AllDigits(a) && AllDigits(b)
    ensures AllDigits(a + b) && Number(a + b) as real == Number(a) as real * Pow10(|b|) + Number(b) as real
    decreases |b|
  {
    if b == [] {
      assert a + b == a;
    } else {
      var b' := b[..|b| - 1];
      NumberConcat(a, b');
      assert a + b == (a + b') + [b[|b| - 1]];
      NumberSnoc(a + b', b[|b| - 1]);
      assert b == b' + [b[|b| - 1]];
      NumberSnoc(b', b[|b| - 1]);
      assert Pow10(|b|) == 10.0 * Pow10(|b'|);
    }
  }

  lemma NumberSnoc(s: Text, d: nonzero)
    requires AllDigits(s) && IsDigit(d)
    ensures AllDigits(s + [d]) && Number(s + [d]) == 10 * Number(s) + (d - 48)
  {
    assert At(s + [d], 0, s);
    DigitsAt(s + [d], 0, s, |s|);
  }

  /** A run of digits ends where the next piece begins. */
  lemma {:induction false} DigitsEndAt(c: seq<byte>, p: nat, s: Text)
    requires At(c, p, s) && AllDigits(s) && (p + |s| < |c| ==> !IsDigit(c[p + |s|]))
    ensures DigitsEnd(c, p) == p + |s| && DigitsValue(c, p, p + |s|) == Number(s)
  {
    DigitsAt(c, p, s, |s|);
    DigitsEndUnique(c, p, p + |s|);
  }

  /** A sign is skipped, and what is behind it is a digit. */
  lemma SignAt(c: seq<byte>, p: nat, sign: Text, digits: Text)
    requires sign == [] || sign == [PLUS] || sign == [MINUS]
    requires At(c, p, sign) && At(c, p + |sign|, digits) && digits != [] && AllDigits(digits)
    ensures p < |c| && SkipSign(c, p) == p + |sign| && (c[p] == MINUS <==> sign == [MINUS])
  {
    AtIndex(c, p + |sign|, digits, 0);
    if sign != [] {
      AtIndex(c, p, sign, 0);
    }
  }

  lemma ExponentAt(c: seq<byte>, p: nat, e: ExponentPart)
    requires WellFormedExponent(e) && At(c, p, ExponentText(e)) && p + |ExponentText(e)| == |c|
    ensures p <= |c| && Exponent(c, p) == (ExponentValue(e), |c|)
    ensures p < |c| ==> c[p] == LOWER_E || c[p] == UPPER_E
  {
    hide At, DigitsEnd, DigitsValue, SkipSign, AllDigits, Number, ExponentText;
    if e.NoExponent? {
      NoExponentText();
    } else {
      ExponentPieces(c, p, e);
      SignAt(c, p + 1, e.sign, e.digits);
      DigitsEndAt(c, p + 1 + |e.sign|, e.digits);
    }
  }

  lemma NoExponentText()
    ensures ExponentText(NoExponent) == []
  {
  }

  lemma ExponentPieces(c: seq<byte>, p: nat, e: ExponentPart)
    requires e.ExponentPart? && At(c, p, ExponentText(e)) && p + |ExponentText(e)| == |c|
    ensures p < |c| && c[p] == e.letter && At(c, p + 1, e.sign) && At(c, p + 1 + |e.sign|, e.digits)
    ensures p + 1 + |e.sign| + |e.digits| == |c|
  {
    hide At;
    AtConcat3(c, p, [e.letter], e.sign, e.digits);
    AtIndex(c, p, [e.letter], 0);
  }

  /** Where `strtod` finds the parts of the mantissa. */
  lemma MantissaAt(n: Numeral)
    requires WellFormedNumeral(n)
    ensures var s, i := NumeralText(n), |SignText(n.negative)|;
            var j := i + |n.whole|;
            && j <= |s| && SkipSign(s, 0) == i && (s[0] == MINUS <==> n.negative)
            && DigitsEnd(s, i) == j && DigitsValue(s, i, j) == Number(n.whole)
            && MantissaEnd(s, j) == j + |FractionText(n.fraction)|
            && (n.fraction != [] ==> DigitsValue(s, j + 1, j + 1 + |n.fraction|) == Number(n.fraction))
  {
    hide At, DigitsEnd, DigitsValue, SkipSign, ExponentText, ExponentValue, Exponent, NumeralText, Number,
         WellFormedExponent, AllDigits;
    var s, sign := NumeralText(n), SignText(n.negative);
    var j := |sign| + |n.whole|;
    Pieces(n);
    ExponentAt(s, j + |FractionText(n.fraction)|, n.exponent);
    SignAt(s, 0, sign, n.whole);
    FractionAt(s, j, n.fraction);
    hide FractionText;
    DigitsEndAt(s, |sign|, n.whole);
  }

  lemma FractionAt(c: seq<byte>, p: nat, fraction: Text)
    requires At(c, p, FractionText(fraction)) && AllDigits(fraction)
    requires var q := p + |FractionText(fraction)|; q < |c| ==> c[q] == LOWER_E || c[q] == UPPER_E
    ensures if fraction == [] then p < |c| ==> c[p] != DOT && !IsDigit(c[p])
            else
              && p < |c| && c[p] == DOT && DigitsEnd(c, p + 1) == p + 1 + |fraction|
              && DigitsValue(c, p + 1, p + 1 + |fraction|) == Number(fraction)
  {
    hide At, DigitsEnd, DigitsValue, AllDigits;
    if fraction != [] {
      AtConcat(c, p, [DOT], fraction);
      AtIndex(c, p, [DOT], 0);
      DigitsEndAt(c, p + 1, fraction);
    }
  }

  /** The number that is assembled from a whole part, a fraction of so many digits, and an exponent. */
  lemma AssembledFrom(s: seq<byte>, i: nat, j: nat, k: nat, whole: nat, fraction: nat, places: nat, e: int)
    requires i < j <= k <= |s|
    requires (forall n :: i <= n < j ==> IsDigit(s[n])) && (forall n :: j < n < k ==> IsDigit(s[n]))
    requires DigitsValue(s, i, j) == whole && Exponent(s, k) == (e, |s|)
    requires if places == 0 then k == j else k == j + 1 + places && DigitsValue(s, j + 1, k) == fraction
    ensures var digits := if places == 0 then whole as real else whole as real * Pow10(places) + fraction as real;
            var m := Scale(digits, e - places);
            Assembled(s, i, j, k) == (if s[0] == MINUS then -m else m, |s|)
  {
    hide DigitsValue, Exponent, Scale, Pow10;
  }

  /** `strtod` takes a numeral of the grammar as a whole, for its value. */
  lemma StrtodOfNumeral(n: Numeral)
    requires WellFormedNumeral(n)
    ensures Strtod(NumeralText(n)) == (NumeralValue(n), |NumeralText(n)|)
  {
    hide At, DigitsEnd, DigitsValue, MantissaEnd, Assembled, SkipSign, Pow10, Scale, ExponentText, ExponentValue,
         Exponent, Number, WellFormedExponent, NumeralText, SignText;
    var s, i := NumeralText(n), |SignText(n.negative)|;
    var j := i + |n.whole|;
    var k := j + |FractionText(n.fraction)|;
    Pieces(n);
    MantissaAt(n);
    NumberConcat(n.whole, n.fraction);
    assert n.fraction == [] ==> n.whole + n.fraction == n.whole;
    ExponentAt(s, k, n.exponent);
    AssembledFrom(s, i, j, k, Number(n.whole), Number(n.fraction), |n.fraction|, ExponentValue(n.exponent));
  }

  lemma Pieces(n: Numeral)
    ensures var s, sign := NumeralText(n), SignText(n.negative);
            var j := |sign| + |n.whole|;
            var k := j + |FractionText(n.fraction)|;
            && At(s, 0, sign) && At(s, |sign|, n.whole) && At(s, j, FractionText(n.fraction))
            && At(s, k, ExponentText(n.exponent)) && |s| == k + |ExponentText(n.exponent)|
  {
    hide At, ExponentText, FractionText, SignText;
    var s, sign, f, e := NumeralText(n), SignText(n.negative), FractionText(n.fraction), ExponentText(n.exponent);
    Whole(s);
    AtConcat3(s, 0, sign, n.whole, f + e);
    AtConcat(s, |sign| + |n.whole|, f, e);
  }

  lemma Whole(s: Text)
    ensures At(s, 0, s)
  {
  }

  /** The characters of a numeral are such as the number parser copies. */
  lemma NumeralCharacters(n: Numeral)
    requires WellFormedNumeral(n)
    ensures |NumeralText(n)| > 0 && forall k :: 0 <= k < |NumeralText(n)| ==> IsNumberChar(NumeralText(n)[k])
    ensures NumeralText(n)[0] == MINUS || IsDigit(NumeralText(n)[0])
  {
  }

  /** Of a long numeral `strtod` takes at least the first digit, and no more than it is given. */
  lemma StrtodOfPrefix(n: Numeral)
    requires WellFormedNumeral(n) && |NumeralText(n)| > 63
    ensures 0 < Strtod(NumeralText(n)[..63]).1 <= 63
  {
    var s, i := NumeralText(n)[..63], |SignText(n.negative)|;
    Pieces(n);
    AtIndex(NumeralText(n), i, n.whole, 0);
    hide NumeralText, MantissaEnd, Assembled, FractionText, ExponentText, At;
    assert IsDigit(s[i]);
    assert i == 1 ==> s[0] == MINUS by {
      SignAt(NumeralText(n), 0, SignText(n.negative), n.whole);
    }
    var j := DigitsEnd(s, i);
    AssembledWhole(s, i, j, MantissaEnd(s, j));
  }

  // ---------------------------------------------------------------- "%d"

  lemma {:induction false} NoLeadingZero(n: nat)
    ensures |Digits(n)| > 1 ==> Digits(n)[0] != ZERO
    ensures n > 0 ==> Digits(n)[0] != ZERO
  {
    if n < 10 {
    } else {
      NoLeadingZero(n / 10);
    }
  }

  /** The numeral that a printed integer is. */
  function NumeralOf(n: int): Numeral {
    Numeral(n < 0, Digits(if n < 0 then -n else n), [], NoExponent)
  }

  /** A printed integer is in the grammar, and its value is the integer. */
  lemma IntNumeral(n: int)
    ensures WellFormedNumeral(NumeralOf(n)) && NumeralText(NumeralOf(n)) == IntText(n)
            && NumeralValue(NumeralOf(n)) == n as real
  {
    hide Strtod, Digits, NumeralValue;
    NoLeadingZero(if n < 0 then -n else n);
    assert NumeralText(NumeralOf(n)) == IntText(n);
    StrtodOfNumeral(NumeralOf(n));
    StrtodUndoesIntText(n);
  }
}
