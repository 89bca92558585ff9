/**
 Numerals as decimal fractions: what is read times a power of ten, or over one, in whole numbers only.
 */
module DecimalValue {
  import opened Bytes
  import opened Decimal
  import opened NumeralGrammar
  import opened ParseSpec
  import JsonTree
  import GrammarParse

  lemma {:induction false} PowersAgree(k: nat)
    ensures Pow10(k) == Power(k) as real && Power(k) > 0
  {
    if k == 0 {
    } else {
      PowersAgree(k - 1);
    }
  }

  lemma {:induction false} NoDigits()
    ensures AllDigits([]) && Number([]) == 0
  {
  }

  lemma PowerSteps(k: nat, d: int)
    ensures Power(0) == 1 && d * Power(k + 1) == 10 * (d * Power(k))
  {
  }

  /** Digits read from the left: each counts its power of ten. */
  lemma {:induction false} DigitsFromTheLeft(s: Text)
    requires AllDigits(s) && s != []
    ensures AllDigits(s[1..]) && Number(s) == (s[0] - 48) * Power(|s| - 1) + Number(s[1..])
    decreases |s|
  {
    hide Number, Power;
    var n := |s| - 1;
    if n == 0 {
      NoDigits();
      PowerSteps(0, 0);
      assert s[1..] == [];
      NumberSnoc([], s[0]);
      assert [] + [s[0]] == s;
    } else {
      var t := s[..n];
      DigitsFromTheLeft(t);
      NumberSnoc(t, s[n]);
      NumberSnoc(t[1..], s[n]);
      PowerSteps(n - 1, s[0] as int - 48);
      assert t + [s[n]] == s && t[1..] + [s[n]] == s[1..];
    }
  }

  /** The power of ten that the digits of a numeral, taken as one number, are to be multiplied with. */
  function PlacesOf(n: Numeral): int
    requires WellFormedNumeral(n)
  {
    var e := n.exponent;
    (if e.NoExponent? then 0 else if e.sign == [MINUS] then 0 - Number(e.digits) else Number(e.digits)) - |n.fraction|
  }

  /** What is read of a numeral, made whole by its power of ten, is the number that its digits write. */
  lemma {:induction false} ReadsDecimal(n: Numeral)
    requires WellFormedNumeral(n)
    ensures AllDigits(n.whole + n.fraction)
    ensures var (value, length) := Strtod(NumeralText(n));
            var magnitude := if n.negative then 0.0 - value else value;
            var digits, e := Number(n.whole + n.fraction), PlacesOf(n);
            && length == |NumeralText(n)|
            && (e < 0 ==> magnitude * (Power(-e) as real) == digits as real)
            && (e >= 0 ==> magnitude == digits as real * (Power(e) as real))
  {
    hide Number, Strtod, NumeralText, Power, Pow10;
    NumberConcat(n.whole, n.fraction);
    StrtodOfNumeral(n);
    var e := PlacesOf(n);
    PowersAgree(if e < 0 then -e else e);
  }

  // ---------------------------------------------------------------- documents

  /** Two digits. */
  lemma TwoDigitNumber(a: nonzero, b: nonzero)
    requires IsDigit(a) && IsDigit(b)
    ensures AllDigits([a]) && Number([a]) == a - 48
    ensures AllDigits([a, b]) && Number([a, b]) == 10 * (a - 48) + (b - 48)
  {
    NumberSnoc([], a);
    assert [] + [a] == [a];
    NumberSnoc([a], b);
    assert [a] + [b] == [a, b];
  }

  /** A numeral is read as the number that, made whole by its power of ten, its digits write. */
  lemma {:induction false} ReadAs(n: Numeral, text: Text, value: real, requireNul: bool)
    requires WellFormedNumeral(n) && NumeralText(n) == text && |text| <= 63
    requires AllDigits(n.whole + n.fraction)
    requires var magnitude := if n.negative then 0.0 - value else value;
             var digits, e := Number(n.whole + n.fraction), PlacesOf(n);
             if e < 0 then magnitude * (Power(-e) as real) == digits as real
             else magnitude == digits as real * (Power(e) as real)
    ensures ParseDocument(text + [NUL], requireNul) == Ok(JsonTree.Json.Number(value), |text|)
  {
    hide ParseDocument, Number, NumeralValue, NumeralText, Strtod, Power, Pow10, WellFormedNumeral, PlacesOf;
    ReadsDecimal(n);
    StrtodOfNumeral(n);
    var e := PlacesOf(n);
    if e < 0 {
      PowersAgree(-e);
      var digits, p := Number(n.whole + n.fraction) as real, Power(-e) as real;
      var a := if n.negative then 0.0 - value else value;
      var b := if n.negative then 0.0 - Strtod(text).0 else Strtod(text).0;
      Cancel(a, b, p, digits);
    }
    GrammarParse.ParseNumeralDocument(n, requireNul);
  }

  lemma Cancel(a: real, b: real, p: real, product: real)
    requires p > 0.0 && a * p == product && b * p == product
    ensures a == b
  {
    assert (a - b) * p == 0.0;
  }

  /** The document `45.25` is the number 45.25. */
  lemma {:induction false} FractionIsRead(requireNul: bool)
    ensures var text: Text := [52, 53, 46, 50, 53];
            ParseDocument(text + [NUL], requireNul) == Ok(JsonTree.Json.Number(45.25), 5)
  {
    var n := Numeral(false, [52, 53], [50, 53], NoExponent);
    TwoDigitNumber(52, 53);
    NumberSnoc([52, 53], 50);
    NumberSnoc([52, 53, 50], 53);
    assert [52, 53] + [50] == [52, 53, 50] && [52, 53, 50] + [53] == [52, 53] + [50, 53];
    Hundred();
    hide ParseDocument, Number, Power;
    assert NumeralText(n) == [52, 53, 46, 50, 53];
    ReadAs(n, [52, 53, 46, 50, 53], 45.25, requireNul);
  }

  lemma Hundred()
    ensures Power(1) == 10 && Power(2) == 100 && Power(3) == 1000
  {
  }

  /** The document `-12E-2` is the number -0.12. */
  lemma {:induction false} NegativeExponentIsRead(requireNul: bool)
    ensures var text: Text := [45, 49, 50, 69, 45, 50];
            ParseDocument(text + [NUL], requireNul) == Ok(JsonTree.Json.Number(-0.12), 6)
  {
    var n := Numeral(true, [49, 50], [], ExponentPart(69, [45], [50]));
    TwoDigitNumber(49, 50);
    TwoDigitNumber(50, 50);
    assert [49, 50] + [] == [49, 50];
    Hundred();
    hide ParseDocument, Number, Power;
    assert NumeralText(n) == [45, 49, 50, 69, 45, 50];
    ReadAs(n, [45, 49, 50, 69, 45, 50], -0.12, requireNul);
  }

  /** The document `7e+3` is the number 7000. */
  lemma {:induction false} ExponentIsRead(requireNul: bool)
    ensures var text: Text := [55, 101, 43, 51];
            ParseDocument(text + [NUL], requireNul) == Ok(JsonTree.Json.Number(7000.0), 4)
  {
    var n := Numeral(false, [55], [], ExponentPart(101, [43], [51]));
    TwoDigitNumber(51, 51);
    TwoDigitNumber(55, 55);
    assert [55] + [] == [55];
    Hundred();
    hide ParseDocument, Number, Power;
    assert NumeralText(n) == [55, 101, 43, 51];
    ReadAs(n, [55, 101, 43, 51], 7000.0, requireNul);
  }

  /** `%d` prints 1234567890 and -20 as these digits. */
  lemma {:induction false} IntIsPrinted()
    ensures IntText(1234567890) == [49, 50, 51, 52, 53, 54, 55, 56, 57, 48]
    ensures IntText(-20) == [MINUS, 50, 48] && IntText(0) == [48]
  {
    assert Digits(1) == [49];
    assert Digits(12) == [49, 50];
    assert Digits(123) == [49, 50, 51];
    assert Digits(1234) == [49, 50, 51, 52];
    assert Digits(12345) == [49, 50, 51, 52, 53];
    assert Digits(123456) == [49, 50, 51, 52, 53, 54];
    assert Digits(1234567) == [49, 50, 51, 52, 53, 54, 55];
    assert Digits(12345678) == [49, 50, 51, 52, 53, 54, 55, 56];
    assert Digits(123456789) == [49, 50, 51, 52, 53, 54, 55, 56, 57];
    assert Digits(2) == [50] && Digits(20) == [50, 48];
  }

  /** `-.5` and `007` are read to their end. */
  lemma {:induction false} UnusualNumerals()
    ensures Strtod([45, 46, 53]) == (-0.5, 3)
    ensures Strtod([48, 48, 55]) == (7.0, 3)
  {
  }

  /** Of `1e+` and `1-2` the number in front is read. */
  lemma {:induction false} NumeralsInFront()
    ensures Strtod([49, 101, 43]) == (1.0, 1)
    ensures Strtod([49, 45, 50]) == (1.0, 1)
  {
  }

  /** Of `1..` the first point is read. */
  lemma {:induction false} PointInFront()
    ensures Strtod([49, 46, 46]) == (1.0, 2)
  {
  }

  /** Of `-`, `.` and `e1` nothing is read. */
  lemma {:induction false} NoNumerals()
    ensures Strtod([45]).1 == 0 && Strtod([46]).1 == 0 && Strtod([101, 49]).1 == 0
  {
  }
}
