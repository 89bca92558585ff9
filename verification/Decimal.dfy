/**
 Decimal numerals: what `"%d"` prints and what `strtod` reads from the characters
 that `parse_number` hands to it (digits, signs, a point and exponent letters).
 */
module Decimal {
  import opened Bytes

  const DOT: nonzero := 46
  const PLUS: nonzero := 43
  const LOWER_E: nonzero := 101
  const UPPER_E: nonzero := 69

  predicate IsDigit(b: byte) { ZERO <= b <= NINE }

  /** The characters `parse_number` copies. */
  predicate IsNumberChar(b: byte) {
    IsDigit(b) || b == PLUS || b == MINUS || b == LOWER_E || b == UPPER_E || b == DOT
  }

  /** Index of the first byte from `i` on that is not a digit. */
  function DigitsEnd(s: seq<byte>, i: nat): (j: nat)
    requires i <= |s|
    ensures i <= j <= |s|
    ensures forall k :: i <= k < j ==> IsDigit(s[k])
    ensures j < |s| ==> !IsDigit(s[j])
    decreases |s| - i
  {
    if i < |s| && IsDigit(s[i]) then DigitsEnd(s, i + 1) else i
  }

  /** Value of the digits `s[i..j]`. */
  function DigitsValue(s: seq<byte>, i: nat, j: nat): nat
    requires i <= j <= |s| && forall k :: i <= k < j ==> IsDigit(s[k])
  {
    if i == j then 0 else
      assert IsDigit(s[j - 1]);
      10 * DigitsValue(s, i, j - 1) + (s[j - 1] as int - 48) as nat
  }

  function Pow10(n: nat): (p: real)
    ensures p > 0.0
  {
    if n == 0 then 1.0 else 10.0 * Pow10(n - 1)
  }

  function Scale(m: real, e: int): real {
    if e >= 0 then m * Pow10(e) else m / Pow10(-e)
  }

  function SkipSign(s: seq<byte>, i: nat): (j: nat)
    requires i <= |s|
    ensures i <= j <= |s| && j <= i + 1
  {
    if i < |s| && (s[i] == MINUS || s[i] == PLUS) then i + 1 else i
  }

  /** The exponent suffix at `i`: its value and where it ends; without digits there is none. */
  function Exponent(s: seq<byte>, i: nat): (r: (int, nat))
    requires i <= |s|
    ensures i <= r.1 <= |s|
  {
    if i < |s| && (s[i] == LOWER_E || s[i] == UPPER_E) then
      var d := SkipSign(s, i + 1);
      var j := DigitsEnd(s, d);
      if d == j then (0, i)
      else (if s[i + 1] == MINUS then -(DigitsValue(s, d, j) as int) else DigitsValue(s, d, j), j)
    else (0, i)
  }

  /** `strtod`: the exact value of the longest numeral that `s` starts with, and its length (0 if none). */
  function Strtod(s: seq<byte>): (r: (real, nat))
    ensures r.1 <= |s|
  {
    var i := SkipSign(s, 0);
    var j := DigitsEnd(s, i);
    Assembled(s, i, j, MantissaEnd(s, j))
  }

  /** End of the point at `j`, if there is one, and the digits behind it. */
  function MantissaEnd(s: seq<byte>, j: nat): (k: nat)
    requires j <= |s|
    ensures j <= k <= |s| && (k > j ==> s[j] == DOT && forall n :: j < n < k ==> IsDigit(s[n]))
  {
    if j < |s| && s[j] == DOT then DigitsEnd(s, j + 1) else j
  }

  /** The number with the digits from `i` to `j`, a fraction up to `k`, and the exponent behind that. */
  function Assembled(s: seq<byte>, i: nat, j: nat, k: nat): (r: (real, nat))
    requires i <= j <= k <= |s|
    requires (forall n :: i <= n < j ==> IsDigit(s[n])) && (forall n :: j < n < k ==> IsDigit(s[n]))
    ensures r.1 <= |s|
  {
    var point := k > j;
    var fraction := if point then k - (j + 1) else 0;
    if j - i + fraction == 0 then (0.0, 0)
    else
      var whole := DigitsValue(s, i, j) as real;
      var mantissa := if point then whole * Pow10(fraction) + DigitsValue(s, j + 1, k) as real else whole;
      var (e, end) := Exponent(s, k);
      var magnitude := Scale(mantissa, e - fraction);
      (if s[0] == MINUS then -magnitude else magnitude, end)
  }

  lemma {:induction false} DigitsOfPrefix(s: seq<byte>, n: nat, i: nat, j: nat)
    requires i <= j <= n <= |s| && forall k :: i <= k < j ==> IsDigit(s[k])
    ensures DigitsValue(s[..n], i, j) == DigitsValue(s, i, j)
    decreases j
  {
    if i == j {
    } else {
      DigitsOfPrefix(s, n, i, j - 1);
    }
  }

  lemma {:induction false} DigitsEndOfPrefix(s: seq<byte>, n: nat, i: nat)
    requires i <= n <= |s|
    ensures DigitsEnd(s[..n], i) == if DigitsEnd(s, i) <= n then DigitsEnd(s, i) else n
  {
    DigitsEndUnique(s[..n], i, if DigitsEnd(s, i) <= n then DigitsEnd(s, i) else n);
  }

  lemma ExponentOfPrefix(s: seq<byte>, i: nat)
    requires i <= |s|
    ensures var n := Exponent(s, i).1; Exponent(s[..n], i) == Exponent(s, i)
  {
    var n := Exponent(s, i).1;
    hide DigitsEnd, DigitsValue;
    if n > i {
      var d := SkipSign(s, i + 1);
      var j := DigitsEnd(s, d);
      DigitsEndOfPrefix(s, n, d);
      DigitsOfPrefix(s, n, d, j);
      assert SkipSign(s[..n], i + 1) == d;
    }
  }

  /** With a digit in front of the point there is a numeral. */
  lemma AssembledWhole(s: seq<byte>, i: nat, j: nat, k: nat)
    requires i < j <= k <= |s|
    requires (forall n :: i <= n < j ==> IsDigit(s[n])) && (forall n :: j < n < k ==> IsDigit(s[n]))
    ensures Assembled(s, i, j, k).1 >= j
  {
    hide DigitsValue, Scale, Pow10;
  }

  lemma AssembledOfPrefix(s: seq<byte>, i: nat, j: nat, k: nat)
    requires i <= j <= k <= |s|
    requires (forall n :: i <= n < j ==> IsDigit(s[n])) && (forall n :: j < n < k ==> IsDigit(s[n]))
    ensures var n := Assembled(s, i, j, k).1;
            n > 0 ==> k <= n && n == Exponent(s, k).1 && Assembled(s[..n], i, j, k) == Assembled(s, i, j, k)
  {
    hide DigitsValue, Exponent, Scale, Pow10;
    var n := Exponent(s, k).1;
    DigitsOfPrefix(s, n, i, j);
    ExponentOfPrefix(s, k);
    if k > j {
      DigitsOfPrefix(s, n, j + 1, k);
    }
  }

  /** What `strtod` has taken it takes again when there is nothing else. */
  lemma StrtodOfTaken(s: seq<byte>)
    ensures Strtod(s).1 > 0 ==> Strtod(s[..Strtod(s).1]) == Strtod(s)
  {
    hide DigitsEnd, MantissaEnd, Assembled, Exponent;
    var n := Strtod(s).1;
    var i := SkipSign(s, 0);
    var j := DigitsEnd(s, i);
    var k := MantissaEnd(s, j);
    AssembledOfPrefix(s, i, j, k);
    if n > 0 {
      DigitsEndOfPrefix(s, n, i);
      ExponentBegins(s, k);
      MantissaOfPrefix(s, n, j);
      assert SkipSign(s[..n], 0) == i;
    }
  }

  lemma MantissaOfPrefix(s: seq<byte>, n: nat, j: nat)
    requires j <= n <= |s| && MantissaEnd(s, j) <= n
    requires MantissaEnd(s, j) < n ==> s[MantissaEnd(s, j)] != DOT
    ensures MantissaEnd(s[..n], j) == MantissaEnd(s, j)
  {
    hide DigitsEnd;
    if j < |s| && s[j] == DOT {
      DigitsEndOfPrefix(s, n, j + 1);
    }
  }

  lemma ExponentBegins(s: seq<byte>, k: nat)
    requires k <= |s|
    ensures Exponent(s, k).1 > k ==> k < |s| && s[k] != DOT
  {
  }

  /** Where `strtod` finds a numeral, it also finds one in a longer text. */
  lemma StrtodOfMore(s: seq<byte>, n: nat)
    requires n <= |s| && Strtod(s[..n]).1 > 0
    ensures Strtod(s).1 > 0
  {
    hide DigitsEnd, DigitsValue, Exponent, Scale, Pow10;
    var i := SkipSign(s, 0);
    DigitsEndOfPrefix(s, n, i);
    var j := DigitsEnd(s, i);
    if j < n && s[j] == DOT {
      DigitsEndOfPrefix(s, n, j + 1);
    }
  }

  // ---------------------------------------------------------------- "%d"

  function Digits(n: nat): (s: Text)
    ensures |s| >= 1 && forall k :: 0 <= k < |s| ==> IsDigit(s[k])
  {
    if n < 10 then [48 + n] else Digits(n / 10) + [48 + n % 10]
  }

  function IntText(n: int): (s: Text)
    ensures |s| >= 1 && forall k :: 0 <= k < |s| ==> IsNumberChar(s[k])
    ensures s[0] == MINUS || IsDigit(s[0])
  {
    if n < 0 then [MINUS] + Digits(-n) else Digits(n)
  }

  lemma {:induction false} DigitsLength(n: nat, k: nat)
    requires n < Power(k) && k >= 1
    ensures |Digits(n)| <= k
    decreases k
  {
    if n < 10 {
    } else {
      DigitsLength(n / 10, k - 1);
    }
  }

  function Power(k: nat): nat {
    if k == 0 then 1 else 10 * Power(k - 1)
  }

  /** An `int` takes at most eleven characters, so it fits both number buffers. */
  lemma IntTextLength(n: int)
    requires INT_MIN <= n <= INT_MAX
    ensures |IntText(n)| <= 11
  {
    assert Power(10) == 10_000_000_000 by {
      assert Power(2) == 100 && Power(4) == 100 * Power(2) && Power(6) == 100 * Power(4) && Power(8) == 100 * Power(6);
    }
    DigitsLength(if n < 0 then -n else n, 10);
  }

  lemma {:induction false} DigitsReadBack(s: seq<byte>, i: nat, n: nat)
    requires At(s, i, Digits(n))
    ensures forall k :: i <= k < i + |Digits(n)| ==> IsDigit(s[k])
    ensures DigitsValue(s, i, i + |Digits(n)|) == n
    decreases n
  {
    assert i + |Digits(n)| <= |s|;
    hide At;
    forall k | i <= k < i + |Digits(n)| ensures IsDigit(s[k]) {
      AtIndex(s, i, Digits(n), k - i);
    }
    if n < 10 {
      AtIndex(s, i, Digits(n), 0);
      assert DigitsValue(s, i, i) == 0;
    } else {
      AtConcat(s, i, Digits(n / 10), [48 + n % 10]);
      DigitsReadBack(s, i, n / 10);
      AtIndex(s, i, Digits(n), |Digits(n)| - 1);
    }
  }

  lemma {:induction false} DigitsEndUnique(s: seq<byte>, i: nat, j: nat)
    requires i <= j <= |s| && (forall k :: i <= k < j ==> IsDigit(s[k])) && (j < |s| ==> !IsDigit(s[j]))
    ensures DigitsEnd(s, i) == j
    decreases j - i
  {
    if i == j {
    } else {
      DigitsEndUnique(s, i + 1, j);
    }
  }

  lemma SignOfInt(s: Text, i: nat, n: int)
    requires s == IntText(n) && i == if n < 0 then 1 else 0
    ensures SkipSign(s, 0) == i && (s[0] == MINUS <==> n < 0)
  {
  }

  /** Reading a printed integer that no number character follows gives the integer back. */
  lemma StrtodUndoesIntText(n: int)
    ensures Strtod(IntText(n)) == (n as real, |IntText(n)|)
  {
    var s := IntText(n);
    var m := if n < 0 then -n else n;
    var i := if n < 0 then 1 else 0;
    assert At(s, i, Digits(m)) && s[i] == Digits(m)[0] && IsDigit(s[i]) && i + |Digits(m)| == |s|;
    assert Pow10(0) == 1.0;
    hide At, Digits, IntText, DigitsEnd, DigitsValue, Pow10, IsDigit;
    DigitsReadBack(s, i, m);
    DigitsEndUnique(s, i, |s|);
    SignOfInt(s, i, n);
  }
}
