/**
 Conversion of one or two `\uXXXX` groups to UTF-8
 (`parse_hex4` and `utf16_literal_to_utf8` in cJSON.c).
 Shifts and masks that act on disjoint bits are written as multiplication, division and remainder.
 */
module Utf16 {
  import opened Bytes

  const LETTER_U: nonzero := 117

  predicate IsHexDigit(b: byte) {
    48 <= b <= 57 || 65 <= b <= 70 || 97 <= b <= 102
  }

  function HexDigitValue(b: byte): nat
    requires IsHexDigit(b)
  {
    if b <= 57 then b - 48 else if b <= 70 then 10 + b - 65 else 10 + b - 97
  }

  /** All four bytes at `p` are hexadecimal digits. */
  predicate ValidHex4(c: seq<byte>, p: nat)
    requires p + 4 <= |c|
  {
    forall k :: p <= k < p + 4 ==> IsHexDigit(c[k])
  }

  /** The number that `n` hexadecimal digits at `p` denote. */
  function HexValue(c: seq<byte>, p: nat, n: nat): (h: nat)
    requires p + n <= |c| && forall k :: p <= k < p + n ==> IsHexDigit(c[k])
    ensures (n == 1 ==> h <= 0xF) && (n == 2 ==> h <= 0xFF) && (n == 3 ==> h <= 0xFFF) && (n == 4 ==> h <= 0xFFFF)
  {
    if n == 0 then 0 else 16 * HexValue(c, p, n - 1) + HexDigitValue(c[p + n - 1])
  }

  /** The code unit four digits denote; any other byte makes the whole group count as 0. */
  function Hex4(c: seq<byte>, p: nat): (h: nat)
    requires p + 4 <= |c|
    ensures h <= 0xFFFF
  {
    if ValidHex4(c, p) then HexValue(c, p, 4) else 0
  }

  method ParseHex4(c: seq<byte>, p: nat) returns (h: nat)
    requires p + 4 <= |c|
    ensures h == Hex4(c, p)
  {
    h := 0;
    var i := 0;
    while i < 4
      invariant 0 <= i <= 4
      invariant forall k :: p <= k < p + i ==> IsHexDigit(c[k])
      invariant h == if i < 4 then 16 * HexValue(c, p, i) else HexValue(c, p, 4)
    {
      var b := c[p + i];
      if 48 <= b <= 57 {
        h := h + (b - 48);
      } else if 65 <= b <= 70 {
        h := h + (10 + b - 65);
      } else if 97 <= b <= 102 {
        h := h + (10 + b - 97);
      } else {
        return 0;
      }
      if i < 3 {
        h := 16 * h;
      }
      i := i + 1;
    }
  }

  // ---------------------------------------------------------------- UTF-8

  /** Number of bytes of the UTF-8 form of a code point (the ranges of section 3 of RFC 3629). */
  function Utf8Length(cp: nat): nat {
    if cp < 0x80 then 1 else if cp < 0x800 then 2 else if cp < 0x10000 then 3 else 4
  }

  predicate IsHighSurrogate(u: nat) { 0xD800 <= u <= 0xDBFF }

  predicate IsLowSurrogate(u: nat) { 0xDC00 <= u <= 0xDFFF }

  /** A code point that UTF-8 may encode: not a surrogate, and within the range of Unicode. */
  predicate IsScalar(cp: nat) {
    cp <= 0x10FFFF && !IsHighSurrogate(cp) && !IsLowSurrogate(cp)
  }

  predicate IsTail(b: byte) { 0x80 <= b <= 0xBF }

  /**
   The code point that a byte sequence denotes in UTF-8, read off the octet patterns
   of section 3 of RFC 3629: None for anything that is not one pattern, that is longer
   than the code point needs, or that would denote a surrogate or a value above 0x10FFFF.
   */
  function Utf8Value(s: seq<byte>): Option<nat> {
    if |s| == 1 && s[0] < 0x80 then Some(s[0])
    else if |s| == 2 && 0xC0 <= s[0] < 0xE0 && IsTail(s[1]) then
      Shortest(s, (s[0] as int - 0xC0) * 0x40 + (s[1] as int - 0x80))
    else if |s| == 3 && 0xE0 <= s[0] < 0xF0 && IsTail(s[1]) && IsTail(s[2]) then
      Shortest(s, (s[0] as int - 0xE0) * 0x1000 + (s[1] as int - 0x80) * 0x40 + (s[2] as int - 0x80))
    else if |s| == 4 && 0xF0 <= s[0] < 0xF8 && IsTail(s[1]) && IsTail(s[2]) && IsTail(s[3]) then
      Shortest(s, (s[0] as int - 0xF0) * 0x4_0000 + (s[1] as int - 0x80) * 0x1000 + (s[2] as int - 0x80) * 0x40
               + (s[3] as int - 0x80))
    else None
  }

  function Shortest(s: seq<byte>, cp: nat): Option<nat> {
    if |s| == Utf8Length(cp) && IsScalar(cp) then Some(cp) else None
  }

  /** `n` shifted right by `k` groups of six bits. */
  function Shifted(n: nat, k: nat): nat {
    if k == 0 then n else Shifted(n / 0x40, k - 1)
  }

  /** The low `k` groups of six bits of `n` as continuation bytes, most significant first. */
  function Tail(n: nat, k: nat): (s: seq<byte>)
    ensures |s| == k
  {
    if k == 0 then [] else Tail(n / 0x40, k - 1) + [0x80 + n % 0x40]
  }

  function FirstByteMark(length: nat): nat {
    if length <= 1 then 0 else if length == 2 then 0xC0 else if length == 3 then 0xE0 else 0xF0
  }

  lemma {:induction false} FirstByteFits(cp: nat)
    requires cp <= 0x10FFFF
    ensures FirstByteMark(Utf8Length(cp)) + Shifted(cp, Utf8Length(cp) - 1) < 0xF8
  {
    assert Shifted(cp, 1) == Shifted(cp / 0x40, 0);
    assert Shifted(cp, 2) == Shifted(cp / 0x40, 1) == Shifted(cp / 0x40 / 0x40, 0);
    assert Shifted(cp, 3) == Shifted(cp / 0x40, 2) == Shifted(cp / 0x40 / 0x40, 1);
  }

  /** The bytes `utf16_literal_to_utf8` stores for a code point. */
  function Utf8(cp: nat): (s: seq<byte>)
    requires cp <= 0x10FFFF
    ensures |s| == Utf8Length(cp)
  {
    var n := Utf8Length(cp);
    FirstByteFits(cp);
    [FirstByteMark(n) + Shifted(cp, n - 1)] + Tail(cp, n - 1)
  }

  lemma Utf8Bytes(cp: nat)
    requires cp <= 0x10FFFF
    ensures Utf8Length(cp) == 1 ==> Utf8(cp) == [cp]
    ensures Utf8Length(cp) == 2 ==> Utf8(cp) == [0xC0 + cp / 0x40, 0x80 + cp % 0x40]
    ensures Utf8Length(cp) == 3 ==> Utf8(cp) == [0xE0 + cp / 0x40 / 0x40, 0x80 + cp / 0x40 % 0x40, 0x80 + cp % 0x40]
    ensures Utf8Length(cp) == 4 ==>
              Utf8(cp) == [0xF0 + cp / 0x40 / 0x40 / 0x40, 0x80 + cp / 0x40 / 0x40 % 0x40, 0x80
                           + cp / 0x40 % 0x40, 0x80 + cp % 0x40]
  {
    var q := cp / 0x40;
    var r := q / 0x40;
    var n := Utf8Length(cp);
    if n == 2 {
      assert Tail(cp, 1) == Tail(q, 0) + [0x80 + cp % 0x40];
      assert Shifted(cp, 1) == Shifted(q, 0);
    } else if n == 3 {
      assert Tail(cp, 2) == Tail(q, 1) + [0x80 + cp % 0x40] == Tail(r, 0) + [0x80 + q % 0x40] + [0x80 + cp % 0x40];
      assert Shifted(cp, 2) == Shifted(q, 1) == Shifted(r, 0);
    } else if n == 4 {
      assert Tail(cp, 3) == Tail(q, 2) + [0x80 + cp % 0x40];
      assert Tail(q, 2) == Tail(r, 1) + [0x80 + q % 0x40];
      assert Tail(r, 1) == Tail(r / 0x40, 0) + [0x80 + r % 0x40];
      assert Shifted(cp, 3) == Shifted(q, 2) == Shifted(r, 1) == Shifted(r / 0x40, 0);
    }
  }

  /** The stored bytes are the shortest UTF-8 form of the code point, if it is one that UTF-8 may encode. */
  lemma Utf8IsShortestForm(cp: nat)
    requires cp <= 0x10FFFF
    ensures Utf8Value(Utf8(cp)) == if IsScalar(cp) then Some(cp) else None
  {
    hide Utf8;
    Utf8Bytes(cp);
  }

  // ---------------------------------------------------------------- surrogates

  /** A `\u` group starts at `p` and ends before `end`. */
  predicate GroupAt(c: seq<byte>, p: nat, end: nat)
    requires end <= |c|
  {
    p + 6 <= end && c[p] == BACKSLASH && c[p + 1] == LETTER_U
  }

  /** The code point of a surrogate pair, by section 2.2 of RFC 2781. */
  function PairValue(high: nat, low: nat): nat
    requires IsHighSurrogate(high) && IsLowSurrogate(low)
  {
    0x10000 + (high - 0xD800) * 0x400 + (low - 0xDC00)
  }

  /** Result of reading a literal: its code point and the number of input bytes it takes. */
  datatype Literal = Literal(codepoint: nat, length: nat)

  /** What a literal at `p` denotes; unpaired surrogates and cut-off groups denote nothing. */
  function ReadLiteral(c: seq<byte>, p: nat, end: nat): (l: Option<Literal>)
    requires p <= end <= |c|
    ensures l.Some? ==> IsScalar(l.value.codepoint)
    ensures l.Some? ==> l.value.length == (if l.value.codepoint < 0x10000 then 6 else 12)
                        && p + l.value.length <= end
  {
    if end - p < 6 then None
    else
      var first := Hex4(c, p + 2);
      if IsLowSurrogate(first) then None
      else if !IsHighSurrogate(first) then Some(Literal(first, 6))
      else if !GroupAt(c, p + 6, end) || !IsLowSurrogate(Hex4(c, p + 8)) then None
      else Some(Literal(PairValue(first, Hex4(c, p + 8)), 12))
  }

  /** The first half of `utf16_literal_to_utf8`: the code point; a zero `length` is the failure jump. */
  method ParseLiteral(c: seq<byte>, p: nat, end: nat) returns (length: nat, codepoint: nat)
    requires p <= end <= |c|
    ensures length == 0 <==> ReadLiteral(c, p, end).None?
    ensures length != 0 ==> ReadLiteral(c, p, end) == Some(Literal(codepoint, length))
  {
    codepoint := 0;
    if end - p < 6 {
      return 0, 0;
    }
    var first := ParseHex4(c, p + 2);
    if 0xDC00 <= first <= 0xDFFF {
      return 0, 0;
    }
    if 0xD800 <= first <= 0xDBFF {
      if end - (p + 6) < 6 {
        return 0, 0;
      }
      if c[p + 6] != BACKSLASH || c[p + 7] != LETTER_U {
        return 0, 0;
      }
      var second := ParseHex4(c, p + 8);
      if second < 0xDC00 || second > 0xDFFF {
        return 0, 0;
      }
      length, codepoint := 12, 0x10000 + (first % 0x400 * 0x400 + second % 0x400);
    } else {
      length, codepoint := 6, first;
    }
  }

  /** Converts the literal at `p`, storing at `o`; a zero `length` is the failure return. */
  method Utf16LiteralToUtf8(c: seq<byte>, p: nat, end: nat, output: array<byte>, o: nat)
    returns (length: nat, o': nat)
    requires p <= end <= |c|
    requires o <= output.Length
    requires ReadLiteral(c, p, end).Some? ==>
               o + Utf8Length(ReadLiteral(c, p, end).value.codepoint) <= output.Length
    modifies output
    ensures output[..o] == old(output[..o])
    ensures length == 0 <==> ReadLiteral(c, p, end).None?
    ensures length == 0 ==> o' == o
    ensures length != 0 ==>
              var l := ReadLiteral(c, p, end).value;
              && length == l.length
              && o' == o + Utf8Length(l.codepoint) <= output.Length
              && output[o..o'] == Utf8(l.codepoint)
  {
    var codepoint;
    length, codepoint := ParseLiteral(c, p, end);
    if length == 0 {
      return 0, o;
    }
    o' := StoreUtf8(codepoint, output, o);
  }

  /** The encoding loop: continuation bytes from the last one back, then the first byte. */
  method StoreUtf8(codepoint: nat, output: array<byte>, o: nat) returns (o': nat)
    requires codepoint <= 0x10FFFF
    requires o + Utf8Length(codepoint) <= output.Length
    modifies output
    ensures o' == o + Utf8Length(codepoint)
    ensures output[..o] == old(output[..o])
    ensures output[o..o'] == Utf8(codepoint)
  {
    var utf8_length, mark := 1, 0;
    if codepoint < 0x80 {
    } else if codepoint < 0x800 {
      utf8_length, mark := 2, 0xC0;
    } else if codepoint < 0x10000 {
      utf8_length, mark := 3, 0xE0;
    } else {
      utf8_length, mark := 4, 0xF0;
    }
    o' := o + utf8_length;
    var rest := StoreTail(codepoint, output, o + 1, utf8_length - 1);
    FirstByteFits(codepoint);
    ghost var tail := output[o + 1..o'];
    output[o] := if utf8_length > 1 then mark + rest else rest;
    assert output[o..o'] == [output[o]] + tail;
  }

  /** The loop: `count` continuation bytes; `rest` are the bits left for the first byte. */
  method StoreTail(codepoint: nat, output: array<byte>, o: nat, count: nat) returns (rest: nat)
    requires o + count <= output.Length
    modifies output
    ensures rest == Shifted(codepoint, count)
    ensures output[..o] == old(output[..o])
    ensures output[o..o + count] == Tail(codepoint, count)
  {
    var position := count;
    rest := codepoint;
    while position > 0
      invariant 0 <= position <= count
      invariant Shifted(rest, position) == Shifted(codepoint, count)
      invariant Tail(rest, position) + output[o + position..o + count] == Tail(codepoint, count)
      invariant output[..o] == old(output[..o])
    {
      ghost var done := output[o + position..o + count];
      position := position - 1;
      output[o + position] := 0x80 + rest % 0x40;
      assert output[o + position..o + count] == [0x80 + rest % 0x40] + done;
      rest := rest / 0x40;
    }
  }

  // ---------------------------------------------------------------- meaning of a literal

  /** Lower-case hexadecimal digit, as `%x` prints it. */
  function HexDigit(v: nat): (b: nonzero)
    requires v < 16
    ensures IsHexDigit(b) && HexDigitValue(b) == v
  {
    if v < 10 then 48 + v else 97 + v - 10
  }

  /** `\uXXXX` for one code unit, as `"u%04x"` prints it after a backslash. */
  function Group(u: nat): (g: seq<nonzero>)
    requires u <= 0xFFFF
    ensures |g| == 6
  {
    [BACKSLASH, LETTER_U, HexDigit(u / 0x1000), HexDigit(u / 0x100 % 0x10),
     HexDigit(u / 0x10 % 0x10), HexDigit(u % 0x10)]
  }

  /** The groups that section 2.1 of RFC 2781 gives for a code point. */
  function Groups(cp: nat): seq<nonzero>
    requires cp <= 0x10FFFF
  {
    if cp < 0x10000 then Group(cp)
    else Group(0xD800 + (cp - 0x10000) / 0x400) + Group(0xDC00 + (cp - 0x10000) % 0x400)
  }

  lemma HexValueOfFour(c: seq<byte>, p: nat)
    requires p + 4 <= |c| && ValidHex4(c, p)
    ensures Hex4(c, p) == 4096 * HexDigitValue(c[p]) + 256 * HexDigitValue(c[p + 1])
                          + 16 * HexDigitValue(c[p + 2]) + HexDigitValue(c[p + 3])
  {
    assert HexValue(c, p, 1) == 16 * HexValue(c, p, 0) + HexDigitValue(c[p]);
    assert HexValue(c, p, 2) == 16 * HexValue(c, p, 1) + HexDigitValue(c[p + 1]);
    assert HexValue(c, p, 3) == 16 * HexValue(c, p, 2) + HexDigitValue(c[p + 2]);
  }

  lemma HexDigitsOf(u: nat)
    ensures u == 4096 * (u / 0x1000) + 256 * (u / 0x100 % 0x10) + 16 * (u / 0x10 % 0x10) + u % 0x10
  {
    var v := u / 0x10;
    var w := v / 0x10;
    assert v / 0x10 == u / 0x100 && w / 0x10 == u / 0x1000;
    assert u == 16 * v + u % 0x10 && v == 16 * w + v % 0x10 && w == 16 * (w / 0x10) + w % 0x10;
  }

  lemma GroupReadsBack(c: seq<byte>, p: nat, u: nat)
    requires u <= 0xFFFF && At(c, p, Group(u))
    ensures c[p] == BACKSLASH && c[p + 1] == LETTER_U
    ensures ValidHex4(c, p + 2) && Hex4(c, p + 2) == u
  {
    var g := Group(u);
    AtIndex(c, p, g, 0);
    AtIndex(c, p, g, 1);
    AtIndex(c, p, g, 2);
    AtIndex(c, p, g, 3);
    AtIndex(c, p, g, 4);
    AtIndex(c, p, g, 5);
    HexValueOfFour(c, p + 2);
    HexDigitsOf(u);
  }

  lemma PairReadsBack(c: seq<byte>, p: nat, end: nat, high: nat, low: nat)
    requires IsHighSurrogate(high) && IsLowSurrogate(low)
    requires p + 12 <= end <= |c| && At(c, p, Group(high) + Group(low))
    ensures ReadLiteral(c, p, end) == Some(Literal(PairValue(high, low), 12))
  {
    AtConcat(c, p, Group(high), Group(low));
    GroupReadsBack(c, p, high);
    GroupReadsBack(c, p + 6, low);
    hide Group, Hex4, ValidHex4, PairValue;
  }

  lemma PairOf(cp: nat)
    requires 0x10000 <= cp <= 0x10FFFF
    ensures var high, low := 0xD800 + (cp - 0x10000) / 0x400, 0xDC00 + (cp - 0x10000) % 0x400;
            IsHighSurrogate(high) && IsLowSurrogate(low) && PairValue(high, low) == cp
  {
  }

  /** Every Unicode scalar value written as its one or two groups is read back as itself. */
  lemma LiteralReadsBack(c: seq<byte>, p: nat, end: nat, cp: nat)
    requires IsScalar(cp)
    requires end <= |c| && p + |Groups(cp)| <= end && At(c, p, Groups(cp))
    ensures ReadLiteral(c, p, end) == Some(Literal(cp, |Groups(cp)|))
  {
    if cp < 0x10000 {
      GroupReadsBack(c, p, cp);
      hide Group, Hex4, ValidHex4;
    } else {
      hide Group, PairValue, ReadLiteral;
      PairOf(cp);
      PairReadsBack(c, p, end, 0xD800 + (cp - 0x10000) / 0x400, 0xDC00 + (cp - 0x10000) % 0x400);
    }
  }

  /** What two groups with valid digits mean: an unpaired surrogate is refused, all else is read. */
  lemma LiteralAcceptance(c: seq<byte>, p: nat, end: nat)
    requires end <= |c| && GroupAt(c, p, end) && ValidHex4(c, p + 2)
    ensures var u := HexValue(c, p + 2, 4);
            var paired := IsHighSurrogate(u) && GroupAt(c, p + 6, end) && ValidHex4(c, p + 8)
                          && IsLowSurrogate(HexValue(c, p + 8, 4));
            && (ReadLiteral(c, p, end).None? <==> (IsHighSurrogate(u) || IsLowSurrogate(u)) && !paired)
            && (ReadLiteral(c, p, end).Some? ==>
                  var l := ReadLiteral(c, p, end).value;
                  && Utf8Value(Utf8(l.codepoint)) == Some(l.codepoint)
                  && |Utf8(l.codepoint)| <= 4
                  && l.codepoint == if paired then PairValue(u, HexValue(c, p + 8, 4)) else u)
  {
    if ReadLiteral(c, p, end).Some? {
      Utf8IsShortestForm(ReadLiteral(c, p, end).value.codepoint);
    }
  }
}
