/**
 The tables behind escapes, written out: hexadecimal digits of both cases, short escapes, and how the printer writes
 each byte, which is the shortest way there is.
 */
module EscapeTables {
  import opened Bytes
  import opened Utf16
  import opened StringLiteral
  import opened StringGrammar
  import opened StringDecoding
  import opened ParseSpec
  import JsonTree
  import GrammarParse

  // ---------------------------------------------------------------- hexadecimal digits

  /** 0123456789ABCDEF and 0123456789abcdef */
  const UPPER: Text := [48, 49, 50, 51, 52, 53, 54, 55, 56, 57, 65, 66, 67, 68, 69, 70]
  const LOWER: Text := [48, 49, 50, 51, 52, 53, 54, 55, 56, 57, 97, 98, 99, 100, 101, 102]

  lemma HexTable(k: nat)
    requires k < 16
    ensures IsHexDigit(UPPER[k]) && HexDigitValue(UPPER[k]) == k
    ensures IsHexDigit(LOWER[k]) && HexDigitValue(LOWER[k]) == k && HexDigit(k) == LOWER[k]
  {
  }

  /** No other byte is a digit. */
  lemma HexDigitsAreThese(b: byte)
    ensures IsHexDigit(b) <==> b in UPPER || b in LOWER
  {
    if IsHexDigit(b) {
      assert b == (if b <= 57 then UPPER[b - 48] else if b <= 70 then UPPER[b - 55] else LOWER[b - 87]);
    }
  }

  /** The digits of a code unit, from the left. */
  function UnitDigit(u: nat, k: nat): nat
    requires k < 4
  {
    (if k == 0 then u / 0x1000 else if k == 1 then u / 0x100 else if k == 2 then u / 0x10 else u) % 0x10
  }

  /** Four digits of a code unit, each in either case. */
  predicate Spells(hex: Text, u: nat) {
    && |hex| == 4
    && forall k :: 0 <= k < 4 ==> hex[k] == UPPER[UnitDigit(u, k)] || hex[k] == LOWER[UnitDigit(u, k)]
  }

  lemma SpelledDigit(hex: Text, u: nat, k: nat)
    requires Spells(hex, u) && k < 4
    ensures IsHexDigit(hex[k]) && HexDigitValue(hex[k]) == UnitDigit(u, k)
  {
    HexTable(UnitDigit(u, k));
  }

  /** However the four digits are written, they are read as the code unit. */
  lemma SpelledIsRead(c: seq<byte>, p: nat, hex: Text, u: nat)
    requires u <= 0xFFFF && Spells(hex, u) && At(c, p, hex)
    ensures ValidHex4(c, p) && Hex4(c, p) == u
  {
    assert |hex| == 4;
    hide Spells, HexDigitValue, IsHexDigit, UnitDigit, Hex4;
    AtIndex(c, p, hex, 0);
    AtIndex(c, p, hex, 1);
    AtIndex(c, p, hex, 2);
    AtIndex(c, p, hex, 3);
    SpelledDigit(hex, u, 0);
    SpelledDigit(hex, u, 1);
    SpelledDigit(hex, u, 2);
    SpelledDigit(hex, u, 3);
    FourValid(c, p);
    HexValueOfFour(c, p);
    DigitsOfUnit(u);
  }

  lemma FourValid(c: seq<byte>, p: nat)
    requires p + 4 <= |c| && IsHexDigit(c[p]) && IsHexDigit(c[p + 1]) && IsHexDigit(c[p + 2]) && IsHexDigit(c[p + 3])
    ensures ValidHex4(c, p)
  {
  }

  lemma DigitsOfUnit(u: nat)
    requires u <= 0xFFFF
    ensures u == 4096 * UnitDigit(u, 0) + 256 * UnitDigit(u, 1) + 16 * UnitDigit(u, 2) + UnitDigit(u, 3)
  {
    HexDigitsOf(u);
    assert u / 0x1000 % 0x10 == u / 0x1000;
  }

  function GroupOf(hex: Text): Text {
    [BACKSLASH, LETTER_U] + hex
  }

  /** One group for a code point up to 0xFFFF, two for one above, with digits of either case. */
  predicate SpelledGroups(text: Text, cp: nat)
    requires IsScalar(cp)
  {
    if cp < 0x10000 then |text| == 6 && text == GroupOf(text[2..]) && Spells(text[2..], cp)
    else
      && |text| == 12 && text == GroupOf(text[2..6]) + GroupOf(text[8..])
      && Spells(text[2..6], 0xD800 + (cp - 0x10000) / 0x400) && Spells(text[8..], 0xDC00 + (cp - 0x10000) % 0x400)
  }

  lemma GroupIsRead(c: seq<byte>, p: nat, hex: Text, u: nat)
    requires u <= 0xFFFF && Spells(hex, u) && At(c, p, GroupOf(hex))
    ensures p + 6 <= |c| && c[p] == BACKSLASH && c[p + 1] == LETTER_U && Hex4(c, p + 2) == u
  {
    AtConcat(c, p, [BACKSLASH, LETTER_U], hex);
    AtIndex(c, p, [BACKSLASH, LETTER_U], 0);
    AtIndex(c, p, [BACKSLASH, LETTER_U], 1);
    SpelledIsRead(c, p + 2, hex, u);
  }

  /** Every scalar value is read back from its groups, in whatever case their digits are. */
  lemma SpelledReadsBack(c: seq<byte>, p: nat, end: nat, cp: nat, text: Text)
    requires IsScalar(cp) && SpelledGroups(text, cp) && p + |text| <= end <= |c| && At(c, p, text)
    ensures ReadLiteral(c, p, end) == Some(Literal(cp, |text|))
  {
    hide Spells, Hex4, At;
    if cp < 0x10000 {
      GroupIsRead(c, p, text[2..], cp);
    } else {
      PairOf(cp);
      AtConcat(c, p, GroupOf(text[2..6]), GroupOf(text[8..]));
      GroupIsRead(c, p, text[2..6], 0xD800 + (cp - 0x10000) / 0x400);
      GroupIsRead(c, p + 6, text[8..], 0xDC00 + (cp - 0x10000) % 0x400);
    }
  }

  /** U+00E9, U+20AC and U+1F600 in UTF-8, and the last one as a pair. */
  lemma KnownCodePoints()
    ensures Utf8(0x41) == [0x41] && Utf8(0xE9) == [0xC3, 0xA9] && Utf8(0x20AC) == [0xE2, 0x82, 0xAC]
    ensures Utf8(0x1F600) == [0xF0, 0x9F, 0x98, 0x80] && PairValue(0xD83D, 0xDE00) == 0x1F600
  {
    hide Utf8;
    Utf8Bytes(0x41);
    Utf8Bytes(0xE9);
    Utf8Bytes(0x20AC);
    Utf8Bytes(0x1F600);
  }

  /** The characters `\u00E9` are the two bytes of that letter. */
  lemma {:induction false} UpperCaseGroup()
    ensures var chars := [Unicode([48, 48, 69, 57])];
            && WellFormedCharacters(chars) && Paired(chars) && StringMeaning(chars) == [0xC3, 0xA9]
            && StringText(chars) == [QUOTE, BACKSLASH, LETTER_U, 48, 48, 69, 57, QUOTE]
  {
    hide HexValue, Utf8, Spells, CharactersText, CharactersValue, Paired, WellFormedCharacters;
    var hex: Text := [48, 48, 69, 57];
    SpelledE9();
    KnownCodePoints();
    NoCharacters();
    OneCharacter(Unicode(hex), []);
    assert [Unicode(hex)] == [Unicode(hex)] + [];
    assert CharactersText([Unicode(hex)]) == [BACKSLASH, LETTER_U, 48, 48, 69, 57];
    UpToNulOfText([0xC3, 0xA9]);
  }

  lemma SpelledE9()
    ensures var hex: Text := [48, 48, 69, 57]; ValidHex4(hex, 0) && HexValue(hex, 0, 4) == 0xE9
  {
    var hex: Text := [48, 48, 69, 57];
    assert Spells(hex, 0xE9) && At(hex, 0, hex);
    SpelledIsRead(hex, 0, hex, 0xE9);
    hide HexValue;
  }

  /** The document `"\u00E9"` is the two bytes of that letter. */
  lemma {:induction false} UpperCaseIsRead(requireNul: bool)
    ensures var text: Text := [QUOTE, BACKSLASH, LETTER_U, 48, 48, 69, 57, QUOTE];
            ParseDocument(text + [NUL], requireNul) == Ok(JsonTree.String(Chars([0xC3, 0xA9])), |text|)
  {
    hide ParseDocument, StringText, StringMeaning, Paired, WellFormedCharacters;
    UpperCaseGroup();
    GrammarParse.ParseStringDocument([Unicode([48, 48, 69, 57])], requireNul);
  }

  // ---------------------------------------------------------------- short escapes

  /** How each byte is printed. */
  lemma EscapeTable(b: nonzero)
    ensures EscapeByte(b) ==
            if b == 8 then [92, 98]
            else if b == 9 then [92, 116]
            else if b == 10 then [92, 110]
            else if b == 12 then [92, 102]
            else if b == 13 then [92, 114]
            else if b == 34 then [92, 34]
            else if b == 92 then [92, 92]
            else if b >= 32 then [b]
            else [92, 117, 48, 48, LOWER[b / 16], LOWER[b % 16]]
  {
    if b < 32 {
      assert b / 0x1000 == 0 && b / 0x100 % 0x10 == 0 && b / 0x10 % 0x10 == b / 16;
      HexTable(b / 16);
      HexTable(b % 16);
      HexTable(0);
    }
  }

  /** Four bytes that are not all digits count as zero. */
  lemma OtherGroupIsZero(c: seq<byte>, p: nat, k: nat)
    requires p <= k < p + 4 <= |c| && c[k] !in UPPER && c[k] !in LOWER
    ensures Hex4(c, p) == 0
  {
    HexDigitsAreThese(c[k]);
  }

  /** The string `"\uzzzz"` is read as the empty one. */
  lemma {:induction false} OtherGroupIsRead(c: seq<byte>)
    requires c == [34, 92, 117, 122, 122, 122, 122, 34, 0]
    ensures ParseStringSpec(c, 0) == Ok([], 8)
  {
    assert ClosingQuote(c, 6) == Some(7);
    assert ClosingQuote(c, 4) == Some(7);
    assert ClosingQuote(c, 1) == Some(7);
    OtherGroupIsZero(c, 3, 3);
    hide Hex4;
    assert Decode(c, 7, 7) == Good([]);
    assert ReadLiteral(c, 1, 7) == Some(Literal(0, 6));
    assert Utf8(0) == [0];
    assert Decode(c, 1, 7) == Good([0]);
    assert UpToNul([0]) == [];
  }

  /** What the letter behind a backslash stands for, and that no other letter stands for anything. */
  lemma UnescapeTable(letter: byte)
    ensures Unescaped(letter) ==
            if letter == 34 then Some(34)
            else if letter == 92 then Some(92)
            else if letter == 47 then Some(47)
            else if letter == 98 then Some(8)
            else if letter == 102 then Some(12)
            else if letter == 110 then Some(10)
            else if letter == 114 then Some(13)
            else if letter == 116 then Some(9)
            else None
  {
  }

  /** The date 1/2, with its slash, is printed as it is. */
  lemma {:induction false} SlashIsPrinted()
    ensures Quoted([49, 47, 50]) == [34, 49, 47, 50, 34]
  {
    EscapeTable(49);
    EscapeTable(47);
    EscapeTable(50);
    hide EscapeByte;
    assert Escape([50]) == [50];
    assert Escape([47, 50]) == [47, 50];
    assert Escape([49, 47, 50]) == [49, 47, 50];
  }

  // ---------------------------------------------------------------- the shortest text

  /** Bytes outside ASCII are printed as they are. */
  lemma {:induction false} HighBytes(s: Text)
    requires forall k :: 0 <= k < |s| ==> s[k] >= 0x80
    ensures Escape(s) == s
  {
    if s == [] {
    } else {
      EscapeTable(s[0]);
      HighBytes(s[1..]);
      assert s == [s[0]] + s[1..];
    }
  }

  lemma {:induction false} OneByte(b: nonzero)
    ensures Escape([b]) == EscapeByte(b)
  {
    hide EscapeByte;
    assert [b][1..] == [];
  }

  lemma {:induction false} Utf8Shorter(cp: nat, s: Text)
    requires cp <= 0x10FFFF && Utf8(cp) == s
    ensures |Escape(s)| <= if cp < 0x10000 then 6 else 12
  {
    Utf8Bytes(cp);
    hide Utf8, Escape, EscapeByte;
    if cp < 0x80 {
      OneByte(s[0]);
      assert s == [s[0]];
    } else {
      HighBytes(s);
    }
  }

  lemma {:induction false} CharacterShorter(ch: Character, s: Text)
    requires WellFormedCharacter(ch) && CharacterValue(ch) == s
    ensures |Escape(s)| <= |CharacterText(ch)|
  {
    hide Escape, EscapeByte, Utf8, HexValue;
    match ch
    case Plain(b) =>
      EscapeTable(b);
      OneByte(b);
    case Short(letter) =>
      EscapeTable(ShortMeaning(letter).value);
      OneByte(ShortMeaning(letter).value);
    case Unicode(hex) =>
      Utf8Shorter(Unit(ch), s);
  }

  /** What is printed is the shortest text of the grammar for its bytes. */
  lemma {:induction false} EscapeIsShortest(chars: seq<Character>, s: Text)
    requires WellFormedCharacters(chars) && Paired(chars) && CharactersValue(chars) == s
    ensures |Escape(s)| <= |CharactersText(chars)| && |Quoted(s)| <= |StringText(chars)|
    decreases |chars|
  {
    hide Escape, CharacterText, CharacterValue, Utf8, Unit;
    if chars == [] {
      assert Escape([]) == [] by {
        NothingEscaped();
      }
    } else {
      FirstTexts(chars);
      hide CharactersText;
      var pair := StartsWithPair(chars);
      var first := if pair then Utf8(PairValue(Unit(chars[0]), Unit(chars[1]))) else CharacterValue(chars[0]);
      var n := |first|;
      assert s[..n] == first && s[n..] == CharactersValue(if pair then chars[2..] else chars[1..]);
      EscapeSplit(s, n);
      if pair {
        Utf8Shorter(PairValue(Unit(chars[0]), Unit(chars[1])), s[..n]);
        EscapeIsShortest(chars[2..], s[n..]);
      } else {
        CharacterShorter(chars[0], s[..n]);
        EscapeIsShortest(chars[1..], s[n..]);
      }
    }
  }

  lemma {:induction false} NothingEscaped()
    ensures Escape([]) == []
  {
  }
}
