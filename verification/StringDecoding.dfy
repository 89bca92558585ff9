/**
 How the decoder takes the string literals of the grammar, and that it undoes escaping.
 */
module StringDecoding {
  import opened Bytes
  import opened Utf16
  import opened StringLiteral
  import opened StringGrammar
  import StringParser

  /** The decoder's table is that of the grammar. */
  lemma ShortEscapes(letter: nonzero)
    ensures Unescaped(letter) == ShortMeaning(letter)
  {
  }

  lemma {:induction false} HexAt(c: seq<byte>, p: nat, hex: Text, n: nat)
    requires At(c, p, hex) && n <= |hex| && forall k :: 0 <= k < |hex| ==> IsHexDigit(hex[k])
    ensures forall k :: p <= k < p + n ==> IsHexDigit(c[k])
    ensures HexValue(c, p, n) == HexValue(hex, 0, n)
  {
    forall k | p <= k < p + |hex| ensures c[k] == hex[k - p] {
      AtIndex(c, p, hex, k - p);
    }
    if n == 0 {
    } else {
      HexAt(c, p, hex, n - 1);
    }
  }

  /** A `\u` escape in the text is a group with the value of its digits. */
  lemma UnitAt(c: seq<byte>, p: nat, ch: Character)
    requires WellFormedCharacter(ch) && ch.Unicode? && At(c, p, CharacterText(ch))
    ensures p + 6 <= |c| && c[p] == BACKSLASH && c[p + 1] == LETTER_U && Hex4(c, p + 2) == Unit(ch)
    ensures forall k :: p + 2 <= k < p + 6 ==> c[k] != QUOTE && c[k] != BACKSLASH
  {
    AtConcat(c, p, [BACKSLASH, LETTER_U], ch.hex);
    AtIndex(c, p, [BACKSLASH, LETTER_U], 0);
    AtIndex(c, p, [BACKSLASH, LETTER_U], 1);
    HexAt(c, p + 2, ch.hex, 4);
  }

  /** The search for the closing quote passes a character as a whole. */
  lemma QuotePasses(c: seq<byte>, p: nat, ch: Character)
    requires WellFormedCharacter(ch) && At(c, p, CharacterText(ch))
    ensures ClosingQuote(c, p) == ClosingQuote(c, p + |CharacterText(ch)|)
  {
    var s := CharacterText(ch);
    AtIndex(c, p, s, 0);
    match ch
    case Plain(_) =>
    case Short(_) =>
      AtIndex(c, p, s, 1);
    case Unicode(_) =>
      UnitAt(c, p, ch);
      assert ClosingQuote(c, p + 2) == ClosingQuote(c, p + 3);
      assert ClosingQuote(c, p + 4) == ClosingQuote(c, p + 5);
  }

  /** What the decoder sees behind a `\u` escape: a group if and only if the next character is one. */
  lemma {:induction false} NextGroup(c: seq<byte>, p: nat, chars: seq<Character>, end: nat)
    requires WellFormedCharacters(chars) && At(c, p, CharactersText(chars)) && p + |CharactersText(chars)| == end < |c|
    ensures GroupAt(c, p, end) <==> chars != [] && chars[0].Unicode?
    ensures GroupAt(c, p, end) ==> Hex4(c, p + 2) == Unit(chars[0])
  {
    if chars != [] {
      var s := CharacterText(chars[0]);
      AtConcat(c, p, s, CharactersText(chars[1..]));
      AtIndex(c, p, s, 0);
      match chars[0]
      case Plain(_) =>
      case Short(_) =>
        AtIndex(c, p, s, 1);
      case Unicode(_) =>
        UnitAt(c, p, chars[0]);
    }
  }

  /** What the decoder makes of a `\u` escape, given what follows it. */
  lemma DecodeUnit(c: seq<byte>, p: nat, end: nat, u: nat)
    requires p + 6 <= end < |c| && c[p] == BACKSLASH && c[p + 1] == LETTER_U && Hex4(c, p + 2) == u
    ensures var paired := IsHighSurrogate(u) && GroupAt(c, p + 6, end) && IsLowSurrogate(Hex4(c, p + 8));
            if paired then Decode(c, p, end) == Prepend(Utf8(PairValue(u, Hex4(c, p + 8))), Decode(c, p + 12, end))
            else if IsHighSurrogate(u) || IsLowSurrogate(u) then Decode(c, p, end).Bad?
            else Decode(c, p, end) == Prepend(Utf8(u), Decode(c, p + 6, end))
  {
    hide Hex4;
    assert Unescaped(LETTER_U).None?;
  }

  /** The texts of the first characters. */
  lemma {:induction false} FirstTexts(chars: seq<Character>)
    requires WellFormedCharacters(chars) && chars != []
    ensures CharactersText(chars) == CharacterText(chars[0]) + CharactersText(chars[1..])
    ensures chars[0].Unicode? ==> |CharacterText(chars[0])| == 6
    ensures StartsWithPair(chars) ==>
              |CharacterText(chars[1])| == 6 && |CharactersText(chars[1..])| == 6 + |CharactersText(chars[2..])|
  {
    if StartsWithPair(chars) {
      assert chars[1..][1..] == chars[2..];
    }
  }

  /** One step of the decoder: a pair, one character, or a surrogate without a partner. */
  lemma DecodeCharacter(c: seq<byte>, p: nat, chars: seq<Character>, end: nat)
    requires WellFormedCharacters(chars) && chars != []
    requires At(c, p, CharactersText(chars)) && p + |CharactersText(chars)| == end < |c|
    ensures p + |CharacterText(chars[0])| <= end && (StartsWithPair(chars) ==> p + 12 <= end)
    ensures if StartsWithPair(chars) then
              Decode(c, p, end) == Prepend(Utf8(PairValue(Unit(chars[0]), Unit(chars[1]))), Decode(c, p + 12, end))
            else if chars[0].Unicode? && (IsHighSurrogate(Unit(chars[0])) || IsLowSurrogate(Unit(chars[0]))) then
              Decode(c, p, end).Bad?
            else
              Decode(c, p, end) == Prepend(CharacterValue(chars[0]), Decode(c, p + |CharacterText(chars[0])|, end))
  {
    hide At, CharactersText, Hex4, HexValue, Unescaped, ShortMeaning;
    FirstTexts(chars);
    var s, rest := CharacterText(chars[0]), CharactersText(chars[1..]);
    AtConcat(c, p, s, rest);
    AtIndex(c, p, s, 0);
    match chars[0]
    case Plain(_) =>
    case Short(letter) =>
      AtIndex(c, p, s, 1);
      ShortEscapes(letter);
    case Unicode(_) =>
      UnitAt(c, p, chars[0]);
      NextGroup(c, p + 6, chars[1..], end);
      DecodeUnit(c, p, end, Unit(chars[0]));
  }

  /** Every literal of the grammar ends where it should, and is decoded exactly if its surrogates are paired. */
  lemma {:induction false} DecodeCharacters(c: seq<byte>, p: nat, chars: seq<Character>, end: nat)
    requires WellFormedCharacters(chars)
    requires At(c, p, CharactersText(chars)) && end == p + |CharactersText(chars)| < |c| && c[end] == QUOTE
    ensures ClosingQuote(c, p) == Some(end)
    ensures if Paired(chars) then Decode(c, p, end) == Good(CharactersValue(chars)) else Decode(c, p, end).Bad?
    decreases |chars|
  {
    hide At, CharacterText, CharactersText, CharacterValue, Utf8, Unit, Decode, ClosingQuote;
    if chars == [] {
      NoCharacters();
      NothingLeft(c, p);
    } else {
      var s := CharacterText(chars[0]);
      RestAt(c, p, chars);
      QuotePasses(c, p, chars[0]);
      DecodeCharacter(c, p, chars, end);
      DecodeCharacters(c, p + |s|, chars[1..], end);
      if StartsWithPair(chars) {
        FirstTexts(chars);
        assert chars[1..][1..] == chars[2..];
        RestAt(c, p + 6, chars[1..]);
        DecodeCharacters(c, p + 12, chars[2..], end);
      }
    }
  }

  /** The first character stands there, and the others behind it. */
  lemma {:induction false} RestAt(c: seq<byte>, p: nat, chars: seq<Character>)
    requires chars != [] && At(c, p, CharactersText(chars))
    ensures var s, rest := CharacterText(chars[0]), CharactersText(chars[1..]);
            At(c, p, s) && At(c, p + |s|, rest) && |CharactersText(chars)| == |s| + |rest|
  {
    hide At, CharacterText;
    AtConcat(c, p, CharacterText(chars[0]), CharactersText(chars[1..]));
  }

  lemma {:induction false} NothingLeft(c: seq<byte>, p: nat)
    requires p < |c| && c[p] == QUOTE
    ensures Decode(c, p, p) == Good([]) && ClosingQuote(c, p) == Some(p)
  {
  }

  /** A literal is accepted exactly if its surrogates are paired; its value is what a C string shows of it. */
  lemma {:induction false} ParseStringText(c: seq<byte>, off: nat, chars: seq<Character>)
    requires WellFormedCharacters(chars) && At(c, off, StringText(chars))
    ensures off < |c|
    ensures if Paired(chars) then
              ParseStringSpec(c, off) == Ok(StringMeaning(chars), off + |StringText(chars)|)
            else ParseStringSpec(c, off).Fail?
  {
    hide At, CharactersText;
    AtConcat3(c, off, [QUOTE], CharactersText(chars), [QUOTE]);
    AtIndex(c, off, [QUOTE], 0);
    AtIndex(c, off + 1 + |CharactersText(chars)|, [QUOTE], 0);
    DecodeCharacters(c, off + 1, chars, off + 1 + |CharactersText(chars)|);
  }

  // ---------------------------------------------------------------- decoding undoes escaping

  /** How the printer writes a byte. */
  function CharacterOf(b: nonzero): (ch: Character)
    ensures WellFormedCharacter(ch) && CharacterText(ch) == EscapeByte(b) && CharacterValue(ch) == [b]
    ensures ch.Unicode? ==> Unit(ch) == b < 32
  {
    if ShortEscape(b).Some? then Short(ShortEscape(b).value)
    else if b < 32 then
      ControlGroup(b);
      Unicode(Group(b)[2..])
    else Plain(b)
  }

  lemma ControlGroup(b: nonzero)
    requires b < 32
    ensures |Group(b)| == 6 && Group(b) == [BACKSLASH, LETTER_U] + Group(b)[2..]
    ensures ValidHex4(Group(b)[2..], 0) && HexValue(Group(b)[2..], 0, 4) == b && Utf8(b) == [b]
  {
    GroupReadsBack(Group(b), 0, b);
    HexAt(Group(b), 2, Group(b)[2..], 4);
  }

  function CharactersOf(s: Text): (chars: seq<Character>)
    ensures |chars| == |s| && forall k :: 0 <= k < |s| ==> chars[k] == CharacterOf(s[k])
  {
    seq(|s|, k requires 0 <= k < |s| => CharacterOf(s[k]))
  }

  /** The escaped form of a text is in the grammar, and means the text. */
  lemma {:induction false} EscapedText(s: Text)
    ensures var chars := CharactersOf(s);
            && WellFormedCharacters(chars) && Paired(chars)
            && CharactersText(chars) == Escape(s) && StringText(chars) == Quoted(s) && CharactersValue(chars) == s
  {
    hide EscapeByte, CharacterText, CharacterValue, CharacterOf, WellFormedCharacter;
    if s == [] {
    } else {
      EscapedText(s[1..]);
      assert CharactersOf(s)[1..] == CharactersOf(s[1..]);
      assert s == [s[0]] + s[1..];
    }
  }

  /** Reading back an escaped text finds its closing quote and gives the text. */
  lemma {:induction false} DecodeEscaped(c: seq<byte>, p: nat, s: Text, end: nat)
    requires At(c, p, Escape(s)) && end == p + |Escape(s)| < |c| && c[end] == QUOTE
    ensures ClosingQuote(c, p) == Some(end)
    ensures Decode(c, p, end) == Good(s)
  {
    EscapedText(s);
    DecodeCharacters(c, p, CharactersOf(s), end);
  }

  /** Unescaping undoes escaping, for every C string. */
  lemma ParseStringUndoesQuoted(c: seq<byte>, off: nat, s: Text)
    requires At(c, off, Quoted(s))
    ensures off < |c| && ParseStringSpec(c, off) == Ok(s, off + |Quoted(s)|)
  {
    EscapedText(s);
    ParseStringText(c, off, CharactersOf(s));
    UpToNulOfText(s);
  }

  // ---------------------------------------------------------------- the first pass

  /** The characters of a literal that are written with a backslash. */
  function Escapes(chars: seq<Character>): (n: nat)
    ensures n <= |chars|
  {
    if chars == [] then 0 else (if chars[0].Plain? then 0 else 1) + Escapes(chars[1..])
  }

  lemma SkippedCharacter(c: seq<byte>, start: nat, p: nat, ch: Character)
    requires start <= p && WellFormedCharacter(ch) && At(c, p, CharacterText(ch)) && Aligned(c, start, p)
    ensures var q := p + |CharacterText(ch)|;
            && q <= |c| && Aligned(c, start, q)
            && Skipped(c, start, q) == Skipped(c, start, p) + if ch.Plain? then 0 else 1
  {
    var s := CharacterText(ch);
    AtIndex(c, p, s, 0);
    match ch
    case Plain(_) =>
    case Short(_) =>
      AtIndex(c, p, s, 1);
    case Unicode(_) =>
      UnitAt(c, p, ch);
      assert Aligned(c, start, p + 2) && Skipped(c, start, p + 2) == Skipped(c, start, p) + 1;
      assert Aligned(c, start, p + 4) && Skipped(c, start, p + 4) == Skipped(c, start, p + 2);
  }

  lemma {:induction false} SkippedCharacters(c: seq<byte>, start: nat, p: nat, chars: seq<Character>)
    requires start <= p && WellFormedCharacters(chars) && At(c, p, CharactersText(chars)) && Aligned(c, start, p)
    ensures var q := p + |CharactersText(chars)|;
            && q <= |c| && Aligned(c, start, q)
            && Skipped(c, start, q) == Skipped(c, start, p) + Escapes(chars)
    decreases chars
  {
    hide At, Aligned, Skipped, CharacterText, WellFormedCharacter;
    if chars == [] {
      NothingAt(c, p);
    } else {
      AtConcat(c, p, CharacterText(chars[0]), CharactersText(chars[1..]));
      SkippedCharacter(c, start, p, chars[0]);
      SkippedCharacters(c, start, p + |CharacterText(chars[0])|, chars[1..]);
    }
  }

  lemma NothingAt(c: seq<byte>, p: nat)
    requires At(c, p, [])
    ensures p <= |c|
  {
  }

  /** The block for a literal has a byte for each byte between its quotes, less one for each escape, and two more. */
  lemma {:induction false} BlockForLiteral(c: seq<byte>, off: nat, chars: seq<Character>)
    requires WellFormedCharacters(chars) && At(c, off, StringText(chars))
    ensures var end := off + 1 + |CharactersText(chars)|;
            && end < |c| && Skipped(c, off + 1, end) == Escapes(chars) <= end - off
            && StringParser.AllocationSize(off, end, Escapes(chars)) == |CharactersText(chars)| - Escapes(chars) + 2
  {
    hide At, CharactersText, Skipped, WellFormedCharacters;
    AtConcat3(c, off, [QUOTE], CharactersText(chars), [QUOTE]);
    SkippedFromStart(c, off + 1);
    SkippedCharacters(c, off + 1, off + 1, chars);
  }

  lemma {:induction false} SkippedFromStart(c: seq<byte>, start: nat)
    requires start <= |c|
    ensures Aligned(c, start, start) && Skipped(c, start, start) == 0
  {
  }
}
