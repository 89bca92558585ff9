/**
 The string literals of section 7 of RFC 8259, with what their characters mean.
 */
module StringGrammar {
  import opened Bytes
  import opened Utf16

  /** One character as it is written; a code point above 0xFFFF takes two of the last kind. */
  datatype Character =
    | Plain(b: nonzero)
    | Short(letter: nonzero)
    | Unicode(hex: Text)

  /** Bytes that stand for themselves: all but quotes, backslashes and control characters. */
  predicate IsUnescaped(b: nonzero) {
    b >= 32 && b != QUOTE && b != BACKSLASH
  }

  /** What the short escapes stand for: b, f, n, r and t for control characters, three others for themselves. */
  function ShortMeaning(letter: nonzero): Option<nonzero> {
    match letter
    case 34 => Some(QUOTE)
    case 92 => Some(BACKSLASH)
    case 47 => Some(SLASH)
    case 98 => Some(8)
    case 102 => Some(12)
    case 110 => Some(NEWLINE)
    case 114 => Some(RETURN)
    case 116 => Some(TAB)
    case _ => None
  }

  predicate WellFormedCharacter(ch: Character) {
    match ch
    case Plain(b) => IsUnescaped(b)
    case Short(letter) => ShortMeaning(letter).Some?
    case Unicode(hex) => |hex| == 4 && ValidHex4(hex, 0)
  }

  predicate WellFormedCharacters(chars: seq<Character>) {
    forall k :: 0 <= k < |chars| ==> WellFormedCharacter(chars[k])
  }

  function CharacterText(ch: Character): (s: Text)
    ensures |s| > 0
  {
    match ch
    case Plain(b) => [b]
    case Short(letter) => [BACKSLASH, letter]
    case Unicode(hex) => [BACKSLASH, LETTER_U] + hex
  }

  function CharactersText(chars: seq<Character>): Text {
    if chars == [] then [] else CharacterText(chars[0]) + CharactersText(chars[1..])
  }

  function StringText(chars: seq<Character>): Text {
    [QUOTE] + CharactersText(chars) + [QUOTE]
  }

  /** The UTF-16 code unit of a `\u` escape. */
  function Unit(ch: Character): nat
    requires WellFormedCharacter(ch) && ch.Unicode?
  {
    HexValue(ch.hex, 0, 4)
  }

  /** The first two characters are a surrogate pair. */
  predicate StartsWithPair(chars: seq<Character>)
    requires WellFormedCharacters(chars)
  {
    |chars| >= 2 && chars[0].Unicode? && chars[1].Unicode? && IsHighSurrogate(Unit(chars[0]))
      && IsLowSurrogate(Unit(chars[1]))
  }

  /** Surrogates occur in pairs only; without a partner a surrogate means nothing. */
  predicate Paired(chars: seq<Character>)
    requires WellFormedCharacters(chars)
  {
    if chars == [] then true
    else if StartsWithPair(chars) then Paired(chars[2..])
    else if chars[0].Unicode? && (IsHighSurrogate(Unit(chars[0])) || IsLowSurrogate(Unit(chars[0]))) then false
    else Paired(chars[1..])
  }

  /** The bytes of the string in UTF-8. */
  function CharactersValue(chars: seq<Character>): seq<byte>
    requires WellFormedCharacters(chars) && Paired(chars)
  {
    if chars == [] then []
    else if StartsWithPair(chars) then Utf8(PairValue(Unit(chars[0]), Unit(chars[1]))) + CharactersValue(chars[2..])
    else CharacterValue(chars[0]) + CharactersValue(chars[1..])
  }

  /** The bytes of a character that is not half of a pair. */
  function CharacterValue(ch: Character): seq<byte>
    requires WellFormedCharacter(ch)
  {
    match ch
    case Plain(b) => [b]
    case Short(letter) => [ShortMeaning(letter).value]
    case Unicode(hex) => Utf8(HexValue(hex, 0, 4))
  }

  /** The character U+0000, which only a `\u` escape can write. */
  predicate IsEscapedNul(ch: Character)
    requires WellFormedCharacter(ch)
  {
    ch.Unicode? && Unit(ch) == 0
  }

  predicate HasEscapedNul(chars: seq<Character>)
    requires WellFormedCharacters(chars)
  {
    exists k :: 0 <= k < |chars| && IsEscapedNul(chars[k])
  }

  /** What a C string can show of the bytes: those in front of the first NUL. */
  function StringMeaning(chars: seq<Character>): Text
    requires WellFormedCharacters(chars) && Paired(chars)
  {
    UpToNul(CharactersValue(chars))
  }

  // ---------------------------------------------------------------- characters one by one

  lemma {:induction false} NoCharacters()
    ensures WellFormedCharacters([]) && Paired([]) && CharactersText([]) == [] && CharactersValue([]) == []
  {
  }

  /** One more character in front, which is not half of a surrogate pair. */
  lemma {:induction false} OneCharacter(ch: Character, rest: seq<Character>)
    requires WellFormedCharacter(ch) && WellFormedCharacters(rest) && Paired(rest)
    requires ch.Unicode? ==> !IsHighSurrogate(Unit(ch)) && !IsLowSurrogate(Unit(ch))
    ensures var chars := [ch] + rest;
            && WellFormedCharacters(chars) && Paired(chars)
            && CharactersText(chars) == CharacterText(ch) + CharactersText(rest)
            && CharactersValue(chars) == CharacterValue(ch) + CharactersValue(rest)
  {
    hide WellFormedCharacter, CharacterText, CharacterValue, Unit;
    assert ([ch] + rest)[1..] == rest;
  }

  lemma PlainCharacter(b: nonzero)
    requires IsUnescaped(b)
    ensures WellFormedCharacter(Plain(b)) && CharacterText(Plain(b)) == [b] && CharacterValue(Plain(b)) == [b]
  {
  }

  /** A text without quotes, backslashes and control characters stands for itself. */
  function PlainCharacters(s: Text): (chars: seq<Character>) {
    seq(|s|, k requires 0 <= k < |s| => Plain(s[k]))
  }

  lemma {:induction false} PlainText(s: Text)
    requires forall k :: 0 <= k < |s| ==> IsUnescaped(s[k])
    ensures var chars := PlainCharacters(s);
            && WellFormedCharacters(chars) && Paired(chars) && CharactersText(chars) == s && CharactersValue(chars) == s
            && StringMeaning(chars) == s
  {
    hide CharactersText, CharactersValue, Paired;
    UpToNulOfText(s);
    if s == [] {
      NoCharacters();
      assert PlainCharacters(s) == [];
    } else {
      PlainText(s[1..]);
      OneCharacter(Plain(s[0]), PlainCharacters(s[1..]));
      assert PlainCharacters(s) == [Plain(s[0])] + PlainCharacters(s[1..]) && s == [s[0]] + s[1..];
    }
  }
}
