/**
 The string parser takes exactly the literals of the lax grammar.
 */
module LaxStrings {
  import opened Bytes
  import opened Utf16
  import opened StringLiteral
  import opened StringGrammar
  import opened StringDecoding
  import opened LaxGrammar

  /** The search for the closing quote passes a closed text, and stops at the quote behind it. */
  lemma {:induction false} ClosedPasses(c: seq<byte>, p: nat, s: Text)
    requires Closed(s) && At(c, p, s) && p + |s| < |c| && c[p + |s|] == QUOTE
    ensures ClosingQuote(c, p) == Some(p + |s|)
    decreases |s|
  {
    if s == [] {
    } else {
      var n := if s[0] == BACKSLASH then 2 else 1;
      assert s == s[..n] + s[n..];
      AtConcat(c, p, s[..n], s[n..]);
      AtIndex(c, p, s, 0);
      ClosedPasses(c, p + n, s[n..]);
    }
  }

  /** What the search has passed is closed. */
  lemma {:induction false} PassedIsClosed(c: seq<byte>, p: nat, s: Text)
    requires At(c, p, s) && ClosingQuote(c, p) == Some(p + |s|)
    ensures Closed(s)
    decreases |s|
  {
    if s == [] {
    } else {
      AtIndex(c, p, s, 0);
      var n := if s[0] == BACKSLASH then 2 else 1;
      assert |s| >= n;
      assert s == s[..n] + s[n..];
      AtConcat(c, p, s[..n], s[n..]);
      PassedIsClosed(c, p + n, s[n..]);
    }
  }

  /** A group in the text has the value of its four bytes. */
  lemma LaxUnitAt(c: seq<byte>, p: nat, ch: Character)
    requires LaxCharacter(ch) && ch.Unicode? && At(c, p, CharacterText(ch))
    ensures p + 6 <= |c| && c[p] == BACKSLASH && c[p + 1] == LETTER_U && Hex4(c, p + 2) == LaxUnit(ch)
  {
    AtConcat(c, p, [BACKSLASH, LETTER_U], ch.hex);
    AtIndex(c, p, [BACKSLASH, LETTER_U], 0);
    AtIndex(c, p, [BACKSLASH, LETTER_U], 1);
    SameHex(c, p + 2, ch.hex);
  }

  lemma FourDigits(c: seq<byte>, p: nat)
    requires p + 4 <= |c|
    ensures ValidHex4(c, p)
            <==> IsHexDigit(c[p]) && IsHexDigit(c[p + 1]) && IsHexDigit(c[p + 2]) && IsHexDigit(c[p + 3])
  {
  }

  lemma SameHex(c: seq<byte>, p: nat, hex: Text)
    requires |hex| == 4 && At(c, p, hex)
    ensures Hex4(c, p) == Hex4(hex, 0)
  {
    AtIndex(c, p, hex, 0);
    AtIndex(c, p, hex, 1);
    AtIndex(c, p, hex, 2);
    AtIndex(c, p, hex, 3);
    FourDigits(c, p);
    FourDigits(hex, 0);
    if ValidHex4(hex, 0) {
      HexAt(c, p, hex, 4);
    }
  }

  /** These characters stand at `p`, and reach to the closing quote or, with the last letter, behind it. */
  ghost predicate Reach(c: seq<byte>, p: nat, chars: seq<Character>, end: nat) {
    && LaxCharacters(chars) && At(c, p, CharactersText(chars))
    && (p + |CharactersText(chars)| == end
        || (p + |CharactersText(chars)| == end + 1 && (chars == [] || EndsInEscapedQuote(chars))))
  }

  lemma {:induction false} ReachFirst(c: seq<byte>, p: nat, chars: seq<Character>, end: nat)
    requires Reach(c, p, chars, end) && chars != []
    ensures var n := |CharacterText(chars[0])|;
            At(c, p, CharacterText(chars[0])) && Reach(c, p + n, chars[1..], end) && p + n <= end + 1
    ensures p < end && (chars[0].Unicode? || chars[0].Plain? ==> p + |CharacterText(chars[0])| <= end)
  {
    hide At, CharacterText;
    var s, rest := CharacterText(chars[0]), CharactersText(chars[1..]);
    assert CharactersText(chars) == s + rest;
    AtConcat(c, p, s, rest);
    if chars[1..] == [] {
      assert rest == [] && chars[0] == chars[|chars| - 1];
      FirstLength(chars[0]);
    } else {
      assert chars[1..][|chars[1..]| - 1] == chars[|chars| - 1];
      FirstLength(chars[0]);
      LastLength(chars[1..]);
    }
  }

  lemma FirstLength(ch: Character)
    requires LaxCharacter(ch)
    ensures |CharacterText(ch)| == if ch.Plain? then 1 else if ch.Short? then 2 else 6
  {
  }

  lemma {:induction false} LastLength(chars: seq<Character>)
    requires chars != []
    ensures |CharactersText(chars)| >= 1 && (EndsInEscapedQuote(chars) ==> |CharactersText(chars)| >= 2)
  {
    if |chars| == 1 {
    } else {
      LastLength(chars[1..]);
      assert chars[1..][|chars[1..]| - 1] == chars[|chars| - 1];
    }
  }

  /** What the decoder sees behind a group. */
  lemma NextLaxGroup(c: seq<byte>, p: nat, chars: seq<Character>, end: nat)
    requires Reach(c, p, chars, end) && end < |c| && c[end] == QUOTE && p <= end
    ensures GroupAt(c, p, end) <==> chars != [] && chars[0].Unicode?
    ensures GroupAt(c, p, end) ==> Hex4(c, p + 2) == LaxUnit(chars[0])
  {
    if chars == [] {
    } else {
      ReachFirst(c, p, chars, end);
      var s := CharacterText(chars[0]);
      AtIndex(c, p, s, 0);
      match chars[0]
      case Plain(_) =>
      case Short(_) =>
        AtIndex(c, p, s, 1);
      case Unicode(_) =>
        LaxUnitAt(c, p, chars[0]);
    }
  }

  /** The decoder takes these characters for their value. */
  lemma {:induction false} DecodeLax(c: seq<byte>, p: nat, chars: seq<Character>, end: nat)
    requires Reach(c, p, chars, end) && LaxPaired(chars) && end < |c| && c[end] == QUOTE
    ensures p <= end + 1 && Decode(c, p, end) == Good(LaxValue(chars))
    decreases |chars|
  {
    hide At, CharactersText, Hex4, HexValue, Unescaped, ShortMeaning, Utf8;
    if chars == [] {
      NoCharacters();
    } else {
      ReachFirst(c, p, chars, end);
      var s := CharacterText(chars[0]);
      AtIndex(c, p, s, 0);
      match chars[0]
      case Plain(_) =>
        DecodeLax(c, p + 1, chars[1..], end);
      case Short(letter) =>
        AtIndex(c, p, s, 1);
        ShortEscapes(letter);
        DecodeLax(c, p + 2, chars[1..], end);
      case Unicode(_) =>
        LaxUnitAt(c, p, chars[0]);
        NextLaxGroup(c, p + 6, chars[1..], end);
        DecodeUnit(c, p, end, LaxUnit(chars[0]));
        if StartsWithLaxPair(chars) {
          ReachFirst(c, p + 6, chars[1..], end);
          assert chars[1..][1..] == chars[2..];
          DecodeLax(c, p + 12, chars[2..], end);
        } else {
          DecodeLax(c, p + 6, chars[1..], end);
        }
    }
  }

  // ---------------------------------------------------------------- the characters that the decoder has taken

  /** The characters fit the decoder's answer. */
  ghost predicate Taken(c: seq<byte>, p: nat, chars: seq<Character>, end: nat)
    requires p <= end + 1 && end < |c|
  {
    Reach(c, p, chars, end) && LaxPaired(chars) && Decode(c, p, end) == Good(LaxValue(chars))
  }

  lemma {:induction false} ReachMore(c: seq<byte>, p: nat, ch: Character, rest: seq<Character>, end: nat)
    requires LaxCharacter(ch) && At(c, p, CharacterText(ch)) && Reach(c, p + |CharacterText(ch)|, rest, end)
    requires p + |CharacterText(ch)| <= end + 1 && (p + |CharacterText(ch)| == end + 1 ==> ch == Short(QUOTE))
    ensures Reach(c, p, [ch] + rest, end)
  {
    hide At, LaxCharacter, CharacterText, CharactersText;
    var chars := [ch] + rest;
    assert chars[1..] == rest;
    FirstText(chars);
    AtConcat(c, p, CharacterText(ch), CharactersText(rest));
    assert rest != [] ==> chars[|chars| - 1] == rest[|rest| - 1];
    if rest == [] {
      NoCharacters();
    } else {
      LastLength(rest);
    }
  }

  /** One more character in front, which is not half of a pair. */
  lemma {:induction false} OneMore(c: seq<byte>, p: nat, ch: Character, rest: seq<Character>, end: nat)
    requires end < |c| && LaxCharacter(ch) && !LaxSurrogate(ch) && At(c, p, CharacterText(ch))
    requires p + |CharacterText(ch)| <= end + 1 && Taken(c, p + |CharacterText(ch)|, rest, end)
    requires p + |CharacterText(ch)| == end + 1 ==> ch == Short(QUOTE)
    requires Decode(c, p, end) == Prepend(OneLaxValue(ch), Decode(c, p + |CharacterText(ch)|, end))
    ensures Taken(c, p, [ch] + rest, end)
  {
    assert LaxCharacters(rest);
    hide At, Reach, Decode, LaxCharacter, OneLaxValue, CharacterText, LaxUnit;
    assert ([ch] + rest)[1..] == rest;
    ReachMore(c, p, ch, rest, end);
  }

  lemma {:induction false} FirstText(chars: seq<Character>)
    requires chars != []
    ensures CharactersText(chars) == CharacterText(chars[0]) + CharactersText(chars[1..])
  {
  }

  lemma {:induction false} PairLax(high: Character, low: Character, rest: seq<Character>)
    requires LaxCharacter(high) && LaxCharacter(low) && high.Unicode? && low.Unicode?
    requires LaxCharacters(rest) && LaxPaired(rest)
    requires IsHighSurrogate(LaxUnit(high)) && IsLowSurrogate(LaxUnit(low))
    ensures var chars := [high, low] + rest;
            && LaxCharacters(chars) && LaxPaired(chars)
            && LaxValue(chars) == Utf8(PairValue(LaxUnit(high), LaxUnit(low))) + LaxValue(rest)
  {
    hide LaxUnit, Utf8, LaxCharacter;
    assert ([high, low] + rest)[2..] == rest;
  }

  lemma {:induction false} PairMore(c: seq<byte>, p: nat, high: Character, low: Character, rest: seq<Character>,
                                    end: nat)
    requires end < |c| && LaxCharacter(high) && LaxCharacter(low) && high.Unicode? && low.Unicode?
    requires IsHighSurrogate(LaxUnit(high)) && IsLowSurrogate(LaxUnit(low))
    requires p + 12 <= end && At(c, p, CharacterText(high)) && At(c, p + 6, CharacterText(low))
    requires Taken(c, p + 12, rest, end)
    requires Decode(c, p, end) == Prepend(Utf8(PairValue(LaxUnit(high), LaxUnit(low))), Decode(c, p + 12, end))
    ensures Taken(c, p, [high, low] + rest, end)
  {
    assert Reach(c, p + 12, rest, end) && LaxCharacters(rest);
    hide At, Reach, Decode, CharacterText, LaxUnit, Utf8, LaxCharacters, LaxPaired, LaxValue;
    PairLax(high, low, rest);
    FirstLength(high);
    FirstLength(low);
    ReachMore(c, p + 6, low, rest, end);
    ReachMore(c, p, high, [low] + rest, end);
    assert [high] + ([low] + rest) == [high, low] + rest;
  }

  /** The group at `p`, as a character. */
  lemma GroupCharacter(c: seq<byte>, p: nat) returns (ch: Character)
    requires p + 6 <= |c| && c[p] == BACKSLASH && c[p + 1] == LETTER_U && forall k :: p <= k < p + 6 ==> c[k] != NUL
    ensures ch.Unicode? && LaxCharacter(ch) && At(c, p, CharacterText(ch)) && LaxUnit(ch) == Hex4(c, p + 2)
  {
    var hex: Text := [c[p + 2], c[p + 3], c[p + 4], c[p + 5]];
    ch := Unicode(hex);
    assert c[p..p + 6] == [BACKSLASH, LETTER_U] + hex;
    assert c[p + 2..p + 6] == hex;
    SameHex(c, p + 2, hex);
  }

  /** What the decoder has accepted are characters of the lax grammar. */
  lemma {:induction false} ExtractCharacters(c: seq<byte>, p: nat, end: nat) returns (chars: seq<Character>)
    requires p <= end + 1 && end < |c| && c[end] == QUOTE && (forall k :: p <= k < end ==> c[k] != NUL)
    requires Decode(c, p, end).Good?
    ensures Taken(c, p, chars, end)
    decreases end + 1 - p
  {
    hide Hex4, HexValue, Unescaped, ShortMeaning, Utf8, Taken, LaxUnit;
    if p >= end {
      chars := [];
      NothingTaken(c, p, end);
    } else if c[p] != BACKSLASH {
      chars := ExtractCharacters(c, p + 1, end);
      assert At(c, p, [c[p]]);
      OneMore(c, p, Plain(c[p]), chars, end);
      chars := [Plain(c[p])] + chars;
    } else if Unescaped(c[p + 1]).Some? {
      var letter: nonzero := c[p + 1];
      ShortEscapes(letter);
      chars := ExtractCharacters(c, p + 2, end);
      assert c[p..p + 2] == [BACKSLASH, letter];
      OneMore(c, p, Short(letter), chars, end);
      chars := [Short(letter)] + chars;
    } else {
      var l := ReadLiteral(c, p, end).value;
      var high := GroupCharacter(c, p);
      FirstLength(high);
      chars := ExtractCharacters(c, p + l.length, end);
      if l.length == 6 {
        OneMore(c, p, high, chars, end);
        chars := [high] + chars;
      } else {
        var low := GroupCharacter(c, p + 6);
        PairMore(c, p, high, low, chars, end);
        chars := [high, low] + chars;
      }
    }
  }

  lemma {:induction false} NothingTaken(c: seq<byte>, p: nat, end: nat)
    requires end <= p <= end + 1 && end < |c|
    ensures Taken(c, p, [], end)
  {
    assert c[p..p] == [];
  }

  // ---------------------------------------------------------------- literals

  lemma {:induction false} ParseLaxString(c: seq<byte>, off: nat, body: Text, chars: seq<Character>)
    requires LaxLiteral(body, chars) && At(c, off, Enclosed(body))
    ensures off < |c| && c[off] == QUOTE
    ensures ParseStringSpec(c, off) == Ok(UpToNul(LaxValue(chars)), off + |Enclosed(body)|)
  {
    hide At, Decode, ClosingQuote, Closed, CharactersText, LaxPaired, LaxValue, LaxCharacters;
    var end := off + 1 + |body|;
    AtConcat3(c, off, [QUOTE], body, [QUOTE]);
    AtConcat(c, off + 1, body, [QUOTE]);
    AtIndex(c, off, [QUOTE], 0);
    AtIndex(c, end, [QUOTE], 0);
    ClosedPasses(c, off + 1, body);
    DecodeLax(c, off + 1, chars, end);
  }

  lemma {:induction false} ExtractString(c: seq<byte>, off: nat) returns (body: Text, chars: seq<Character>)
    requires off < |c| && ParseStringSpec(c, off).Ok?
    requires forall k :: off <= k < ParseStringSpec(c, off).offset ==> c[k] != NUL
    ensures LaxLiteral(body, chars) && At(c, off, Enclosed(body))
    ensures ParseStringSpec(c, off) == Ok(UpToNul(LaxValue(chars)), off + |Enclosed(body)|)
  {
    hide Decode, ClosingQuote, Closed, CharactersText, LaxPaired, LaxValue, LaxCharacters, UpToNul;
    var end := ClosingQuote(c, off + 1).value;
    var s := c[off + 1..end];
    assert forall k :: 0 <= k < |s| ==> s[k] != NUL;
    body := NoNulText(s);
    chars := ExtractCharacters(c, off + 1, end);
    PassedIsClosed(c, off + 1, body);
    TakenIsLiteral(c, off + 1, body, chars);
    EnclosedAt(c, off, body);
  }

  lemma EnclosedAt(c: seq<byte>, off: nat, body: Text)
    requires At(c, off + 1, body) && c[off] == QUOTE && off + 1 + |body| < |c| && c[off + 1 + |body|] == QUOTE
    ensures At(c, off, Enclosed(body))
  {
    var end := off + 1 + |body|;
    assert c[off..end + 1] == [c[off]] + c[off + 1..end] + [c[end]];
  }

  lemma {:induction false} TakenIsLiteral(c: seq<byte>, p: nat, body: Text, chars: seq<Character>)
    requires At(c, p, body) && p + |body| < |c| && c[p + |body|] == QUOTE && Closed(body)
    requires Reach(c, p, chars, p + |body|) && LaxPaired(chars)
    ensures LaxLiteral(body, chars)
  {
    hide CharactersText, Closed, LaxCharacters, LaxPaired;
    NoCharacters();
    var end := p + |body|;
    assert c[p..end + 1] == body + [QUOTE];
  }

  function NoNulText(s: seq<byte>): (t: Text)
    requires forall k :: 0 <= k < |s| ==> s[k] != NUL
    ensures t == s
  {
    UpToNulOfBytes(s);
    UpToNul(s)
  }

  lemma {:induction false} UpToNulOfBytes(s: seq<byte>)
    requires forall k :: 0 <= k < |s| ==> s[k] != NUL
    ensures UpToNul(s) == s
  {
    if |UpToNul(s)| < |s| {
      assert s[|UpToNul(s)|] == NUL;
    }
  }
}
