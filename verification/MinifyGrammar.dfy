/**
 Minifying a document of the grammar, perhaps with comments among its blanks: without a string that ends in an
 escaped backslash, it removes blanks and comments between the tokens and nothing else, and the meaning stays.
 */
module MinifyGrammar {
  import opened Bytes
  import opened JsonTree
  import opened ParseSpec
  import opened StringGrammar
  import opened NumeralGrammar
  import opened Grammar
  import opened Minify
  import opened MinifyPrinted
  import Decimal
  import GrammarParse

  /** The last character of a literal is a backslash, written with a backslash. */
  predicate EndsInEscapedBackslash(chars: seq<Character>) {
    chars != [] && chars[|chars| - 1] == Short(BACKSLASH)
  }

  /** No string and no name of the value ends so. */
  predicate NoFinalBackslash(v: Syntax) {
    match v
    case StringWord(chars) => !EndsInEscapedBackslash(chars)
    case ArrayWord(_, elements) => ElementsNoFinal(elements)
    case ObjectWord(_, pairs) => PairsNoFinal(pairs)
    case _ => true
  }

  predicate ElementsNoFinal(es: seq<Element>) {
    es != [] ==> NoFinalBackslash(es[0].value) && ElementsNoFinal(es[1..])
  }

  predicate PairsNoFinal(ps: seq<Pair>) {
    ps != [] ==> !EndsInEscapedBackslash(ps[0].key) && NoFinalBackslash(ps[0].value) && PairsNoFinal(ps[1..])
  }

  /** The same value written without blanks. */
  function Compact(v: Syntax): Syntax {
    match v
    case ArrayWord(_, elements) => ArrayWord([], CompactElements(elements))
    case ObjectWord(_, pairs) => ObjectWord([], CompactPairs(pairs))
    case _ => v
  }

  function CompactElements(es: seq<Element>): (r: seq<Element>)
    ensures |r| == |es|
  {
    if es == [] then [] else [Element([], Compact(es[0].value), [])] + CompactElements(es[1..])
  }

  function CompactPairs(ps: seq<Pair>): (r: seq<Pair>)
    ensures |r| == |ps|
  {
    if ps == [] then [] else [Pair([], ps[0].key, [], [], Compact(ps[0].value), [])] + CompactPairs(ps[1..])
  }

  /** All that the parser looks at is the same in two values. */
  ghost predicate Alike(v: Syntax, w: Syntax) {
    && (WellFormed(v) ==>
          && WellFormed(w) && Depth(w) == Depth(v) && (AllPaired(w) <==> AllPaired(v))
          && (ShortNumerals(w) <==> ShortNumerals(v)) && (AllPaired(v) ==> Meaning(w) == Meaning(v)))
    && (v.NumberWord? <==> w.NumberWord?) && (v.NumberWord? ==> w == v)
  }

  ghost predicate ElementsAlike(es: seq<Element>, fs: seq<Element>) {
    WellFormedElements(es) ==>
      && WellFormedElements(fs) && ElementsDepth(fs) == ElementsDepth(es)
      && (ElementsPaired(fs) <==> ElementsPaired(es)) && (ElementsShort(fs) <==> ElementsShort(es))
      && (ElementsPaired(es) ==> ElementsMeaning(fs) == ElementsMeaning(es))
  }

  ghost predicate PairsAlike(ps: seq<Pair>, qs: seq<Pair>) {
    WellFormedPairs(ps) ==>
      && WellFormedPairs(qs) && PairsDepth(qs) == PairsDepth(ps)
      && (PairsPaired(qs) <==> PairsPaired(ps)) && (PairsShort(qs) <==> PairsShort(ps))
      && (PairsPaired(ps) ==> PairsMeaning(qs) == PairsMeaning(ps))
  }

  lemma {:induction false} ContainersAlike(blank: Text, es: seq<Element>, fs: seq<Element>, ps: seq<Pair>,
                                           qs: seq<Pair>)
    ensures ElementsAlike(es, fs) ==> Alike(ArrayWord(blank, es), ArrayWord([], fs))
    ensures PairsAlike(ps, qs) ==> Alike(ObjectWord(blank, ps), ObjectWord([], qs))
  {
  }

  lemma {:induction false} CompactAlike(v: Syntax)
    ensures Alike(v, Compact(v))
    decreases v, 0
  {
    match v
    case ArrayWord(blank, elements) =>
      CompactElementsAlike(elements);
      ContainersAlike(blank, elements, CompactElements(elements), [], []);
      hide Alike;
    case ObjectWord(blank, pairs) =>
      CompactPairsAlike(pairs);
      ContainersAlike(blank, [], [], pairs, CompactPairs(pairs));
      hide Alike;
    case _ =>
  }

  lemma {:induction false} CompactElementsAlike(es: seq<Element>)
    ensures ElementsAlike(es, CompactElements(es))
    decreases es, 1
  {
    if es == [] {
    } else {
      hide Compact, Meaning, Depth, AllPaired, ShortNumerals, WellFormed;
      CompactAlike(es[0].value);
      CompactElementsAlike(es[1..]);
      assert CompactElements(es)[1..] == CompactElements(es[1..]);
    }
  }

  lemma {:induction false} CompactPairsAlike(ps: seq<Pair>)
    ensures PairsAlike(ps, CompactPairs(ps))
    decreases ps, 1
  {
    if ps == [] {
    } else {
      hide Compact, Meaning, Depth, AllPaired, ShortNumerals, WellFormed, StringMeaning, Paired, WellFormedCharacters;
      CompactAlike(ps[0].value);
      CompactPairsAlike(ps[1..]);
      assert CompactPairs(ps)[1..] == CompactPairs(ps[1..]);
    }
  }

  // ---------------------------------------------------------------- blanks and comments

  /** What may stand between tokens: blanks, a comment up to its line feed, or one between its marks. */
  datatype Piece = Blanks(blanks: Text) | LineComment(line: Text) | BlockComment(block: Text)

  predicate WellFormedPiece(p: Piece) {
    match p
    case Blanks(s) => AllBlank(s)
    case LineComment(t) => 10 !in t
    case BlockComment(t) => NeverCloses(t)
  }

  function PieceText(p: Piece): Text {
    match p
    case Blanks(s) => s
    case LineComment(t) => [47, 47] + t + [10]
    case BlockComment(t) => [47, 42] + t + [42, 47]
  }

  function GapText(ps: seq<Piece>): Text {
    if ps == [] then [] else PieceText(ps[0]) + GapText(ps[1..])
  }

  predicate WellFormedGap(ps: seq<Piece>) {
    forall k :: 0 <= k < |ps| ==> WellFormedPiece(ps[k])
  }

  /** Blanks and comments only. */
  ghost predicate IsGap(s: Text) {
    exists ps :: WellFormedGap(ps) && GapText(ps) == s
  }

  /** A value as the grammar has it, but with comments allowed wherever it allows blanks. */
  ghost predicate WellSpaced(v: Syntax) {
    match v
    case NumberWord(numeral) => WellFormedNumeral(numeral)
    case StringWord(chars) => WellFormedCharacters(chars)
    case ArrayWord(blank, elements) => IsGap(blank) && SpacedElements(elements)
    case ObjectWord(blank, pairs) => IsGap(blank) && SpacedPairs(pairs)
    case _ => true
  }

  ghost predicate SpacedElements(es: seq<Element>) {
    es != [] ==> IsGap(es[0].before) && IsGap(es[0].after) && WellSpaced(es[0].value) && SpacedElements(es[1..])
  }

  ghost predicate SpacedPairs(ps: seq<Pair>) {
    ps != [] ==>
      && IsGap(ps[0].before) && IsGap(ps[0].between) && IsGap(ps[0].gap) && IsGap(ps[0].after)
      && WellFormedCharacters(ps[0].key) && WellSpaced(ps[0].value) && SpacedPairs(ps[1..])
  }

  lemma {:induction false} BlanksAreGap(s: Text)
    requires AllBlank(s)
    ensures IsGap(s)
  {
    hide AllBlank;
    assert GapText([Blanks(s)]) == s + GapText([]) == s;
    assert WellFormedGap([Blanks(s)]);
  }

  lemma {:induction false} FormedIsSpaced(v: Syntax)
    requires WellFormed(v)
    ensures WellSpaced(v)
    decreases v, 0
  {
    hide IsGap, AllBlank;
    match v
    case ArrayWord(blank, elements) =>
      BlanksAreGap(blank);
      FormedElements(elements);
    case ObjectWord(blank, pairs) =>
      BlanksAreGap(blank);
      FormedPairs(pairs);
    case _ =>
  }

  lemma {:induction false} FormedElements(es: seq<Element>)
    requires WellFormedElements(es)
    ensures SpacedElements(es)
    decreases es, 1
  {
    hide IsGap, AllBlank, WellFormed, WellSpaced;
    if es == [] {
    } else {
      BlanksAreGap(es[0].before);
      BlanksAreGap(es[0].after);
      FormedIsSpaced(es[0].value);
      FormedElements(es[1..]);
    }
  }

  lemma {:induction false} FormedPairs(ps: seq<Pair>)
    requires WellFormedPairs(ps)
    ensures SpacedPairs(ps)
    decreases ps, 1
  {
    hide IsGap, AllBlank, WellFormed, WellSpaced, WellFormedCharacters;
    if ps == [] {
    } else {
      BlanksAreGap(ps[0].before);
      BlanksAreGap(ps[0].between);
      BlanksAreGap(ps[0].gap);
      BlanksAreGap(ps[0].after);
      FormedIsSpaced(ps[0].value);
      FormedPairs(ps[1..]);
    }
  }

  /** Without its gaps the value is one of the grammar. */
  lemma {:induction false} CompactIsFormed(v: Syntax)
    requires WellSpaced(v)
    ensures WellFormed(Compact(v))
    decreases v, 0
  {
    hide IsGap;
    match v
    case ArrayWord(_, elements) =>
      CompactElementsFormed(elements);
    case ObjectWord(_, pairs) =>
      CompactPairsFormed(pairs);
    case _ =>
  }

  lemma {:induction false} CompactElementsFormed(es: seq<Element>)
    requires SpacedElements(es)
    ensures WellFormedElements(CompactElements(es))
    decreases es, 1
  {
    hide IsGap, WellFormed, WellSpaced, Compact;
    if es == [] {
    } else {
      CompactIsFormed(es[0].value);
      CompactElementsFormed(es[1..]);
      assert CompactElements(es)[1..] == CompactElements(es[1..]);
    }
  }

  lemma {:induction false} CompactPairsFormed(ps: seq<Pair>)
    requires SpacedPairs(ps)
    ensures WellFormedPairs(CompactPairs(ps))
    decreases ps, 1
  {
    hide IsGap, WellFormed, WellSpaced, Compact, WellFormedCharacters;
    if ps == [] {
    } else {
      CompactIsFormed(ps[0].value);
      CompactPairsFormed(ps[1..]);
      assert CompactPairs(ps)[1..] == CompactPairs(ps[1..]);
    }
  }

  // ---------------------------------------------------------------- strings

  /** A backslash with letters or digits behind it. */
  lemma {:induction false} InStringEscape(letters: Text, rest: Text)
    requires letters != [] && forall k :: 0 <= k < |letters| ==> letters[k] != QUOTE && letters[k] != BACKSLASH
    ensures InString([BACKSLASH] + letters + rest) == [BACKSLASH] + letters + InString(rest)
  {
    hide InString;
    assert [BACKSLASH] + letters + rest == [BACKSLASH] + (letters + rest);
    InStringOne(BACKSLASH, letters + rest);
    InStringRun(letters, rest);
    assert [BACKSLASH] + letters + InString(rest) == [BACKSLASH] + (letters + InString(rest));
  }

  lemma {:induction false} InStringBackslash(rest: Text)
    requires rest != [] && rest[0] != QUOTE
    ensures InString([BACKSLASH, BACKSLASH] + rest) == [BACKSLASH, BACKSLASH] + InString(rest)
  {
    hide InString;
    assert [BACKSLASH, BACKSLASH] + rest == [BACKSLASH] + ([BACKSLASH] + rest);
    InStringOne(BACKSLASH, [BACKSLASH] + rest);
    InStringOne(BACKSLASH, rest);
    assert [BACKSLASH, BACKSLASH] + InString(rest) == [BACKSLASH] + ([BACKSLASH] + InString(rest));
  }

  /** What is written of a character that is not an escaped quote or backslash. */
  lemma EscapeLetters(ch: Character)
    requires WellFormedCharacter(ch) && !ch.Plain? && ch != Short(QUOTE) && ch != Short(BACKSLASH)
    ensures var s := CharacterText(ch);
            && |s| > 1 && s == [BACKSLASH] + s[1..]
            && forall k :: 0 <= k < |s[1..]| ==> s[1..][k] != QUOTE && s[1..][k] != BACKSLASH
  {
  }

  /** A character is copied, unless it is a backslash in front of what looks like the closing quote. */
  lemma {:induction false} InStringCharacter(ch: Character, rest: Text)
    requires WellFormedCharacter(ch) && (ch == Short(BACKSLASH) ==> rest != [] && rest[0] != QUOTE)
    ensures InString(CharacterText(ch) + rest) == CharacterText(ch) + InString(rest)
  {
    hide InString;
    if ch.Plain? {
      InStringOne(ch.b, rest);
    } else if ch == Short(QUOTE) {
      InStringPair(rest);
    } else if ch == Short(BACKSLASH) {
      InStringBackslash(rest);
    } else {
      EscapeLetters(ch);
      hide CharacterText, WellFormedCharacter;
      InStringEscape(CharacterText(ch)[1..], rest);
    }
  }

  /** How the minifier goes on behind a literal. */
  function BehindLiteral(chars: seq<Character>, tail: Text): Text {
    if EndsInEscapedBackslash(chars) then InString(tail) else Minified(tail)
  }

  lemma {:induction false} FirstByte(chars: seq<Character>)
    requires WellFormedCharacters(chars) && chars != []
    ensures CharactersText(chars) != [] && CharactersText(chars)[0] != QUOTE
  {
  }

  lemma {:induction false} InStringCharacters(chars: seq<Character>, tail: Text)
    requires WellFormedCharacters(chars)
    ensures InString(CharactersText(chars) + ([QUOTE] + tail))
            == CharactersText(chars) + ([QUOTE] + BehindLiteral(chars, tail))
    decreases |chars|
  {
    hide InString, Minified, CharacterText, WellFormedCharacter;
    if chars == [] {
      assert CharactersText(chars) + ([QUOTE] + tail) == [QUOTE] + tail;
      InStringClose(tail);
      assert CharactersText(chars) + ([QUOTE] + Minified(tail)) == [QUOTE] + Minified(tail);
    } else if chars == [Short(BACKSLASH)] {
      LastBackslash(tail);
      assert CharactersText(chars) == CharacterText(chars[0]) + [] == CharacterText(chars[0]);
    } else {
      var s, t, u := CharacterText(chars[0]), CharactersText(chars[1..]), [QUOTE] + tail;
      assert CharactersText(chars) == s + t;
      assert chars[1..] == [] ==> chars == [chars[0]];
      InStringCharacters(chars[1..], tail);
      if chars[1..] != [] {
        FirstByte(chars[1..]);
      }
      hide CharactersText;
      InStringCharacter(chars[0], t + u);
      assert CharactersText(chars) + u == s + (t + u);
      var w := [QUOTE] + BehindLiteral(chars, tail);
      assert CharactersText(chars) + w == s + (t + w);
    }
  }

  lemma {:induction false} LastBackslash(tail: Text)
    ensures InString(CharacterText(Short(BACKSLASH)) + ([QUOTE] + tail))
            == CharacterText(Short(BACKSLASH)) + ([QUOTE] + InString(tail))
  {
    hide InString, Minified;
    assert CharacterText(Short(BACKSLASH)) + ([QUOTE] + tail) == [BACKSLASH] + ([BACKSLASH, QUOTE] + tail);
    InStringOne(BACKSLASH, [BACKSLASH, QUOTE] + tail);
    InStringPair(tail);
    assert [BACKSLASH] + ([BACKSLASH, QUOTE] + InString(tail))
        == CharacterText(Short(BACKSLASH)) + ([QUOTE] + InString(tail));
  }

  /** A literal is copied; one that ends in an escaped backslash leaves the minifier inside it. */
  lemma {:induction false} MinifiedLiteral(chars: seq<Character>, tail: Text)
    requires WellFormedCharacters(chars)
    ensures Minified(StringText(chars) + tail) == StringText(chars) + BehindLiteral(chars, tail)
  {
    hide InString, Minified, CharactersText, WellFormedCharacters;
    var s, w := CharactersText(chars), BehindLiteral(chars, tail);
    assert StringText(chars) + tail == [QUOTE] + (s + ([QUOTE] + tail));
    InStringClose(s + ([QUOTE] + tail));
    InStringCharacters(chars, tail);
    assert [QUOTE] + (s + ([QUOTE] + w)) == StringText(chars) + w;
  }

  // ---------------------------------------------------------------- values

  /** The minifier goes through `s` and what it leaves of it is `r`. */
  ghost predicate LeavesBehind(s: Text, r: Text) {
    forall tail: Text :: Minified(s + tail) == r + Minified(tail)
  }

  lemma {:induction false} LeavesConcat(s: Text, r: Text, s': Text, r': Text)
    requires LeavesBehind(s, r) && LeavesBehind(s', r')
    ensures LeavesBehind(s + s', r + r')
  {
    hide Minified;
    forall tail: Text ensures Minified(s + s' + tail) == r + r' + Minified(tail) {
      assert s + s' + tail == s + (s' + tail);
      assert Minified(s + (s' + tail)) == r + Minified(s' + tail);
      assert r + (r' + Minified(tail)) == r + r' + Minified(tail);
    }
  }

  lemma LeavesBlanks(s: Text)
    requires AllBlank(s)
    ensures LeavesBehind(s, [])
  {
    hide Minified;
    forall tail: Text ensures Minified(s + tail) == [] + Minified(tail) {
      MinifiedBlanks(s, tail);
    }
  }

  lemma LeavesPiece(p: Piece)
    requires WellFormedPiece(p)
    ensures LeavesBehind(PieceText(p), [])
  {
    hide Minified;
    match p
    case Blanks(s) =>
      LeavesBlanks(s);
    case LineComment(t) =>
      forall tail: Text ensures Minified(PieceText(p) + tail) == [] + Minified(tail) {
        LineCommentGoes(t, tail);
      }
    case BlockComment(t) =>
      forall tail: Text ensures Minified(PieceText(p) + tail) == [] + Minified(tail) {
        BlockCommentGoes(t, tail);
      }
  }

  lemma {:induction false} LeavesPieces(ps: seq<Piece>)
    requires WellFormedGap(ps)
    ensures LeavesBehind(GapText(ps), [])
  {
    hide LeavesBehind, PieceText, WellFormedPiece;
    if ps == [] {
      LeavesBlanks([]);
    } else {
      LeavesPiece(ps[0]);
      LeavesPieces(ps[1..]);
      LeavesConcat(PieceText(ps[0]), [], GapText(ps[1..]), []);
      var nothing: Text := [];
      assert nothing + nothing == nothing;
    }
  }

  lemma LeavesGap(s: Text)
    requires IsGap(s)
    ensures LeavesBehind(s, [])
  {
    hide LeavesBehind, GapText, WellFormedGap;
    var ps :| WellFormedGap(ps) && GapText(ps) == s;
    LeavesPieces(ps);
  }

  lemma LeavesPlain(s: Text)
    requires forall k :: 0 <= k < |s| ==> IsPlain(s[k])
    ensures LeavesBehind(s, s)
  {
    hide Minified;
    forall tail: Text ensures Minified(s + tail) == s + Minified(tail) {
      MinifiedPlain(s, tail);
    }
  }

  lemma LeavesLiteral(chars: seq<Character>)
    requires WellFormedCharacters(chars) && !EndsInEscapedBackslash(chars)
    ensures LeavesBehind(StringText(chars), StringText(chars))
  {
    hide Minified, StringText, WellFormedCharacters;
    forall tail: Text ensures Minified(StringText(chars) + tail) == StringText(chars) + Minified(tail) {
      MinifiedLiteral(chars, tail);
    }
  }

  lemma {:induction false} ScalarLeaves(v: Syntax)
    requires WellSpaced(v) && NoFinalBackslash(v) && !v.ArrayWord? && !v.ObjectWord?
    ensures LeavesBehind(SyntaxText(v), SyntaxText(Compact(v)))
  {
    hide LeavesBehind, StringText, WellFormedCharacters;
    match v
    case StringWord(chars) =>
      LeavesLiteral(chars);
    case NumberWord(n) =>
      NumeralCharacters(n);
      LeavesPlain(NumeralText(n));
    case _ =>
      LeavesPlain(SyntaxText(v));
  }

  lemma LeavesBytes(s: Text)
    requires forall k :: 0 <= k < |s| ==> s[k] in {LBRACKET, RBRACKET, LBRACE, RBRACE, COMMA, COLON}
    ensures LeavesBehind(s, s)
  {
    hide LeavesBehind;
    LeavesPlain(s);
  }

  /** Gaps around a piece. */
  lemma LeavesPadded(before: Text, s: Text, r: Text, after: Text)
    requires IsGap(before) && LeavesBehind(s, r) && IsGap(after)
    ensures LeavesBehind(before + s + after, [] + r + [])
  {
    hide LeavesBehind, IsGap;
    LeavesGap(before);
    LeavesGap(after);
    LeavesConcat(before, [], s, r);
    LeavesConcat(before + s, [] + r, after, []);
  }

  /** What is left of a value. */
  lemma {:induction false} ValueLeaves(v: Syntax)
    requires WellSpaced(v) && NoFinalBackslash(v)
    ensures LeavesBehind(SyntaxText(v), SyntaxText(Compact(v)))
    decreases v, 0
  {
    hide LeavesBehind, ElementsText, PairsText, CompactElements, CompactPairs, IsGap;
    match v
    case ArrayWord(blank, elements) =>
      if elements == [] {
        LeavesGap(blank);
        NothingCompact();
        LeavesBracketed([LBRACKET], blank, [], [RBRACKET]);
      } else {
        ElementsLeave(elements);
        LeavesBracketed([LBRACKET], ElementsText(elements), ElementsText(CompactElements(elements)), [RBRACKET]);
      }
    case ObjectWord(blank, pairs) =>
      if pairs == [] {
        LeavesGap(blank);
        NothingCompact();
        LeavesBracketed([LBRACE], blank, [], [RBRACE]);
      } else {
        PairsLeave(pairs);
        LeavesBracketed([LBRACE], PairsText(pairs), PairsText(CompactPairs(pairs)), [RBRACE]);
      }
    case _ =>
      ScalarLeaves(v);
  }

  lemma NothingCompact()
    ensures CompactElements([]) == [] && CompactPairs([]) == []
  {
  }

  lemma LeavesBracketed(open_: Text, s: Text, r: Text, close: Text)
    requires LeavesBehind(s, r)
    requires (open_ == [LBRACKET] || open_ == [LBRACE]) && (close == [RBRACKET] || close == [RBRACE])
    ensures LeavesBehind(open_ + s + close, open_ + r + close)
  {
    hide LeavesBehind, IsGap;
    LeavesBytes(open_);
    LeavesBytes(close);
    LeavesConcat(open_, open_, s, r);
    LeavesConcat(open_ + s, open_ + r, close, close);
  }

  lemma {:induction false} ElementsLeave(es: seq<Element>)
    requires SpacedElements(es) && ElementsNoFinal(es) && es != []
    ensures LeavesBehind(ElementsText(es), ElementsText(CompactElements(es)))
    decreases es, 1
  {
    hide LeavesBehind, SyntaxText, Compact, IsGap;
    var e, rest := es[0], es[1..];
    ValueLeaves(e.value);
    LeavesPadded(e.before, SyntaxText(e.value), SyntaxText(Compact(e.value)), e.after);
    var f := Element([], Compact(e.value), []);
    assert CompactElements(es)[0] == f && CompactElements(es)[1..] == CompactElements(rest);
    assert ElementText(e) + [] == ElementText(e) && ElementText(f) + [] == ElementText(f);
    if |es| == 1 {
    } else {
      ElementsLeave(rest);
      LeavesBytes([COMMA]);
      LeavesConcat([COMMA], [COMMA], ElementsText(rest), ElementsText(CompactElements(rest)));
      LeavesConcat(ElementText(e), ElementText(f), [COMMA] + ElementsText(rest),
                   [COMMA] + ElementsText(CompactElements(rest)));
    }
  }

  lemma {:induction false} PairsLeave(ps: seq<Pair>)
    requires SpacedPairs(ps) && PairsNoFinal(ps) && ps != []
    ensures LeavesBehind(PairsText(ps), PairsText(CompactPairs(ps)))
    decreases ps, 1
  {
    hide LeavesBehind, SyntaxText, Compact, IsGap, PairText;
    var p, rest := ps[0], ps[1..];
    ValueLeaves(p.value);
    PairLeaves(p);
    var q := Pair([], p.key, [], [], Compact(p.value), []);
    assert CompactPairs(ps)[0] == q && CompactPairs(ps)[1..] == CompactPairs(rest);
    assert PairText(p) + [] == PairText(p) && PairText(q) + [] == PairText(q);
    if |ps| == 1 {
    } else {
      PairsLeave(rest);
      LeavesBytes([COMMA]);
      LeavesConcat([COMMA], [COMMA], PairsText(rest), PairsText(CompactPairs(rest)));
      LeavesConcat(PairText(p), PairText(q), [COMMA] + PairsText(rest), [COMMA] + PairsText(CompactPairs(rest)));
    }
  }

  lemma {:induction false} PairLeaves(p: Pair)
    requires IsGap(p.before) && IsGap(p.between) && IsGap(p.gap) && IsGap(p.after)
    requires WellFormedCharacters(p.key) && !EndsInEscapedBackslash(p.key)
    requires LeavesBehind(SyntaxText(p.value), SyntaxText(Compact(p.value)))
    ensures LeavesBehind(PairText(p), PairText(Pair([], p.key, [], [], Compact(p.value), [])))
  {
    hide LeavesBehind, SyntaxText, Compact, IsGap, StringText, WellFormedCharacters;
    var key, value, r := StringText(p.key), SyntaxText(p.value), SyntaxText(Compact(p.value));
    LeavesLiteral(p.key);
    LeavesGap(p.between);
    LeavesGap(p.gap);
    LeavesBytes([COLON]);
    LeavesConcat(key, key, p.between, []);
    LeavesConcat(key + p.between, key + [], [COLON], [COLON]);
    LeavesConcat(key + p.between + [COLON], key + [] + [COLON], p.gap, []);
    LeavesConcat(key + p.between + [COLON] + p.gap, key + [] + [COLON] + [], value, r);
    LeavesPadded(p.before, key + p.between + [COLON] + p.gap + value, key + [] + [COLON] + [] + r, p.after);
  }

  // ---------------------------------------------------------------- main results

  /**
   Without a string or name that ends in an escaped backslash, minifying a document leaves its tokens without the
   blanks, and so what parsing it gives.
   */
  lemma {:induction false} MinifyKeepsMeaning(before: Text, v: Syntax, after: Text, requireNul: bool)
    requires AllBlank(before) && AllBlank(after) && WellFormed(v) && NoFinalBackslash(v)
    ensures var text := before + SyntaxText(v) + after;
            var r, r' := ParseDocument(text + [NUL], requireNul), ParseDocument(Minified(text) + [NUL], requireNul);
            && Minified(text) == SyntaxText(Compact(v)) && (r'.Ok? <==> r.Ok?) && (r.Ok? ==> r'.value == r.value)
  {
    hide ParseDocument, SyntaxText, Compact, Meaning, Depth, AllPaired, ShortNumerals, WellFormed, AllBlank, IsGap,
         Minified, NoFinalBackslash, GrammarParse.CutNumeral;
    var text, w := before + SyntaxText(v) + after, Compact(v);
    BlanksAreGap(before);
    BlanksAreGap(after);
    FormedIsSpaced(v);
    MinifiedDocument(before, v, after);
    CompactAlike(v);
    GrammarParse.ParseGrammaticalText(before, v, after, requireNul);
    NoBlanks();
    GrammarParse.ParseGrammaticalText([], w, [], requireNul);
    assert [] + SyntaxText(w) + [] == SyntaxText(w);
    if v.NumberWord? {
      SameCut(v.numeral, ParseDocument(text + [NUL], requireNul), |before + SyntaxText(v)|,
              ParseDocument(Minified(text) + [NUL], requireNul), |[] + SyntaxText(w)|);
    }
  }

  /** The same with comments: what is left is a document of the grammar, and parses to its meaning. */
  lemma {:induction false} MinifyDropsComments(before: Text, v: Syntax, after: Text, requireNul: bool)
    requires IsGap(before) && IsGap(after) && WellSpaced(v) && NoFinalBackslash(v)
    ensures var text, w := before + SyntaxText(v) + after, Compact(v);
            && WellFormed(w) && Minified(text) == SyntaxText(w)
            && (Depth(w) <= NESTING_LIMIT && AllPaired(w) && ShortNumerals(w) ==>
                  ParseDocument(Minified(text) + [NUL], requireNul) == Ok(Meaning(w), |SyntaxText(w)|))
  {
    hide ParseDocument, SyntaxText, Compact, Meaning, Depth, AllPaired, ShortNumerals, WellFormed, WellSpaced, IsGap,
         Minified, NoFinalBackslash, GrammarParse.CutNumeral;
    var w := Compact(v);
    MinifiedDocument(before, v, after);
    CompactIsFormed(v);
    NoBlanks();
    GrammarParse.ParseGrammaticalText([], w, [], requireNul);
    assert [] + SyntaxText(w) + [] == SyntaxText(w) == [] + SyntaxText(w);
  }

  lemma NoBlanks()
    ensures AllBlank([])
  {
  }

  lemma SameCut(n: Numeral, r: Parsed<Json>, end: nat, r': Parsed<Json>, end': nat)
    ensures GrammarParse.CutNumeral(n, r, end) && GrammarParse.CutNumeral(n, r', end') ==>
              r.Ok? && r'.Ok? && r'.value == r.value
  {
    hide NumeralText, Decimal.Strtod;
  }

  lemma {:induction false} MinifiedDocument(before: Text, v: Syntax, after: Text)
    requires IsGap(before) && IsGap(after) && WellSpaced(v) && NoFinalBackslash(v)
    ensures Minified(before + SyntaxText(v) + after) == SyntaxText(Compact(v))
  {
    hide SyntaxText, Compact, WellSpaced, IsGap, NoFinalBackslash;
    ValueLeaves(v);
    LeavesPadded(before, SyntaxText(v), SyntaxText(Compact(v)), after);
    var s, r := before + SyntaxText(v) + after, SyntaxText(Compact(v));
    assert Minified(s + []) == [] + r + [] + Minified([]);
    assert s + [] == s && [] + r + [] == r && Minified([]) == [];
  }

  /** The array of a string and of one of plain characters. */
  function TwoStrings(chars: seq<Character>, second: Text): Syntax {
    ArrayWord([], [Element([], StringWord(chars), []), Element([], StringWord(PlainCharacters(second)), [])])
  }

  const WITH_BLANK: Text := [97, SPACE, 98]
  const WITHOUT_BLANK: Text := [97, 98]

  /**
   The condition is exact for each string: in front of the string "a b", it is just the strings that end in an
   escaped backslash that make minifying change the value, for then the blank is lost.
   */
  lemma {:induction false} FinalBackslashMatters(chars: seq<Character>, requireNul: bool)
    requires WellFormedCharacters(chars) && Paired(chars)
    ensures var v := TwoStrings(chars, WITH_BLANK);
            var r := ParseDocument(Minified(SyntaxText(v)) + [NUL], requireNul);
            && WellFormed(v) && AllPaired(v)
            && ParseDocument(SyntaxText(v) + [NUL], requireNul) == Ok(Meaning(v), |SyntaxText(v)|)
            && r.Ok? && (r.value == Meaning(v) <==> !EndsInEscapedBackslash(chars))
  {
    hide ParseDocument, SyntaxText, Minified, WellFormedCharacters, Paired, StringMeaning, Meaning, Depth, AllPaired,
         ShortNumerals, WellFormed, GrammarParse.CutNumeral;
    var v, w := TwoStrings(chars, WITH_BLANK), TwoStrings(chars, WITHOUT_BLANK);
    TwoStringsParts(chars, WITH_BLANK);
    TwoStringsParts(chars, WITHOUT_BLANK);
    ParseTwoStrings(v, requireNul);
    ParseTwoStrings(w, requireNul);
    TwoStringsMinified(chars);
  }

  lemma {:induction false} ParseTwoStrings(v: Syntax, requireNul: bool)
    requires WellFormed(v) && AllPaired(v) && Depth(v) <= NESTING_LIMIT && ShortNumerals(v)
    ensures ParseDocument(SyntaxText(v) + [NUL], requireNul) == Ok(Meaning(v), |SyntaxText(v)|)
  {
    hide ParseDocument, SyntaxText, Meaning, Depth, AllPaired, ShortNumerals, WellFormed, GrammarParse.CutNumeral;
    NoBlanks();
    GrammarParse.ParseGrammaticalText([], v, [], requireNul);
    assert [] + SyntaxText(v) + [] == SyntaxText(v) == [] + SyntaxText(v);
  }

  /** What an array of two values is, by its values. */
  lemma {:induction false} TwoValues(a: Syntax, b: Syntax)
    ensures var v := ArrayWord([], [Element([], a, []), Element([], b, [])]);
            && SyntaxText(v) == [LBRACKET] + (SyntaxText(a) + ([COMMA] + SyntaxText(b))) + [RBRACKET]
            && (WellFormed(a) && WellFormed(b) && AllPaired(a) && AllPaired(b) ==>
                  && WellFormed(v) && AllPaired(v) && Depth(v) == 1 + Max(Depth(a), Depth(b))
                  && (ShortNumerals(v) <==> ShortNumerals(a) && ShortNumerals(b))
                  && Meaning(v) == Array([Meaning(a), Meaning(b)]))
  {
    var e, f := Element([], a, []), Element([], b, []);
    OneValue(b);
    assert [e, f][1..] == [f];
    assert ElementText(e) == SyntaxText(a);
    assert ElementsText([e, f]) == SyntaxText(a) + ([COMMA] + SyntaxText(b));
  }

  lemma {:induction false} OneValue(b: Syntax)
    ensures var fs := [Element([], b, [])];
            && ElementsText(fs) == SyntaxText(b) && ElementsDepth(fs) == Depth(b)
            && (ElementsShort(fs) <==> ShortNumerals(b))
            && (WellFormed(b) && AllPaired(b) ==>
                  WellFormedElements(fs) && ElementsPaired(fs) && ElementsMeaning(fs) == [Meaning(b)])
  {
    assert [Element([], b, [])][1..] == [];
    assert ElementText(Element([], b, [])) == SyntaxText(b);
  }

  lemma {:induction false} TwoStringsParts(chars: seq<Character>, second: Text)
    requires WellFormedCharacters(chars) && Paired(chars) && forall k :: 0 <= k < |second| ==> IsUnescaped(second[k])
    ensures var v := TwoStrings(chars, second);
            && WellFormed(v) && AllPaired(v) && Depth(v) == 1 && ShortNumerals(v)
            && Meaning(v) == Array([String(Chars(StringMeaning(chars))), String(Chars(second))])
            && SyntaxText(v) == [LBRACKET] + (StringText(chars) + ([COMMA, QUOTE] + second + [QUOTE, RBRACKET]))
  {
    PlainText(second);
    hide WellFormedCharacters, Paired, StringMeaning, CharactersText, PlainCharacters;
    assert StringText(PlainCharacters(second)) == [QUOTE] + second + [QUOTE];
    hide StringText;
    TwoValues(StringWord(chars), StringWord(PlainCharacters(second)));
    Regroup(StringText(chars), second);
  }

  lemma Regroup(s: Text, second: Text)
    ensures [LBRACKET] + (s + ([COMMA] + ([QUOTE] + second + [QUOTE]))) + [RBRACKET]
            == [LBRACKET] + (s + ([COMMA, QUOTE] + second + [QUOTE, RBRACKET]))
  {
  }

  lemma {:induction false} TwoStringsMinified(chars: seq<Character>)
    requires WellFormedCharacters(chars) && Paired(chars)
    ensures Minified(SyntaxText(TwoStrings(chars, WITH_BLANK)))
            == SyntaxText(TwoStrings(chars, if EndsInEscapedBackslash(chars) then WITHOUT_BLANK else WITH_BLANK))
  {
    hide SyntaxText, Minified, InString, StringText, WellFormedCharacters, Paired, EndsInEscapedBackslash;
    var s, tail := StringText(chars), [COMMA, QUOTE] + WITH_BLANK + [QUOTE, RBRACKET];
    TwoStringsParts(chars, WITH_BLANK);
    TwoStringsParts(chars, WITHOUT_BLANK);
    MinifiedPlain([LBRACKET], s + tail);
    MinifiedLiteral(chars, tail);
    TailMinified();
  }

  /** The second string read as what it is, and read with the quotes taken the other way round. */
  lemma {:induction false} TailMinified()
    ensures var tail := [COMMA, QUOTE] + WITH_BLANK + [QUOTE, RBRACKET];
            Minified(tail) == tail && InString(tail) == [COMMA, QUOTE] + WITHOUT_BLANK + [QUOTE, RBRACKET]
  {
    hide Minified, InString;
    var end: Text := [QUOTE, RBRACKET];
    var text := WITH_BLANK + end;
    var tail := [COMMA, QUOTE] + WITH_BLANK + end;
    assert tail == [COMMA] + ([QUOTE] + text) && end == [QUOTE] + [RBRACKET];
    assert Minified([]) == [] && InString([]) == [] by {
      NothingMinified();
    }
    InStringClose([RBRACKET]);
    MinifiedPlain([RBRACKET], []);
    InStringRun([RBRACKET], []);
    assert [RBRACKET] + [] == [RBRACKET];
    InStringRun(WITH_BLANK, end);
    MinifiedPlain([COMMA], [QUOTE] + text);
    InStringRun([COMMA], [QUOTE] + text);
    InStringClose(text);
    assert WITH_BLANK + end == [97] + ([SPACE] + ([98] + end));
    MinifiedPlain([97], [SPACE] + ([98] + end));
    MinifiedBlanks([SPACE], [98] + end);
    MinifiedPlain([98], end);
  }

  lemma {:induction false} NothingMinified()
    ensures Minified([]) == [] && InString([]) == []
  {
  }
}
