/**
 What the parser has accepted is a text of the lax grammar: the exact language of the parser.
 */
module LaxAccepted {
  import opened Bytes
  import opened JsonTree
  import opened ParseSpec
  import opened StringLiteral
  import opened LaxGrammar
  import opened LaxStrings
  import opened LaxParse
  import opened GrammarParse
  import Decimal

  /** The buffer of a C string. */
  predicate IsCString(c: seq<byte>) {
    Terminated(c) && forall k :: 0 <= k < |c| - 1 ==> c[k] != NUL
  }

  /** A part of a C string, as a text that stands there. */
  lemma Part(c: seq<byte>, i: nat, j: nat) returns (s: Text)
    requires IsCString(c) && i <= j < |c|
    ensures s == c[i..j] && At(c, i, s) && |s| == j - i
  {
    assert forall k :: 0 <= k < |c[i..j]| ==> c[i..j][k] != NUL;
    s := NoNulText(c[i..j]);
  }

  /** The blanks that are skipped in front of something. */
  lemma SkippedPart(c: seq<byte>, i: nat) returns (s: Text)
    requires IsCString(c) && i < |c| && c[SkipBlanks(c, i)] > 32
    ensures LaxBlank(s) && At(c, i, s) && SkipBlanks(c, i) == i + |s|
  {
    var j := SkipBlanks(c, i);
    assert forall k :: i <= k < j ==> c[k] <= 32;
    s := Part(c, i, j);
    assert forall k :: 0 <= k < |s| ==> s[k] == c[i + k];
  }

  /** Nothing begins with a blank or the final NUL. */
  lemma {:induction false} ValueBegins(c: seq<byte>, i: nat, depth: nat)
    requires Terminated(c) && i < |c| && ParseValueSpec(c, i, depth).Ok?
    ensures c[i] > 32
  {
    hide ParseArraySpec, ParseObjectSpec, ParseStringValue, ParseNumberSpec;
    KeywordsApart(c, i);
  }

  // ---------------------------------------------------------------- values

  ghost predicate ValueFits(c: seq<byte>, off: nat, depth: nat, v: Lax)
    requires off < |c| && Terminated(c)
  {
    && IsLax(v) && depth + LaxDepth(v) <= NESTING_LIMIT && At(c, off, LaxText(v))
    && ParseValueSpec(c, off, depth) == Ok(LaxMeaning(v), off + |LaxText(v)|)
  }

  ghost predicate ItemsFit(c: seq<byte>, i: nat, depth: nat, es: seq<LaxElement>)
    requires i < |c| && Terminated(c)
  {
    var end := i + |LaxElementsText(es)|;
    && es != [] && LaxElements(es) && depth + LaxElementsDepth(es) <= NESTING_LIMIT && At(c, i, LaxElementsText(es))
    && end < |c| && c[end] == RBRACKET && ParseItemsSpec(c, i, depth) == Ok(LaxItems(es), end + 1)
  }

  ghost predicate MembersFit(c: seq<byte>, i: nat, depth: nat, ps: seq<LaxPair>)
    requires i < |c| && Terminated(c)
  {
    var end := i + |LaxPairsText(ps)|;
    && ps != [] && LaxPairs(ps) && depth + LaxPairsDepth(ps) <= NESTING_LIMIT && At(c, i, LaxPairsText(ps))
    && end < |c| && c[end] == RBRACE && ParseMembersSpec(c, i, depth) == Ok(LaxMembers(ps), end + 1)
  }

  lemma {:induction false} NumberCharsAre(c: seq<byte>, i: nat, limit: nat)
    requires i <= limit <= |c|
    ensures forall k :: i <= k < NumberCharsEnd(c, i, limit) ==> Decimal.IsNumberChar(c[k])
    decreases limit - i
  {
    hide Decimal.IsNumberChar;
    if i == limit || !Decimal.IsNumberChar(c[i]) {
    } else {
      NumberCharsAre(c, i + 1, limit);
    }
  }

  /** What `strtod` has taken of the characters that were copied. */
  lemma {:induction false} ExtractNumber(c: seq<byte>, off: nat) returns (s: Text)
    requires IsCString(c) && off < |c| && (c[off] == MINUS || ZERO <= c[off] <= NINE) && ParseNumberSpec(c, off).Ok?
    ensures LaxNumeral(s) && At(c, off, s)
    ensures ParseNumberSpec(c, off) == Ok(Json.Number(Decimal.Strtod(s).0), off + |s|)
  {
    hide Decimal.Strtod, Decimal.IsNumberChar;
    var limit := if off + 63 < |c| then off + 63 else |c|;
    var end := NumberEnd(c, off);
    NumberCharsAre(c, off, limit);
    NulIsNoNumber(c);
    NumberCharsEndBefore(c, off, limit, |c| - 1);
    var t := Part(c, off, end);
    Decimal.StrtodOfTaken(t);
    s := t[..Decimal.Strtod(t).1];
    AtConcat(c, off, s, t[Decimal.Strtod(t).1..]);
    assert t == s + t[Decimal.Strtod(t).1..];
    assert forall k :: 0 <= k < |t| ==> t[k] == c[off + k];
    assert Decimal.Strtod(s).1 == |s|;
    assert s[0] == MINUS || Decimal.IsDigit(s[0]);
  }

  lemma NulIsNoNumber(c: seq<byte>)
    requires Terminated(c)
    ensures !Decimal.IsNumberChar(c[|c| - 1])
  {
  }

  lemma {:induction false} ExtractScalar(c: seq<byte>, off: nat, depth: nat) returns (v: Lax)
    requires IsCString(c) && off < |c| && depth <= NESTING_LIMIT && c[off] != LBRACKET && c[off] != LBRACE
    requires ParseValueSpec(c, off, depth).Ok?
    ensures ValueFits(c, off, depth, v)
  {
    hide ParseStringSpec, ParseNumberSpec, At, LaxLiteral, LaxNumeral, LaxValue, Enclosed, Decimal.Strtod,
         Decimal.IsNumberChar, UpToNul;
    KeywordsApart(c, off);
    if c[off] == QUOTE {
      var body, chars := ExtractString(c, off);
      v := LaxString(body, chars);
    } else if c[off] == MINUS || ZERO <= c[off] <= NINE {
      var s := ExtractNumber(c, off);
      v := LaxNumber(s);
    } else if At(c, off, NULL_TEXT) {
      v := LaxNull;
    } else if At(c, off, FALSE_TEXT) {
      v := LaxFalse;
    } else {
      v := LaxTrue;
    }
  }

  lemma AtByte(c: seq<byte>, i: nat, b: byte)
    requires i < |c| && c[i] == b
    ensures At(c, i, [b])
  {
  }

  /** Three pieces make one. */
  lemma Join3(c: seq<byte>, i: nat, a: seq<byte>, b: seq<byte>, d: seq<byte>)
    requires At(c, i, a) && At(c, i + |a|, b) && At(c, i + |a| + |b|, d)
    ensures At(c, i, a + b + d)
  {
    hide At;
    AtConcat(c, i, a, b);
    AtConcat(c, i, a + b, d);
  }

  lemma JoinBrackets(c: seq<byte>, off: nat, open_: byte, blank: Text, s: Text, close: byte)
    requires off < |c| && c[off] == open_ && At(c, off + 1, blank) && At(c, off + 1 + |blank|, s)
    requires var end := off + 1 + |blank| + |s|; end < |c| && c[end] == close
    ensures At(c, off, [open_] + (blank + s) + [close])
  {
    hide At;
    AtByte(c, off, open_);
    AtByte(c, off + 1 + |blank| + |s|, close);
    AtConcat(c, off + 1, blank, s);
    Join3(c, off, [open_], blank + s, [close]);
  }

  /** A piece, blanks, and nothing or a comma, blanks and more. */
  lemma JoinList(c: seq<byte>, i: nat, core: Text, after: Text, tail: Text, gap: Text, rest: Text)
    requires At(c, i, core) && At(c, i + |core|, after)
    requires var k := i + |core| + |after|;
             && k < |c|
             && (tail == [] || (tail == [COMMA] + gap + rest && c[k] == COMMA && At(c, k + 1, gap)
                                && At(c, k + 1 + |gap|, rest)))
    ensures At(c, i, core + after + tail)
  {
    var k := i + |core| + |after|;
    if tail == [] {
      assert c[k..k] == [];
    } else {
      AtByte(c, k, COMMA);
      Join3(c, k, [COMMA], gap, rest);
    }
    hide At;
    Join3(c, i, core, after, tail);
  }

  /** One element in front of the others. */
  lemma {:induction false} JoinItem(c: seq<byte>, i: nat, depth: nat, e: LaxElement, rest: seq<LaxElement>)
    requires Terminated(c) && i < |c| && ValueFits(c, i, depth, e.value) && LaxBlank(e.after) && LaxBlank(e.gap)
    requires var k := i + |LaxText(e.value)| + |e.after|;
             var m := k + 1 + |e.gap|;
             && At(c, i + |LaxText(e.value)|, e.after) && k < |c|
             && if rest == [] then c[k] == RBRACKET && ParseItemsSpec(c, i, depth) == Ok([LaxMeaning(e.value)], k + 1)
                else
                  && c[k] == COMMA && At(c, k + 1, e.gap) && m < |c| && ItemsFit(c, m, depth, rest)
                  && ParseItemsSpec(c, i, depth) == PrependTo([LaxMeaning(e.value)], ParseItemsSpec(c, m, depth))
    ensures ItemsFit(c, i, depth, [e] + rest)
  {
    hide At, ParseValueSpec, ParseItemsSpec, LaxText, LaxElementsText, LaxDepth, LaxElementsDepth, LaxMeaning,
         LaxItems, IsLax, LaxBlank, Terminated;
    var es := [e] + rest;
    assert es[0] == e && es[1..] == rest;
    assert LaxElements(es);
    FirstLaxElement(es);
    NothingLax();
    JoinList(c, i, LaxText(e.value), e.after, LaxElementsTail(es), e.gap, LaxElementsText(rest));
    assert rest == [] ==> LaxItems(es) == [LaxMeaning(e.value)];
    assert |LaxElementsTail(es)| == if rest == [] then 0 else 1 + |e.gap| + |LaxElementsText(rest)|;
  }

  lemma {:induction false} JoinMember(c: seq<byte>, i: nat, depth: nat, p: LaxPair, rest: seq<LaxPair>)
    requires Terminated(c) && i < |c| && At(c, i, LaxPairText(p))
    requires IsLaxPair(p) && depth + LaxDepth(p.value) <= NESTING_LIMIT
    requires var k := i + |LaxPairText(p)| + |p.after|;
             var m := k + 1 + |p.gap|;
             && At(c, i + |LaxPairText(p)|, p.after) && k < |c|
             && if rest == [] then c[k] == RBRACE && ParseMembersSpec(c, i, depth) == Ok([PairMeaning(p)], k + 1)
                else
                  && c[k] == COMMA && At(c, k + 1, p.gap) && m < |c| && MembersFit(c, m, depth, rest)
                  && ParseMembersSpec(c, i, depth) == PrependTo([PairMeaning(p)], ParseMembersSpec(c, m, depth))
    ensures MembersFit(c, i, depth, [p] + rest)
  {
    hide At, ParseMemberSpec, ParseMembersSpec, LaxText, LaxPairText, LaxPairsText, LaxDepth, LaxPairsDepth,
         LaxMeaning, PairMeaning, LaxMembers, IsLax, LaxLiteral, LaxBlank, Terminated;
    var ps := [p] + rest;
    assert ps[0] == p && ps[1..] == rest;
    assert LaxPairs(ps);
    FirstLaxPair(ps);
    NothingLax();
    JoinList(c, i, LaxPairText(p), p.after, LaxPairsTail(ps), p.gap, LaxPairsText(rest));
    assert rest == [] ==> LaxMembers(ps) == [PairMeaning(p)];
    assert |LaxPairsTail(ps)| == if rest == [] then 0 else 1 + |p.gap| + |LaxPairsText(rest)|;
  }

  // ---------------------------------------------------------------- extraction

  /** What has been accepted as a value is one of the lax grammar. */
  lemma {:induction false} ExtractValue(c: seq<byte>, off: nat, depth: nat) returns (v: Lax)
    requires IsCString(c) && off < |c| && depth <= NESTING_LIMIT && ParseValueSpec(c, off, depth).Ok?
    ensures ValueFits(c, off, depth, v)
    decreases |c| - off, 1
  {
    hide ParseValueSpec, ParseItemsSpec, ParseMembersSpec, At, SkipBlanks, LaxText, LaxElementsText, LaxPairsText,
         LaxDepth, LaxElementsDepth, LaxPairsDepth, LaxMeaning, LaxItems, LaxMembers, IsLax, LaxElements, LaxPairs,
         LaxBlank;
    Dispatch(c, off, depth);
    if c[off] == LBRACKET {
      var i := SkipBlanks(c, off + 1);
      var es := [];
      if c[i] != RBRACKET {
        ItemsBegin(c, i, depth + 1);
        es := ExtractItems(c, i, depth + 1);
      }
      var blank := SkippedPart(c, off + 1);
      v := LaxArray(blank, es);
      ArrayFits(c, off, depth, blank, es);
    } else if c[off] == LBRACE {
      var i := SkipBlanks(c, off + 1);
      var ps := [];
      if c[i] != RBRACE {
        MembersBegin(c, i, depth + 1);
        ps := ExtractMembers(c, i, depth + 1);
      }
      var blank := SkippedPart(c, off + 1);
      v := LaxObject(blank, ps);
      ObjectFits(c, off, depth, blank, ps);
    } else {
      v := ExtractScalar(c, off, depth);
    }
  }

  lemma {:induction false} ItemsBegin(c: seq<byte>, i: nat, depth: nat)
    requires Terminated(c) && i < |c| && ParseItemsSpec(c, i, depth).Ok?
    ensures c[i] > 32
    ensures var r := ParseValueSpec(c, i, depth); r.Ok? && c[SkipBlanks(c, r.offset)] in {COMMA, RBRACKET}
  {
    hide ParseValueSpec, SkipBlanks;
    ValueBegins(c, i, depth);
  }

  lemma {:induction false} MembersBegin(c: seq<byte>, i: nat, depth: nat)
    requires Terminated(c) && i < |c| && ParseMembersSpec(c, i, depth).Ok?
    ensures c[i] > 32
    ensures var r := ParseMemberSpec(c, i, depth); r.Ok? && c[SkipBlanks(c, r.offset)] in {COMMA, RBRACE}
  {
    hide ParseMemberSpec, SkipBlanks;
    MemberBegins(c, i, depth);
  }

  lemma {:induction false} MemberBegins(c: seq<byte>, i: nat, depth: nat)
    requires Terminated(c) && i < |c| && ParseMemberSpec(c, i, depth).Ok?
    ensures c[i] == QUOTE
  {
    hide ParseValueSpec, SkipBlanks;
  }

  lemma {:induction false} ArrayFits(c: seq<byte>, off: nat, depth: nat, blank: Text, es: seq<LaxElement>)
    requires Terminated(c) && off < |c| && c[off] == LBRACKET && LaxBlank(blank) && At(c, off + 1, blank)
    requires ParseValueSpec(c, off, depth) == ParseArraySpec(c, off, depth) && ParseValueSpec(c, off, depth).Ok?
    requires SkipBlanks(c, off + 1) == off + 1 + |blank|
    requires var i := off + 1 + |blank|;
             if es == [] then c[i] == RBRACKET else c[i] != RBRACKET && ItemsFit(c, i, depth + 1, es)
    ensures ValueFits(c, off, depth, LaxArray(blank, es))
  {
    hide ParseValueSpec, ParseItemsSpec, SkipBlanks, LaxElementsText, LaxElementsDepth, LaxItems, LaxElements,
         LaxBlank, At;
    NothingLax();
    var i := off + 1 + |blank|;
    if es == [] {
      AtNothing(c, i);
      assert LaxElements(es) by {
        NoLax();
      }
    }
    JoinBrackets(c, off, LBRACKET, blank, LaxElementsText(es), RBRACKET);
  }

  lemma AtNothing(c: seq<byte>, i: nat)
    requires i <= |c|
    ensures At(c, i, [])
  {
  }

  lemma {:induction false} NoLax()
    ensures LaxElements([]) && LaxPairs([])
  {
  }

  lemma {:induction false} ObjectFits(c: seq<byte>, off: nat, depth: nat, blank: Text, ps: seq<LaxPair>)
    requires Terminated(c) && off < |c| && c[off] == LBRACE && LaxBlank(blank) && At(c, off + 1, blank)
    requires ParseValueSpec(c, off, depth) == ParseObjectSpec(c, off, depth) && ParseValueSpec(c, off, depth).Ok?
    requires SkipBlanks(c, off + 1) == off + 1 + |blank|
    requires var i := off + 1 + |blank|;
             if ps == [] then c[i] == RBRACE else c[i] != RBRACE && MembersFit(c, i, depth + 1, ps)
    ensures ValueFits(c, off, depth, LaxObject(blank, ps))
  {
    hide ParseValueSpec, ParseMembersSpec, SkipBlanks, LaxPairsText, LaxPairsDepth, LaxMembers, LaxPairs, LaxBlank,
         At;
    NothingLax();
    var i := off + 1 + |blank|;
    if ps == [] {
      AtNothing(c, i);
      assert LaxPairs(ps) by {
        NoLax();
      }
    }
    JoinBrackets(c, off, LBRACE, blank, LaxPairsText(ps), RBRACE);
  }

  lemma {:induction false} ExtractItems(c: seq<byte>, i: nat, depth: nat) returns (es: seq<LaxElement>)
    requires IsCString(c) && i < |c| && depth <= NESTING_LIMIT && ParseItemsSpec(c, i, depth).Ok?
    ensures ItemsFit(c, i, depth, es)
    decreases |c| - i, 2
  {
    hide ParseValueSpec, ParseItemsSpec, At, SkipBlanks, LaxText, LaxDepth, LaxMeaning, IsLax, LaxBlank, ItemsFit;
    ItemsBegin(c, i, depth);
    ItemsUnfold(c, i, depth);
    var v := ExtractValue(c, i, depth);
    var next := i + |LaxText(v)|;
    var after := SkippedPart(c, next);
    var j := next + |after|;
    if c[j] == RBRACKET {
      JoinItem(c, i, depth, LaxElement(v, after, []), []) by {
        NoBlank();
      }
      es := [LaxElement(v, after, [])] + [];
    } else {
      var k := SkipBlanks(c, j + 1);
      ItemsBegin(c, k, depth);
      var gap := SkippedPart(c, j + 1);
      es := ExtractItems(c, k, depth);
      JoinItem(c, i, depth, LaxElement(v, after, gap), es) by {
        ItemsFitNotEmpty(c, k, depth, es);
      }
      es := [LaxElement(v, after, gap)] + es;
    }
  }

  lemma NoBlank()
    ensures LaxBlank([])
  {
  }

  lemma {:induction false} ItemsFitNotEmpty(c: seq<byte>, i: nat, depth: nat, es: seq<LaxElement>)
    requires i < |c| && Terminated(c) && ItemsFit(c, i, depth, es)
    ensures es != []
  {
  }

  lemma {:induction false} ExtractMember(c: seq<byte>, i: nat, depth: nat, after: Text, gap: Text) returns (p: LaxPair)
    requires IsCString(c) && i < |c| && depth <= NESTING_LIMIT && LaxBlank(after) && LaxBlank(gap)
    requires ParseMemberSpec(c, i, depth).Ok?
    ensures IsLaxPair(p) && depth + LaxDepth(p.value) <= NESTING_LIMIT && At(c, i, LaxPairText(p))
    ensures p.after == after && p.gap == gap
    ensures ParseMemberSpec(c, i, depth) == Ok(PairMeaning(p), i + |LaxPairText(p)|)
    decreases |c| - i, 2
  {
    hide ParseValueSpec, ParseStringSpec, At, SkipBlanks, LaxText, LaxDepth, LaxMeaning, LaxValue, LaxLiteral, IsLax,
         LaxBlank, Enclosed, UpToNul;
    var key, chars := ExtractString(c, i);
    var next := i + |Enclosed(key)|;
    var between := SkippedPart(c, next);
    var j := next + |between|;
    var k := SkipBlanks(c, j + 1);
    ValueBegins(c, k, depth);
    var before := SkippedPart(c, j + 1);
    var v := ExtractValue(c, k, depth);
    p := LaxPair(key, chars, between, before, v, after, gap);
    AtByte(c, j, COLON);
    Join3(c, j, [COLON], before, LaxText(v));
    Join3(c, i, Enclosed(key), between, [COLON] + before + LaxText(v));
  }

  lemma {:induction false} ExtractMembers(c: seq<byte>, i: nat, depth: nat) returns (ps: seq<LaxPair>)
    requires IsCString(c) && i < |c| && depth <= NESTING_LIMIT && ParseMembersSpec(c, i, depth).Ok?
    ensures MembersFit(c, i, depth, ps)
    decreases |c| - i, 3
  {
    hide ParseMemberSpec, ParseMembersSpec, At, SkipBlanks, LaxText, LaxPairText, LaxDepth, PairMeaning, IsLax,
         LaxLiteral, LaxBlank, MembersFit;
    MembersBegin(c, i, depth);
    MembersUnfold(c, i, depth);
    var next := ParseMemberSpec(c, i, depth).offset;
    var after := SkippedPart(c, next);
    var j := next + |after|;
    NoBlank();
    if c[j] == RBRACE {
      var p := ExtractMember(c, i, depth, after, []);
      JoinMember(c, i, depth, p, []);
      ps := [p] + [];
    } else {
      var k := SkipBlanks(c, j + 1);
      MembersBegin(c, k, depth);
      var gap := SkippedPart(c, j + 1);
      var p := ExtractMember(c, i, depth, after, gap);
      ps := ExtractMembers(c, k, depth);
      MembersFitNotEmpty(c, k, depth, ps);
      JoinMember(c, i, depth, p, ps);
      ps := [p] + ps;
    }
  }

  lemma {:induction false} MembersFitNotEmpty(c: seq<byte>, i: nat, depth: nat, ps: seq<LaxPair>)
    requires i < |c| && Terminated(c) && MembersFit(c, i, depth, ps)
    ensures ps != []
  {
  }

  // ---------------------------------------------------------------- documents

  const MARK: Text := [0xEF, 0xBB, 0xBF]

  /** The text begins with a value of the lax grammar, behind blanks and perhaps a byte order mark. */
  ghost predicate BeginsWith(text: Text, mark: bool, before: Text, v: Lax, rest: Text) {
    && LaxBlank(before) && IsLax(v) && LaxDepth(v) <= NESTING_LIMIT
    && text == (if mark then MARK else []) + before + LaxText(v) + rest
  }

  /** Some value is written at the start of the text, or written so that only blanks follow it. */
  ghost predicate InLanguage(text: Text, whole: bool) {
    exists mark, before, v, rest :: BeginsWith(text, mark, before, v, rest) && (whole ==> LaxBlank(rest))
  }

  /** The answer is the meaning of this value, and where reading stopped. */
  ghost predicate Answers(r: Parsed<Json>, v: Lax, end: int) {
    IsLax(v) && r.Ok? && r.value == LaxMeaning(v) && r.offset == end
  }

  /** The parser's answer is that of this way to write the text. */
  ghost predicate AnsweredBy(r: Parsed<Json>, text: Text, whole: bool, mark: bool, before: Text, v: Lax, rest: Text) {
    && BeginsWith(text, mark, before, v, rest) && (whole ==> LaxBlank(rest))
    && Answers(r, v, if whole then |text| else |text| - |rest|)
  }

  /** Blanks up to the final NUL, which is taken for one and stepped back onto. */
  lemma LaxBlanksToEnd(c: seq<byte>, i: nat, s: Text)
    requires Terminated(c) && LaxBlank(s) && At(c, i, s) && i + |s| + 1 == |c|
    ensures SkipBlanks(c, i) == |c| - 1 && EndsAt(c, i)
  {
    forall k | i <= k < i + |s| ensures c[k] <= 32 {
      AtIndex(c, i, s, k - i);
    }
  }

  lemma MarkSkipped(c: seq<byte>, mark: bool, before: Text, s: Text)
    requires Terminated(c) && LaxBlank(before) && s != [] && 32 < s[0] < 0x80
    requires var m := if mark then MARK else [];
             At(c, 0, m) && At(c, |m|, before) && At(c, |m| + |before|, s) && |m| + |before| + |s| < |c|
    ensures SkipBom(c) == if mark then 3 else 0
  {
    AtIndex(c, (if mark then 3 else 0) + |before|, s, 0);
    if !mark && before != [] {
      AtIndex(c, 0, before, 0);
    }
  }

  /** Where what follows the first blanks stands. */
  lemma StartPlace(text: Text, mark: bool, before: Text, s: Text, rest: Text) returns (i: nat)
    requires text == (if mark then MARK else []) + before + s + rest
    requires LaxBlank(before) && s != [] && 32 < s[0] < 0x80
    ensures var c := text + [NUL];
            && At(c, i, s) && At(c, i + |s|, rest) && i + |s| + |rest| == |text| && SkipBlanks(c, SkipBom(c)) == i
  {
    hide At, SkipBlanks, LaxBlank, EndsAt;
    var c, m := text + [NUL], if mark then MARK else [];
    WholeText(text);
    AtConcat(c, 0, m + before + s, rest);
    AtConcat3(c, 0, m, before, s);
    i := |m| + |before|;
    AtIndex(c, i, s, 0);
    LaxBlanksAt(c, |m|, before);
    MarkSkipped(c, mark, before, s);
  }

  /** Where the value of a text stands. */
  lemma {:induction false} ValuePlace(text: Text, mark: bool, before: Text, v: Lax, rest: Text) returns (i: nat)
    requires BeginsWith(text, mark, before, v, rest)
    ensures var c := text + [NUL];
            && At(c, i, LaxText(v)) && At(c, i + |LaxText(v)|, rest) && i + |LaxText(v)| + |rest| == |text|
            && SkipBlanks(c, SkipBom(c)) == i
  {
    hide SkipBlanks, SkipBom, LaxText, LaxDepth, IsLax, LaxBlank;
    var s := LaxText(v);
    assert At(s, 0, s);
    LaxStart(s, 0, v);
    hide At;
    i := StartPlace(text, mark, before, s, rest);
  }

  lemma {:induction false} WrittenIsAccepted(text: Text, mark: bool, before: Text, v: Lax, after: Text)
    requires BeginsWith(text, mark, before, v, after) && LaxBlank(after)
    ensures Answers(ParseDocument(text + [NUL], true), v, |text|)
  {
    hide At, ParseValueSpec, SkipBlanks, SkipBom, LaxText, LaxMeaning, LaxDepth, IsLax, LaxBlank, EndsAt;
    var i := ValuePlace(text, mark, before, v, after);
    LaxBlanksToEnd(text + [NUL], i + |LaxText(v)|, after);
    ParseLax(text + [NUL], i, v, 0);
  }

  /** Nothing behind the value could be more of it. */
  predicate Ended(v: Lax, rest: Text) {
    v.LaxNumber? && rest != [] ==> !Decimal.IsNumberChar(rest[0])
  }

  lemma {:induction false} EndedIsAnswered(text: Text, mark: bool, before: Text, v: Lax, rest: Text)
    requires BeginsWith(text, mark, before, v, rest) && Ended(v, rest)
    ensures Answers(ParseDocument(text + [NUL], false), v, |text| - |rest|)
  {
    hide At, ParseValueSpec, SkipBlanks, SkipBom, LaxText, LaxMeaning, LaxDepth, IsLax, LaxBlank, Decimal.IsNumberChar;
    var i := ValuePlace(text, mark, before, v, rest);
    var c := text + [NUL];
    if rest == [] {
      NulIsNoNumber(c);
    } else {
      AtIndex(c, i + |LaxText(v)|, rest, 0);
    }
    ParseLax(c, i, v, 0);
  }

  /** If something follows a numeral, the parser may take more of it, but it finds a value. */
  lemma {:induction false} BegunIsAccepted(text: Text, mark: bool, before: Text, v: Lax, rest: Text)
    requires BeginsWith(text, mark, before, v, rest)
    ensures ParseDocument(text + [NUL], false).Ok?
  {
    hide At, ParseValueSpec, SkipBlanks, SkipBom, LaxText, LaxMeaning, LaxDepth, IsLax, LaxBlank;
    var i := ValuePlace(text, mark, before, v, rest);
    ParseLaxPrefix(text + [NUL], i, v, 0);
  }

  /** What the parser has accepted, taken apart. */
  lemma {:induction false} AcceptedIsWritten(text: Text, whole: bool)
    returns (mark: bool, before: Text, v: Lax, rest: Text)
    requires ParseDocument(text + [NUL], whole).Ok?
    ensures AnsweredBy(ParseDocument(text + [NUL], whole), text, whole, mark, before, v, rest)
  {
    hide ParseValueSpec, SkipBlanks, LaxText, LaxMeaning, LaxDepth, IsLax, LaxBlank, At;
    var c := text + [NUL];
    assert IsCString(c);
    mark := SkipBom(c) == 3;
    var m := SkipBom(c);
    var i := SkipBlanks(c, m);
    ValueBegins(c, i, 0);
    before := SkippedPart(c, m);
    v := ExtractValue(c, i, 0);
    var j := i + |LaxText(v)|;
    rest := Part(c, j, |text|);
    if whole {
      AllSkipped(c, j, rest);
    }
    FourParts(text, mark, before, LaxText(v), rest);
  }

  lemma FourParts(text: Text, mark: bool, before: Text, s: Text, rest: Text)
    requires var c, m := text + [NUL], if mark then 3 else 0;
             && (mark <==> 4 < |c| && At(c, 0, BOM)) && At(c, m, before) && At(c, m + |before|, s)
             && At(c, m + |before| + |s|, rest) && m + |before| + |s| + |rest| == |text|
    ensures text == (if mark then MARK else []) + before + s + rest
  {
    var c := text + [NUL];
    var m: Text := if mark then MARK else [];
    assert At(c, 0, m);
    hide At;
    Join3(c, 0, m, before, s);
    Join3(c, 0, m + before + s, rest, []) by {
      AtNothing(c, |text|);
    }
    assert At(c, 0, m + before + s + rest);
    SameText(text, m + before + s + rest);
  }

  lemma SameText(text: Text, s: Text)
    requires At(text + [NUL], 0, s) && |s| == |text|
    ensures s == text
  {
    assert (text + [NUL])[0..|text|] == text;
  }

  lemma AllSkipped(c: seq<byte>, i: nat, s: Text)
    requires IsCString(c) && i < |c| && s == c[i..|c| - 1] && c[SkipBlanks(c, i)] == NUL
    ensures LaxBlank(s)
  {
    var j := SkipBlanks(c, i);
    assert forall k :: i <= k < j ==> c[k] <= 32;
    assert j == |c| - 1;
    assert forall k :: 0 <= k < |s| ==> s[k] == c[i + k];
  }

  /**
   The language of the parser: a text is accepted exactly if it begins with a value of the lax grammar, and for one
   that must be read to its end, if only blanks follow. The answer is that of a way to write the text, and where it
   must be read to its end, that of every way; otherwise, of every way in which nothing behind the value could be
   more of it.
   */
  lemma {:induction false} AcceptedExactly(text: Text, whole: bool)
    ensures ParseDocument(text + [NUL], whole).Ok? <==> InLanguage(text, whole)
    ensures ParseDocument(text + [NUL], whole).Ok? ==>
              exists mark, before, v, rest ::
                AnsweredBy(ParseDocument(text + [NUL], whole), text, whole, mark, before, v, rest)
    ensures forall mark, before, v, after :: BeginsWith(text, mark, before, v, after) && LaxBlank(after) ==>
              Answers(ParseDocument(text + [NUL], true), v, |text|)
    ensures forall mark, before, v, rest :: BeginsWith(text, mark, before, v, rest) && Ended(v, rest) ==>
              Answers(ParseDocument(text + [NUL], false), v, |text| - |rest|)
  {
    hide ParseDocument, BeginsWith, LaxMeaning, LaxBlank, Ended;
    if ParseDocument(text + [NUL], whole).Ok? {
      var mark, before, v, rest := AcceptedIsWritten(text, whole);
    }
    if InLanguage(text, whole) {
      var mark, before, v, rest :| BeginsWith(text, mark, before, v, rest) && (whole ==> LaxBlank(rest));
      if whole {
        WrittenIsAccepted(text, mark, before, v, rest);
      } else {
        BegunIsAccepted(text, mark, before, v, rest);
      }
    }
    forall mark, before, v, after | BeginsWith(text, mark, before, v, after) && LaxBlank(after)
      ensures Answers(ParseDocument(text + [NUL], true), v, |text|)
    {
      WrittenIsAccepted(text, mark, before, v, after);
    }
    forall mark, before, v, rest | BeginsWith(text, mark, before, v, rest) && Ended(v, rest)
      ensures Answers(ParseDocument(text + [NUL], false), v, |text| - |rest|)
    {
      EndedIsAnswered(text, mark, before, v, rest);
    }
  }

  /**
   What is read of a text that begins like a number, if its end is not asked for: what `strtod` takes of the first 63
   characters that could belong to a number.
   */
  lemma {:induction false} NumberReadExactly(text: Text, mark: bool, before: Text, s: Text, rest: Text)
    requires text == (if mark then MARK else []) + before + s + rest && LaxBlank(before)
    requires s != [] && (s[0] == MINUS || Decimal.IsDigit(s[0]))
    requires forall k :: 0 <= k < |s| ==> Decimal.IsNumberChar(s[k])
    requires rest != [] ==> !Decimal.IsNumberChar(rest[0])
    ensures var r := ParseDocument(text + [NUL], false);
            var (value, length) := Decimal.Strtod(if |s| > 63 then s[..63] else s);
            if length == 0 then r.Fail?
            else r == Ok(Json.Number(value), |if mark then MARK else []| + |before| + length)
  {
    hide SkipBlanks, SkipBom, LaxBlank, At, Decimal.Strtod, ParseValueSpec, ParseNumberSpec, Decimal.IsNumberChar;
    var c := text + [NUL];
    var i := StartPlace(text, mark, before, s, rest);
    if rest == [] {
      NulIsNoNumber(c);
    } else {
      AtIndex(c, i + |s|, rest, 0);
    }
    AtIndex(c, i, s, 0);
    Dispatch(c, i, 0);
    CopiedNumber(c, i, s);
  }

  lemma CopiedNumber(c: seq<byte>, off: nat, s: Text)
    requires Terminated(c) && At(c, off, s) && EndsAt(c, off + |s|) && s != []
    requires forall k :: 0 <= k < |s| ==> Decimal.IsNumberChar(s[k])
    ensures var (value, length) := Decimal.Strtod(if |s| > 63 then s[..63] else s);
            if length == 0 then ParseNumberSpec(c, off).Fail?
            else ParseNumberSpec(c, off) == Ok(Json.Number(value), off + length)
  {
    hide Decimal.Strtod, Decimal.IsNumberChar;
    forall k | off <= k < off + |s| ensures Decimal.IsNumberChar(c[k]) {
      AtIndex(c, off, s, k - off);
    }
    var n := if |s| > 63 then 63 else |s|;
    NumberCharsEndAt(c, off, off + n, if off + 63 < |c| then off + 63 else |c|);
    assert s == s[..n] + s[n..];
    AtConcat(c, off, s[..n], s[n..]);
    assert c[off..NumberEnd(c, off)] == s[..n];
  }
}
