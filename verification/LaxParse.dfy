/**
 The parser accepts exactly the texts of the lax grammar that nest at most 1000 deep.
 */
module LaxParse {
  import opened Bytes
  import opened JsonTree
  import opened ParseSpec
  import opened StringLiteral
  import opened LaxGrammar
  import opened LaxStrings
  import opened GrammarParse
  import Decimal

  // ---------------------------------------------------------------- texts of the lax grammar are accepted

  lemma LaxBlanksAt(c: seq<byte>, i: nat, s: Text)
    requires Terminated(c) && At(c, i, s) && LaxBlank(s) && i + |s| < |c| && c[i + |s|] > 32
    ensures SkipBlanks(c, i) == i + |s|
    ensures EndsAt(c, i + |s|) ==> EndsAt(c, i)
  {
    forall k | i <= k < i + |s| ensures c[k] <= 32 {
      AtIndex(c, i, s, k - i);
    }
    BlanksEndOver(c, i, |s|);
  }

  /** A value begins with a byte that is neither blank nor a closing bracket. */
  lemma {:induction false} LaxStart(c: seq<byte>, off: nat, v: Lax)
    requires IsLax(v) && At(c, off, LaxText(v))
    ensures LaxText(v) != [] && off < |c| && c[off] > 32 && c[off] != RBRACKET && c[off] != RBRACE && c[off] < 0x80
  {
    hide LaxElementsText, LaxPairsText, LaxLiteral, Decimal.Strtod;
    AtIndex(c, off, LaxText(v), 0);
  }

  lemma ParseLaxNumber(c: seq<byte>, off: nat, s: Text)
    requires Terminated(c) && LaxNumeral(s) && At(c, off, s) && EndsAt(c, off + |s|)
    ensures off < |c| && (c[off] == MINUS || ZERO <= c[off] <= NINE)
    ensures ParseNumberSpec(c, off) == Ok(Json.Number(Decimal.Strtod(s).0), off + |s|)
  {
    hide Decimal.Strtod, Decimal.IsNumberChar;
    forall k | off <= k < off + |s| ensures Decimal.IsNumberChar(c[k]) {
      AtIndex(c, off, s, k - off);
    }
    AtIndex(c, off, s, 0);
    NumberCharsEndAt(c, off, off + |s|, if off + 63 < |c| then off + 63 else |c|);
    assert NumberEnd(c, off) == off + |s| && c[off..off + |s|] == s;
  }

  lemma {:induction false} ParseLaxScalar(c: seq<byte>, off: nat, v: Lax, depth: nat)
    requires Terminated(c) && IsLax(v) && !v.LaxArray? && !v.LaxObject?
    requires At(c, off, LaxText(v)) && (v.LaxNumber? ==> EndsAt(c, off + |LaxText(v)|))
    ensures ParseValueSpec(c, off, depth) == Ok(LaxMeaning(v), off + |LaxText(v)|)
  {
    hide ParseArraySpec, ParseObjectSpec, ParseStringSpec, ParseNumberSpec, At, LaxLiteral, LaxNumeral, LaxValue,
         Enclosed, Decimal.Strtod, Decimal.IsNumberChar, UpToNul;
    match v
    case LaxNumber(s) =>
      ParseLaxNumber(c, off, s);
      Dispatch(c, off, depth);
    case LaxString(body, chars) =>
      ParseLaxString(c, off, body, chars);
      Dispatch(c, off, depth);
    case _ =>
      KeywordsApart(c, off);
  }

  /** A numeral with anything behind it is still a number. */
  lemma ParseNumberPrefix(c: seq<byte>, off: nat, s: Text)
    requires Terminated(c) && LaxNumeral(s) && At(c, off, s)
    ensures off < |c| && (c[off] == MINUS || ZERO <= c[off] <= NINE) && ParseNumberSpec(c, off).Ok?
  {
    hide Decimal.Strtod, Decimal.IsNumberChar;
    forall k | off <= k < off + |s| ensures Decimal.IsNumberChar(c[k]) {
      AtIndex(c, off, s, k - off);
    }
    AtIndex(c, off, s, 0);
    var limit := if off + 63 < |c| then off + 63 else |c|;
    NumberCharsBeyond(c, off, off + |s|, limit);
    var t := c[off..NumberEnd(c, off)];
    assert t[..|s|] == s;
    Decimal.StrtodOfMore(t, |s|);
  }

  lemma {:induction false} NumberCharsBeyond(c: seq<byte>, i: nat, stop: nat, limit: nat)
    requires i <= stop <= limit <= |c| && forall k :: i <= k < stop ==> Decimal.IsNumberChar(c[k])
    ensures NumberCharsEnd(c, i, limit) >= stop
    decreases stop - i
  {
    hide Decimal.IsNumberChar;
    if i == stop {
    } else {
      NumberCharsBeyond(c, i + 1, stop, limit);
    }
  }

  /** A value of the lax grammar with anything behind it is accepted. */
  lemma {:induction false} ParseLaxPrefix(c: seq<byte>, off: nat, v: Lax, depth: nat)
    requires Terminated(c) && IsLax(v) && depth + LaxDepth(v) <= NESTING_LIMIT && At(c, off, LaxText(v))
    ensures off < |c| && ParseValueSpec(c, off, depth).Ok?
  {
    hide ParseValueSpec, ParseNumberSpec, At, LaxNumeral, LaxLiteral, LaxElements, LaxPairs, LaxMeaning;
    LaxStart(c, off, v);
    if v.LaxNumber? {
      ParseNumberPrefix(c, off, v.numeral);
      Dispatch(c, off, depth);
    } else {
      ParseLax(c, off, v, depth);
    }
  }

  /** A value of the lax grammar is taken for its meaning, if it does not nest too deep. */
  lemma {:induction false} ParseLax(c: seq<byte>, off: nat, v: Lax, depth: nat)
    requires Terminated(c) && IsLax(v) && depth + LaxDepth(v) <= NESTING_LIMIT
    requires At(c, off, LaxText(v)) && (v.LaxNumber? ==> EndsAt(c, off + |LaxText(v)|))
    ensures ParseValueSpec(c, off, depth) == Ok(LaxMeaning(v), off + |LaxText(v)|)
    decreases v, 0
  {
    hide ParseValueSpec, ParseArraySpec, ParseObjectSpec, At, LaxElements, LaxPairs, LaxElementsText, LaxPairsText,
         LaxElementsDepth, LaxPairsDepth, LaxItems, LaxMembers, LaxLiteral, LaxNumeral, LaxBlank, EndsAt;
    match v
    case LaxArray(blank, es) =>
      ParseLaxArray(c, off, blank, es, depth);
      Dispatch(c, off, depth);
    case LaxObject(blank, ps) =>
      ParseLaxObject(c, off, blank, ps, depth);
      Dispatch(c, off, depth);
    case _ =>
      ParseLaxScalar(c, off, v, depth);
  }

  lemma {:induction false} ParseLaxArray(c: seq<byte>, off: nat, blank: Text, es: seq<LaxElement>, depth: nat)
    requires Terminated(c) && LaxBlank(blank) && LaxElements(es) && depth + 1 + LaxElementsDepth(es) <= NESTING_LIMIT
    requires At(c, off, [LBRACKET] + (blank + LaxElementsText(es)) + [RBRACKET])
    ensures off < |c| && c[off] == LBRACKET
    ensures ParseArraySpec(c, off, depth) == Ok(Array(LaxItems(es)), off + 2 + |blank| + |LaxElementsText(es)|)
    decreases es, 2
  {
    hide ParseItemsSpec, At, SkipBlanks, LaxElements, LaxElementsText, LaxElementsDepth, LaxItems, LaxBlank;
    BracketsAt(c, off, LBRACKET, blank + LaxElementsText(es), RBRACKET);
    AtConcat(c, off + 1, blank, LaxElementsText(es));
    if es == [] {
      NothingLax();
      LaxBlanksAt(c, off + 1, blank);
    } else {
      ElementsBegin(es);
      AtIndex(c, off + 1 + |blank|, LaxElementsText(es), 0);
      LaxBlanksAt(c, off + 1, blank);
      ParseLaxItems(c, off + 1 + |blank|, es, depth + 1);
    }
  }

  lemma {:induction false} ParseLaxObject(c: seq<byte>, off: nat, blank: Text, ps: seq<LaxPair>, depth: nat)
    requires Terminated(c) && LaxBlank(blank) && LaxPairs(ps) && depth + 1 + LaxPairsDepth(ps) <= NESTING_LIMIT
    requires At(c, off, [LBRACE] + (blank + LaxPairsText(ps)) + [RBRACE])
    ensures off < |c| && c[off] == LBRACE
    ensures ParseObjectSpec(c, off, depth) == Ok(Object(LaxMembers(ps)), off + 2 + |blank| + |LaxPairsText(ps)|)
    decreases ps, 3
  {
    hide ParseMembersSpec, At, SkipBlanks, LaxPairs, LaxPairsText, LaxPairsDepth, LaxMembers, LaxBlank;
    BracketsAt(c, off, LBRACE, blank + LaxPairsText(ps), RBRACE);
    AtConcat(c, off + 1, blank, LaxPairsText(ps));
    if ps == [] {
      NothingLax();
      LaxBlanksAt(c, off + 1, blank);
    } else {
      PairsBegin(ps);
      AtIndex(c, off + 1 + |blank|, LaxPairsText(ps), 0);
      LaxBlanksAt(c, off + 1, blank);
      ParseLaxMembers(c, off + 1 + |blank|, ps, depth + 1);
    }
  }

  lemma OneLeft<T>(s: seq<T>, x: T, rest: seq<T>)
    requires s == [x] + rest && rest == []
    ensures s == [x]
  {
  }

  lemma {:induction false} NothingLax()
    ensures LaxElementsText([]) == [] && LaxPairsText([]) == [] && LaxItems([]) == [] && LaxMembers([]) == []
    ensures LaxElementsDepth([]) == 0 && LaxPairsDepth([]) == 0
  {
  }

  function LaxElementsTail(es: seq<LaxElement>): Text
    requires es != []
  {
    if |es| == 1 then [] else [COMMA] + es[0].gap + LaxElementsText(es[1..])
  }

  function LaxPairsTail(ps: seq<LaxPair>): Text
    requires ps != []
  {
    if |ps| == 1 then [] else [COMMA] + ps[0].gap + LaxPairsText(ps[1..])
  }

  /** What the first of several elements contributes. */
  lemma {:induction false} FirstLaxElement(es: seq<LaxElement>)
    requires es != [] && LaxElements(es)
    ensures LaxElementsText(es) == LaxText(es[0].value) + es[0].after + LaxElementsTail(es)
    ensures LaxElementsTail(es) == if |es| == 1 then [] else [COMMA] + es[0].gap + LaxElementsText(es[1..])
    ensures LaxElementsDepth(es) == Max(LaxDepth(es[0].value), LaxElementsDepth(es[1..]))
    ensures LaxItems(es) == [LaxMeaning(es[0].value)] + LaxItems(es[1..])
    ensures IsLax(es[0].value) && LaxBlank(es[0].after) && LaxBlank(es[0].gap) && LaxElements(es[1..])
  {
    hide LaxText, LaxDepth, LaxMeaning, IsLax;
  }

  lemma {:induction false} FirstLaxPair(ps: seq<LaxPair>)
    requires ps != [] && LaxPairs(ps)
    ensures LaxPairsText(ps) == LaxPairText(ps[0]) + ps[0].after + LaxPairsTail(ps)
    ensures LaxPairsTail(ps) == if |ps| == 1 then [] else [COMMA] + ps[0].gap + LaxPairsText(ps[1..])
    ensures LaxPairsDepth(ps) == Max(LaxDepth(ps[0].value), LaxPairsDepth(ps[1..]))
    ensures LaxPairs(ps[1..]) && IsLaxPair(ps[0])
    ensures LaxMembers(ps) == [PairMeaning(ps[0])] + LaxMembers(ps[1..])
  {
    hide LaxPairText, LaxDepth, LaxMeaning, IsLax, LaxLiteral;
  }

  predicate IsLaxPair(p: LaxPair) {
    && LaxLiteral(p.key, p.chars) && LaxBlank(p.between) && LaxBlank(p.before) && IsLax(p.value)
    && LaxBlank(p.after) && LaxBlank(p.gap)
  }

  function PairMeaning(p: LaxPair): Member
    requires IsLaxPair(p)
  {
    Member(Chars(UpToNul(LaxValue(p.chars))), LaxMeaning(p.value))
  }

  lemma {:induction false} ElementsBegin(es: seq<LaxElement>)
    requires es != [] && LaxElements(es)
    ensures var s := LaxElementsText(es); s != [] && s[0] > 32 && s[0] != RBRACKET
  {
    hide LaxText, LaxElementsText, IsLax;
    FirstLaxElement(es);
    var s := LaxText(es[0].value);
    assert s[0..|s|] == s;
    LaxStart(s, 0, es[0].value);
  }

  lemma {:induction false} PairsBegin(ps: seq<LaxPair>)
    requires ps != [] && LaxPairs(ps)
    ensures var s := LaxPairsText(ps); s != [] && s[0] == QUOTE
  {
    hide LaxText, LaxPairsText, LaxLiteral;
    FirstLaxPair(ps);
    assert LaxPairText(ps[0])[0] == QUOTE;
  }

  /** The first value ends at `j`, and at `k` is a comma or what closes the list; the rest begins at `m`. */
  ghost predicate ListAt(c: seq<byte>, j: nat, k: nat, m: nat, end: nat, last: bool, close: byte)
    requires Terminated(c)
  {
    && j <= k < |c| && EndsAt(c, j) && SkipBlanks(c, j) == k
    && if last then k == end && c[k] == close else c[k] == COMMA && k + 1 < |c| && SkipBlanks(c, k + 1) == m
  }

  /** A piece, blanks, and the end of the list or a comma, blanks and more. */
  lemma ListLayout(c: seq<byte>, i: nat, core: Text, after: Text, tail: Text, gap: Text, rest: Text, close: nonzero)
    requires Terminated(c) && LaxBlank(after) && LaxBlank(gap) && close in {RBRACKET, RBRACE}
    requires At(c, i, core + after + tail)
    requires var end := i + |core| + |after| + |tail|; end < |c| && c[end] == close
    requires tail == [] || (tail == [COMMA] + gap + rest && rest != [] && rest[0] > 32)
    ensures var j := i + |core|;
            var k := j + |after|;
            var m := k + 1 + |gap|;
            && At(c, i, core) && ListAt(c, j, k, m, k + |tail|, tail == [], close)
            && (tail != [] ==> At(c, m, rest) && m + |rest| == k + |tail|)
  {
    hide At, SkipBlanks, LaxBlank, EndsAt;
    var j := i + |core|;
    var k := j + |after|;
    AtConcat3(c, i, core, after, tail);
    if tail != [] {
      AtConcat3(c, k, [COMMA], gap, rest);
      AtIndex(c, k, [COMMA], 0);
      AtIndex(c, k + 1 + |gap|, rest, 0);
      LaxBlanksAt(c, k + 1, gap);
    }
    StopsAt(c, k);
    LaxBlanksAt(c, j, after);
  }

  lemma {:induction false} ParseLaxItems(c: seq<byte>, i: nat, es: seq<LaxElement>, depth: nat)
    requires Terminated(c) && es != [] && LaxElements(es) && depth + LaxElementsDepth(es) <= NESTING_LIMIT
    requires At(c, i, LaxElementsText(es))
    requires i + |LaxElementsText(es)| < |c| && c[i + |LaxElementsText(es)|] == RBRACKET
    ensures ParseItemsSpec(c, i, depth) == Ok(LaxItems(es), i + |LaxElementsText(es)| + 1)
    decreases es, 1
  {
    hide At, ParseValueSpec, ParseItemsSpec, SkipBlanks, LaxText, LaxElementsText, LaxDepth, LaxElementsDepth,
         LaxMeaning, LaxItems, IsLax, LaxElements, LaxElementsTail, LaxBlank, EndsAt, Terminated;
    var j := i + |LaxText(es[0].value)|;
    var k := j + |es[0].after|;
    var m := k + 1 + |es[0].gap|;
    FirstLaxElement(es);
    if |es| > 1 {
      ElementsBegin(es[1..]);
    }
    ListLayout(c, i, LaxText(es[0].value), es[0].after, LaxElementsTail(es), es[0].gap, LaxElementsText(es[1..]),
               RBRACKET);
    ParseLax(c, i, es[0].value, depth);
    ItemsUnfold(c, i, depth);
    if |es| == 1 {
      NothingLax();
      assert es[1..] == [];
      OneLeft(LaxItems(es), LaxMeaning(es[0].value), LaxItems(es[1..]));
    } else {
      ParseLaxItems(c, m, es[1..], depth);
    }
  }

  lemma {:induction false} ParseLaxMember(c: seq<byte>, i: nat, p: LaxPair, depth: nat)
    requires Terminated(c) && IsLaxPair(p) && depth + LaxDepth(p.value) <= NESTING_LIMIT
    requires At(c, i, LaxPairText(p)) && i < |c| && EndsAt(c, i + |LaxPairText(p)|)
    ensures ParseMemberSpec(c, i, depth) == Ok(PairMeaning(p), i + |LaxPairText(p)|)
    decreases p, 1
  {
    hide At, ParseValueSpec, ParseStringSpec, SkipBlanks, LaxText, Enclosed, LaxDepth, LaxMeaning, LaxValue, IsLax,
         LaxLiteral, LaxBlank, EndsAt, UpToNul;
    var key, value := Enclosed(p.key), LaxText(p.value);
    AtConcat3(c, i, key, p.between, [COLON] + p.before + value);
    var j := i + |key| + |p.between|;
    AtConcat3(c, j, [COLON], p.before, value);
    AtIndex(c, j, [COLON], 0);
    ParseLaxString(c, i, p.key, p.chars);
    LaxBlanksAt(c, i + |key|, p.between);
    LaxStart(c, j + 1 + |p.before|, p.value);
    LaxBlanksAt(c, j + 1, p.before);
    ParseLax(c, j + 1 + |p.before|, p.value, depth);
  }

  lemma {:induction false} ParseLaxMembers(c: seq<byte>, i: nat, ps: seq<LaxPair>, depth: nat)
    requires Terminated(c) && ps != [] && LaxPairs(ps) && depth + LaxPairsDepth(ps) <= NESTING_LIMIT
    requires At(c, i, LaxPairsText(ps)) && i + |LaxPairsText(ps)| < |c| && c[i + |LaxPairsText(ps)|] == RBRACE
    ensures ParseMembersSpec(c, i, depth) == Ok(LaxMembers(ps), i + |LaxPairsText(ps)| + 1)
    decreases ps, 2
  {
    hide At, ParseMemberSpec, ParseMembersSpec, SkipBlanks, LaxPairText, LaxPairsText, LaxDepth, LaxPairsDepth,
         PairMeaning, LaxMembers, LaxPairs, LaxPairsTail, LaxBlank, LaxLiteral, IsLax, EndsAt, Terminated;
    var j := i + |LaxPairText(ps[0])|;
    var k := j + |ps[0].after|;
    var m := k + 1 + |ps[0].gap|;
    FirstLaxPair(ps);
    assert LaxBlank(ps[0].after) && LaxBlank(ps[0].gap);
    if |ps| > 1 {
      PairsBegin(ps[1..]);
    }
    ListLayout(c, i, LaxPairText(ps[0]), ps[0].after, LaxPairsTail(ps), ps[0].gap, LaxPairsText(ps[1..]), RBRACE);
    ParseLaxMember(c, i, ps[0], depth);
    MembersUnfold(c, i, depth);
    if |ps| == 1 {
      NothingLax();
      assert ps[1..] == [];
      OneLeft(LaxMembers(ps), PairMeaning(ps[0]), LaxMembers(ps[1..]));
    } else {
      ParseLaxMembers(c, m, ps[1..], depth);
    }
  }
}
