/**
 The parser accepts every text of the grammar that nests at most 1000 deep, pairs its surrogates and keeps its
 numerals short, and gives it its meaning.
 */
module GrammarParse {
  import opened Bytes
  import opened JsonTree
  import opened ParseSpec
  import opened StringLiteral
  import opened StringGrammar
  import opened StringDecoding
  import opened NumeralGrammar
  import opened Grammar
  import Decimal

  /** Parsing stopped inside a number, in front of a byte that cannot follow a value. */
  ghost predicate Cut<T>(c: seq<byte>, r: Parsed<T>, end: nat) {
    r.Ok? ==> r.offset < end && r.offset < |c| && Decimal.IsNumberChar(c[r.offset])
  }

  /** A numeral of more than 63 characters that ends at `end` is read as `strtod` reads its first 63. */
  ghost predicate CutNumeral(n: Numeral, r: Parsed<Json>, end: nat) {
    && |NumeralText(n)| > 63
    && var (value, length) := Decimal.Strtod(NumeralText(n)[..63]);
       0 < length <= 63 && r.Ok? && r.value == Json.Number(value) && r.offset + |NumeralText(n)| == end + length
  }

  /** The parser's answer is right for a value that ends at `end`. */
  ghost predicate Taken(c: seq<byte>, v: Syntax, r: Parsed<Json>, depth: nat, end: nat)
    requires WellFormed(v)
  {
    if depth + Depth(v) <= NESTING_LIMIT && AllPaired(v) && ShortNumerals(v) then r == Ok(Meaning(v), end)
    else if v.NumberWord? then Cut(c, r, end) && CutNumeral(v.numeral, r, end)
    else r.Fail?
  }

  ghost predicate ElementsTaken(es: seq<Element>, r: Parsed<seq<Json>>, depth: nat, end: nat)
    requires WellFormedElements(es)
  {
    if depth + ElementsDepth(es) <= NESTING_LIMIT && ElementsPaired(es) && ElementsShort(es) then
      r == Ok(ElementsMeaning(es), end)
    else r.Fail?
  }

  ghost predicate PairsTaken(ps: seq<Pair>, r: Parsed<seq<Member>>, depth: nat, end: nat)
    requires WellFormedPairs(ps)
  {
    if depth + PairsDepth(ps) <= NESTING_LIMIT && PairsPaired(ps) && PairsShort(ps) then r == Ok(PairsMeaning(ps), end)
    else r.Fail?
  }

  ghost predicate PairTaken(c: seq<byte>, p: Pair, r: Parsed<Member>, depth: nat, end: nat)
    requires WellFormedCharacters(p.key) && WellFormed(p.value)
  {
    if depth + Depth(p.value) <= NESTING_LIMIT && Paired(p.key) && AllPaired(p.value) && ShortNumerals(p.value) then
      r == Ok(Member(Chars(StringMeaning(p.key)), Meaning(p.value)), end)
    else Cut(c, r, end)
  }

  /** A value ends at `end`: nothing there could continue a number. */
  predicate EndsAt(c: seq<byte>, end: nat) {
    end < |c| && !Decimal.IsNumberChar(c[end])
  }

  lemma StopsAt(c: seq<byte>, k: nat)
    requires k < |c| && c[k] in {COMMA, RBRACKET, RBRACE}
    ensures EndsAt(c, k)
  {
  }

  lemma {:induction false} BlanksEndOver(c: seq<byte>, i: nat, n: nat)
    requires i + n < |c| && (forall k :: i <= k < i + n ==> c[k] <= 32) && c[i + n] > 32
    ensures BlanksEnd(c, i) == i + n
    decreases n
  {
    if n == 0 {
    } else {
      BlanksEndOver(c, i + 1, n - 1);
    }
  }

  /** Skipping stops right behind a run of blanks; and a value can end in front of one. */
  lemma BlanksAt(c: seq<byte>, i: nat, s: Text)
    requires Terminated(c) && At(c, i, s) && AllBlank(s) && i + |s| < |c| && c[i + |s|] > 32
    ensures SkipBlanks(c, i) == i + |s|
    ensures EndsAt(c, i + |s|) ==> EndsAt(c, i)
  {
    forall k | i <= k < i + |s| ensures IsBlank(c[k]) {
      AtIndex(c, i, s, k - i);
    }
    BlanksEndOver(c, i, |s|);
  }

  // ---------------------------------------------------------------- scalars

  lemma ParseNumeral(c: seq<byte>, off: nat, n: Numeral)
    requires Terminated(c) && WellFormedNumeral(n)
    requires At(c, off, NumeralText(n)) && EndsAt(c, off + |NumeralText(n)|)
    ensures off < |c| && (c[off] == MINUS || ZERO <= c[off] <= NINE)
    ensures var r, end := ParseNumberSpec(c, off), off + |NumeralText(n)|;
            if |NumeralText(n)| <= 63 then r == Ok(Json.Number(NumeralValue(n)), end)
            else Cut(c, r, end) && CutNumeral(n, r, end)
  {
    hide NumeralText, NumeralValue, Decimal.Strtod, Decimal.IsNumberChar;
    var s := NumeralText(n);
    NumeralCharacters(n);
    forall k | off <= k < off + |s| ensures Decimal.IsNumberChar(c[k]) {
      AtIndex(c, off, s, k - off);
    }
    AtIndex(c, off, s, 0);
    if |s| <= 63 {
      NumberCharsEndAt(c, off, off + |s|, if off + 63 < |c| then off + 63 else |c|);
      assert NumberEnd(c, off) == off + |s| && c[off..off + |s|] == s;
      StrtodOfNumeral(n);
    } else {
      NumberCharsEndAt(c, off, off + 63, off + 63);
      assert NumberEnd(c, off) == off + 63;
      AtConcat(c, off, s[..63], s[63..]);
      assert s == s[..63] + s[63..];
      assert c[off..off + 63] == s[..63];
      StrtodOfPrefix(n);
    }
  }

  /** The three keywords are told apart by their first byte. */
  lemma KeywordsApart(c: seq<byte>, off: nat)
    ensures At(c, off, NULL_TEXT) ==> c[off] == 110
    ensures At(c, off, FALSE_TEXT) ==> c[off] == 102
    ensures At(c, off, TRUE_TEXT) ==> c[off] == 116
  {
    if At(c, off, NULL_TEXT) { AtIndex(c, off, NULL_TEXT, 0); }
    if At(c, off, FALSE_TEXT) { AtIndex(c, off, FALSE_TEXT, 0); }
    if At(c, off, TRUE_TEXT) { AtIndex(c, off, TRUE_TEXT, 0); }
  }

  /** The first byte decides how a value is parsed. */
  lemma {:induction false} Dispatch(c: seq<byte>, off: nat, depth: nat)
    requires Terminated(c) && off < |c|
    ensures c[off] == QUOTE ==> ParseValueSpec(c, off, depth) == ParseStringValue(c, off)
    ensures c[off] == MINUS || ZERO <= c[off] <= NINE ==> ParseValueSpec(c, off, depth) == ParseNumberSpec(c, off)
    ensures c[off] == LBRACKET ==> ParseValueSpec(c, off, depth) == ParseArraySpec(c, off, depth)
    ensures c[off] == LBRACE ==> ParseValueSpec(c, off, depth) == ParseObjectSpec(c, off, depth)
  {
    hide ParseArraySpec, ParseObjectSpec, ParseStringValue, ParseNumberSpec, At;
    KeywordsApart(c, off);
  }

  lemma {:induction false} ParseScalar(c: seq<byte>, off: nat, v: Syntax, depth: nat)
    requires Terminated(c) && WellFormed(v) && !v.ArrayWord? && !v.ObjectWord?
    requires depth <= NESTING_LIMIT && At(c, off, SyntaxText(v)) && EndsAt(c, off + |SyntaxText(v)|)
    ensures Taken(c, v, ParseValueSpec(c, off, depth), depth, off + |SyntaxText(v)|)
  {
    hide ParseValueSpec, CutNumeral, NumeralText, NumeralValue, WellFormedNumeral, At, Decimal.IsNumberChar,
         StringText, StringMeaning, Paired, WellFormedCharacters;
    match v
    case NumberWord(n) =>
      ParseNumberWord(c, off, n, depth);
    case StringWord(chars) =>
      ParseStringWord(c, off, chars, depth);
    case _ =>
      ParseKeyword(c, off, v, depth);
  }

  lemma {:induction false} ParseNumberWord(c: seq<byte>, off: nat, n: Numeral, depth: nat)
    requires Terminated(c) && WellFormedNumeral(n)
    requires At(c, off, NumeralText(n)) && EndsAt(c, off + |NumeralText(n)|)
    ensures var r, end := ParseValueSpec(c, off, depth), off + |NumeralText(n)|;
            if |NumeralText(n)| <= 63 then r == Ok(Json.Number(NumeralValue(n)), end)
            else Cut(c, r, end) && CutNumeral(n, r, end)
  {
    hide ParseValueSpec, ParseNumberSpec, NumeralText, NumeralValue, WellFormedNumeral, At, EndsAt, Cut, CutNumeral;
    ParseNumeral(c, off, n);
    Dispatch(c, off, depth);
  }

  lemma {:induction false} ParseStringWord(c: seq<byte>, off: nat, chars: seq<Character>, depth: nat)
    requires Terminated(c) && WellFormedCharacters(chars) && At(c, off, StringText(chars))
             && off + |StringText(chars)| < |c|
    ensures var r := ParseValueSpec(c, off, depth);
            if Paired(chars) then r == Ok(String(Chars(StringMeaning(chars))), off + |StringText(chars)|) else r.Fail?
  {
    ParseStringText(c, off, chars);
    AtIndex(c, off, StringText(chars), 0);
    StringStart(chars);
    hide ParseValueSpec, ParseStringSpec, StringText, StringMeaning, Paired, WellFormedCharacters, At;
    Dispatch(c, off, depth);
  }

  lemma StringStart(chars: seq<Character>)
    requires WellFormedCharacters(chars)
    ensures StringText(chars)[0] == QUOTE
  {
  }

  lemma {:induction false} ParseKeyword(c: seq<byte>, off: nat, v: Syntax, depth: nat)
    requires Terminated(c) && (v.NullWord? || v.FalseWord? || v.TrueWord?)
    requires depth <= NESTING_LIMIT && At(c, off, SyntaxText(v))
    ensures Taken(c, v, ParseValueSpec(c, off, depth), depth, off + |SyntaxText(v)|)
  {
    hide ParseArraySpec, ParseObjectSpec, ParseStringValue, ParseNumberSpec, At;
    KeywordsApart(c, off);
  }

  /** A value begins with a byte that is neither blank nor a closing bracket. */
  lemma {:induction false} SyntaxStart(c: seq<byte>, off: nat, v: Syntax)
    requires WellFormed(v) && At(c, off, SyntaxText(v))
    ensures off < |c| && c[off] > 32 && c[off] != RBRACKET && c[off] != RBRACE && c[off] < 0x80
  {
    hide ElementsText, PairsText, CharactersText;
    AtIndex(c, off, SyntaxText(v), 0);
    if v.NumberWord? {
      NumeralCharacters(v.numeral);
    }
  }

  // ---------------------------------------------------------------- containers

  /** Every value of the grammar is taken as it should be, inside any text that goes on with no number character. */
  lemma {:induction false} ParseText(c: seq<byte>, off: nat, v: Syntax, depth: nat)
    requires Terminated(c) && WellFormed(v) && depth <= NESTING_LIMIT
    requires At(c, off, SyntaxText(v)) && EndsAt(c, off + |SyntaxText(v)|)
    ensures Taken(c, v, ParseValueSpec(c, off, depth), depth, off + |SyntaxText(v)|)
    decreases v, 0
  {
    hide ParseValueSpec, ParseArraySpec, ParseObjectSpec, At, SyntaxText, Taken;
    match v
    case ArrayWord(blank, elements) =>
      ParseArrayText(c, off, blank, elements, depth);
      Dispatch(c, off, depth);
    case ObjectWord(blank, pairs) =>
      ParseObjectText(c, off, blank, pairs, depth);
      Dispatch(c, off, depth);
    case _ =>
      ParseScalar(c, off, v, depth);
  }

  /** Nothing is skipped where a number was cut, and no comma, bracket or NUL stands there. */
  lemma CutStops<T>(c: seq<byte>, r: Parsed<T>, end: nat)
    requires Terminated(c)
    ensures Cut(c, r, end) && r.Ok? ==>
              && r.offset < |c| && r.offset < end && SkipBlanks(c, r.offset) == r.offset
              && c[r.offset] !in {COMMA, RBRACKET, RBRACE, NUL}
  {
  }

  /** The outer brackets of a container. */
  lemma BracketsAt(c: seq<byte>, off: nat, open_: byte, body: Text, close: byte)
    requires At(c, off, [open_] + body + [close])
    ensures off < |c| && c[off] == open_ && At(c, off + 1, body)
    ensures off + 1 + |body| < |c| && c[off + 1 + |body|] == close
  {
    hide At;
    AtConcat3(c, off, [open_], body, [close]);
    AtIndex(c, off, [open_], 0);
    AtIndex(c, off + 1 + |body|, [close], 0);
  }

  lemma {:induction false} ContainerParts(blank: Text, es: seq<Element>, ps: seq<Pair>)
    requires AllBlank(blank) && WellFormedElements(es) && WellFormedPairs(ps)
    ensures var v := ArrayWord(blank, es);
            && Depth(v) == 1 + ElementsDepth(es) && (AllPaired(v) <==> ElementsPaired(es))
            && (ShortNumerals(v) <==> ElementsShort(es))
            && (AllPaired(v) ==> Meaning(v) == Array(ElementsMeaning(es)))
    ensures var v := ObjectWord(blank, ps);
            && Depth(v) == 1 + PairsDepth(ps) && (AllPaired(v) <==> PairsPaired(ps))
            && (ShortNumerals(v) <==> PairsShort(ps))
            && (AllPaired(v) ==> Meaning(v) == Object(PairsMeaning(ps)))
    ensures es == [] ==> ElementsDepth(es) == 0 && ElementsPaired(es) && ElementsShort(es) && ElementsMeaning(es) == []
    ensures ps == [] ==> PairsDepth(ps) == 0 && PairsPaired(ps) && PairsShort(ps) && PairsMeaning(ps) == []
  {
  }

  lemma {:induction false} ParseArrayText(c: seq<byte>, off: nat, blank: Text, es: seq<Element>, depth: nat)
    requires Terminated(c) && AllBlank(blank) && WellFormedElements(es) && depth <= NESTING_LIMIT
    requires At(c, off, SyntaxText(ArrayWord(blank, es)))
    ensures off < |c| && c[off] == LBRACKET
    ensures Taken(c, ArrayWord(blank, es), ParseArraySpec(c, off, depth), depth,
                  off + |SyntaxText(ArrayWord(blank, es))|)
    decreases es, 2
  {
    hide At, ElementsText, ParseItemsSpec, SkipBlanks, Depth, ElementsDepth, AllPaired, ElementsPaired, ShortNumerals,
         ElementsShort, Meaning, ElementsMeaning;
    ContainerParts(blank, es, []);
    BracketsAt(c, off, LBRACKET, if es == [] then blank else ElementsText(es), RBRACKET);
    if es == [] {
      BlanksAt(c, off + 1, blank);
    } else if depth < NESTING_LIMIT {
      ParseElements(c, off + 1, es, depth + 1);
    }
  }

  /** Three pieces and what follows them. */
  lemma PiecesAt(c: seq<byte>, start: nat, before: Text, core: Text, after: Text, tail: Text)
    requires At(c, start, before + core + after + tail)
    ensures var i := start + |before|;
            var k := i + |core| + |after|;
            && At(c, start, before) && At(c, i, core) && At(c, i + |core|, after) && At(c, k, tail)
            && k + |tail| <= |c| && (core != [] ==> c[i] == core[0])
  {
    AtConcat(c, start, before + core + after, tail);
    AtConcat3(c, start, before, core, after);
  }

  /** The first of several elements stands at `i`, its value ends at `j`, and at `k` is a comma or the bracket. */
  ghost predicate ElementAt(c: seq<byte>, start: nat, es: seq<Element>, i: nat, j: nat, k: nat)
    requires es != [] && Terminated(c) && start < |c|
  {
    && i == start + |es[0].before| && j == i + |SyntaxText(es[0].value)| && k == j + |es[0].after|
    && i < |c| && SkipBlanks(c, start) == i && c[i] != RBRACKET && At(c, i, SyntaxText(es[0].value))
    && EndsAt(c, j) && SkipBlanks(c, j) == k
    && var end := start + |ElementsText(es)|;
       if |es| == 1 then k == end && c[k] == RBRACKET
       else c[k] == COMMA && At(c, k + 1, ElementsText(es[1..])) && end == k + 1 + |ElementsText(es[1..])|
  }

  /** What follows the first of several elements, or members. */
  function ElementsTail(es: seq<Element>): Text
    requires es != []
  {
    if |es| == 1 then [] else [COMMA] + ElementsText(es[1..])
  }

  function PairsTail(ps: seq<Pair>): Text
    requires ps != []
  {
    if |ps| == 1 then [] else [COMMA] + PairsText(ps[1..])
  }

  lemma {:induction false} ElementsPieces(es: seq<Element>)
    requires es != []
    ensures ElementsText(es) == es[0].before + SyntaxText(es[0].value) + es[0].after + ElementsTail(es)
  {
    hide SyntaxText;
  }

  lemma {:induction false} ElementLayout(c: seq<byte>, start: nat, es: seq<Element>, i: nat, j: nat, k: nat)
    requires Terminated(c) && es != [] && WellFormedElements(es) && At(c, start, ElementsText(es))
    requires start + |ElementsText(es)| < |c| && c[start + |ElementsText(es)|] == RBRACKET
    requires i == start + |es[0].before| && j == i + |SyntaxText(es[0].value)| && k == j + |es[0].after|
    ensures ElementAt(c, start, es, i, j, k)
  {
    hide At, EndsAt, Terminated, SyntaxText, SkipBlanks, AllBlank, WellFormed, ElementText, ElementsText;
    var e := es[0];
    ElementsPieces(es);
    PiecesAt(c, start, e.before, SyntaxText(e.value), e.after, ElementsTail(es));
    SyntaxStart(c, i, e.value);
    BlanksAt(c, start, e.before);
    if |es| > 1 {
      AtConcat(c, k, [COMMA], ElementsText(es[1..]));
      AtIndex(c, k, [COMMA], 0);
    }
    StopsAt(c, k);
    BlanksAt(c, j, e.after);
  }

  /** One unfolding of the loop of `parse_array`. */
  lemma {:induction false} ItemsUnfold(c: seq<byte>, i: nat, depth: nat)
    requires i < |c| && Terminated(c)
    ensures match ParseValueSpec(c, i, depth)
            case Fail(_) => ParseItemsSpec(c, i, depth).Fail?
            case Ok(item, next) =>
              var j := SkipBlanks(c, next);
              && (c[j] != RBRACKET && c[j] != COMMA ==> ParseItemsSpec(c, i, depth).Fail?)
              && (c[j] == RBRACKET ==> ParseItemsSpec(c, i, depth) == Ok([item], j + 1))
              && (c[j] == COMMA ==>
                    ParseItemsSpec(c, i, depth) == PrependTo([item], ParseItemsSpec(c, SkipBlanks(c, j + 1), depth)))
  {
    hide ParseValueSpec, SkipBlanks;
  }

  /** What the first of several elements contributes. */
  lemma {:induction false} FirstElement(es: seq<Element>)
    requires es != [] && WellFormedElements(es)
    ensures ElementsDepth(es) == Max(Depth(es[0].value), ElementsDepth(es[1..]))
    ensures ElementsPaired(es) <==> AllPaired(es[0].value) && ElementsPaired(es[1..])
    ensures ElementsShort(es) <==> ShortNumerals(es[0].value) && ElementsShort(es[1..])
    ensures ElementsPaired(es) ==> ElementsMeaning(es) == [Meaning(es[0].value)] + ElementsMeaning(es[1..])
    ensures |es| == 1 ==>
              && ElementsDepth(es) == Depth(es[0].value) && (ElementsPaired(es) <==> AllPaired(es[0].value))
              && (ElementsShort(es) <==> ShortNumerals(es[0].value))
              && (ElementsPaired(es) ==> ElementsMeaning(es) == [Meaning(es[0].value)])
  {
    hide Depth, AllPaired, ShortNumerals, Meaning;
  }

  lemma {:induction false} ParseElements(c: seq<byte>, start: nat, es: seq<Element>, depth: nat)
    requires Terminated(c) && es != [] && WellFormedElements(es) && depth <= NESTING_LIMIT
    requires At(c, start, ElementsText(es))
    requires start + |ElementsText(es)| < |c| && c[start + |ElementsText(es)|] == RBRACKET
    ensures var i := SkipBlanks(c, start);
            && i == start + |es[0].before| && c[i] != RBRACKET
            && ElementsTaken(es, ParseItemsSpec(c, i, depth), depth, start + |ElementsText(es)| + 1)
    decreases es, 1
  {
    hide At, SyntaxText, ElementsText, ParseValueSpec, ParseItemsSpec, SkipBlanks, Meaning, ElementsMeaning,
         AllPaired, ElementsPaired, ShortNumerals, ElementsShort, Depth, ElementsDepth, Cut;
    var i := start + |es[0].before|;
    var j := i + |SyntaxText(es[0].value)|;
    var k := j + |es[0].after|;
    ElementLayout(c, start, es, i, j, k);
    FirstElement(es);
    ParseText(c, i, es[0].value, depth);
    CutStops(c, ParseValueSpec(c, i, depth), j);
    ItemsUnfold(c, i, depth);
    if |es| == 1 {
    } else {
      ParseElements(c, k + 1, es[1..], depth);
    }
  }

  lemma {:induction false} ParseObjectText(c: seq<byte>, off: nat, blank: Text, ps: seq<Pair>, depth: nat)
    requires Terminated(c) && AllBlank(blank) && WellFormedPairs(ps) && depth <= NESTING_LIMIT
    requires At(c, off, SyntaxText(ObjectWord(blank, ps)))
    ensures off < |c| && c[off] == LBRACE
    ensures Taken(c, ObjectWord(blank, ps), ParseObjectSpec(c, off, depth), depth,
                  off + |SyntaxText(ObjectWord(blank, ps))|)
    decreases ps, 3
  {
    hide At, PairsText, ParseMembersSpec, SkipBlanks, Depth, PairsDepth, AllPaired, PairsPaired, ShortNumerals,
         PairsShort, Meaning, PairsMeaning;
    ContainerParts(blank, [], ps);
    BracketsAt(c, off, LBRACE, if ps == [] then blank else PairsText(ps), RBRACE);
    if ps == [] {
      BlanksAt(c, off + 1, blank);
    } else if depth < NESTING_LIMIT {
      ParsePairs(c, off + 1, ps, depth + 1);
    }
  }

  /** A member from its key to its value. */
  function PairCore(p: Pair): Text {
    StringText(p.key) + p.between + [COLON] + p.gap + SyntaxText(p.value)
  }

  /** The first of several members stands at `i`, its value ends at `j`, and at `k` is a comma or the brace. */
  ghost predicate PairAt(c: seq<byte>, start: nat, ps: seq<Pair>, i: nat, j: nat, k: nat)
    requires ps != [] && Terminated(c) && start < |c|
  {
    && i == start + |ps[0].before| && j == i + |PairCore(ps[0])| && k == j + |ps[0].after|
    && i < |c| && SkipBlanks(c, start) == i && c[i] == QUOTE && At(c, i, PairCore(ps[0]))
    && EndsAt(c, j) && SkipBlanks(c, j) == k
    && var end := start + |PairsText(ps)|;
       if |ps| == 1 then k == end && c[k] == RBRACE
       else c[k] == COMMA && At(c, k + 1, PairsText(ps[1..])) && end == k + 1 + |PairsText(ps[1..])|
  }

  lemma {:induction false} PairsPieces(ps: seq<Pair>)
    requires ps != []
    ensures PairsText(ps) == ps[0].before + PairCore(ps[0]) + ps[0].after + PairsTail(ps)
    ensures PairCore(ps[0]) != [] && PairCore(ps[0])[0] == QUOTE
  {
    hide SyntaxText, CharactersText;
    var p := ps[0];
    assert PairText(p) == p.before + PairCore(p) + p.after;
  }

  lemma {:induction false} PairLayout(c: seq<byte>, start: nat, ps: seq<Pair>, i: nat, j: nat, k: nat)
    requires Terminated(c) && ps != [] && WellFormedPairs(ps) && At(c, start, PairsText(ps))
    requires start + |PairsText(ps)| < |c| && c[start + |PairsText(ps)|] == RBRACE
    requires i == start + |ps[0].before| && j == i + |PairCore(ps[0])| && k == j + |ps[0].after|
    ensures PairAt(c, start, ps, i, j, k)
  {
    hide At, EndsAt, Terminated, SyntaxText, SkipBlanks, CharactersText, AllBlank, WellFormedCharacters, WellFormed,
         PairsText, PairText, PairCore, StringText;
    var p := ps[0];
    PairsPieces(ps);
    PiecesAt(c, start, p.before, PairCore(p), p.after, PairsTail(ps));
    BlanksAt(c, start, p.before);
    if |ps| > 1 {
      AtConcat(c, k, [COMMA], PairsText(ps[1..]));
      AtIndex(c, k, [COMMA], 0);
    }
    StopsAt(c, k);
    BlanksAt(c, j, p.after);
  }

  /** Key, colon and value of a member. */
  lemma {:induction false} CoreLayout(c: seq<byte>, i: nat, p: Pair)
    requires Terminated(c) && At(c, i, PairCore(p)) && WellFormed(p.value) && AllBlank(p.between) && AllBlank(p.gap)
    ensures var j := i + |StringText(p.key)|;
            var k := j + |p.between|;
            var l := k + 1 + |p.gap|;
            && At(c, i, StringText(p.key)) && j < |c| && SkipBlanks(c, j) == k && c[k] == COLON
            && k + 1 < |c| && SkipBlanks(c, k + 1) == l && At(c, l, SyntaxText(p.value))
            && l + |SyntaxText(p.value)| == i + |PairCore(p)|
  {
    hide At, SyntaxText, StringText, SkipBlanks;
    var key, value := StringText(p.key), SyntaxText(p.value);
    assert PairCore(p) == key + p.between + ([COLON] + p.gap + value);
    AtConcat3(c, i, key, p.between, [COLON] + p.gap + value);
    var k := i + |key| + |p.between|;
    AtConcat3(c, k, [COLON], p.gap, value);
    AtIndex(c, k, [COLON], 0);
    SyntaxStart(c, k + 1 + |p.gap|, p.value);
    BlanksAt(c, i + |key|, p.between);
    BlanksAt(c, k + 1, p.gap);
  }

  lemma {:induction false} ParsePair(c: seq<byte>, i: nat, p: Pair, depth: nat)
    requires Terminated(c) && depth <= NESTING_LIMIT && i < |c|
    requires WellFormedCharacters(p.key) && WellFormed(p.value) && AllBlank(p.between) && AllBlank(p.gap)
    requires At(c, i, PairCore(p)) && EndsAt(c, i + |PairCore(p)|)
    ensures PairTaken(c, p, ParseMemberSpec(c, i, depth), depth, i + |PairCore(p)|)
    decreases p, 1
  {
    hide At, SyntaxText, StringText, PairCore, ParseValueSpec, ParseStringSpec, SkipBlanks, Meaning, AllPaired, Depth,
         Paired, StringMeaning, WellFormedCharacters, AllBlank, ShortNumerals, WellFormed;
    CoreLayout(c, i, p);
    ParseStringText(c, i, p.key);
    ParseText(c, i + |StringText(p.key)| + |p.between| + 1 + |p.gap|, p.value, depth);
  }

  /** One unfolding of the loop of `parse_object`. */
  lemma {:induction false} MembersUnfold(c: seq<byte>, i: nat, depth: nat)
    requires i < |c| && Terminated(c)
    ensures match ParseMemberSpec(c, i, depth)
            case Fail(_) => ParseMembersSpec(c, i, depth).Fail?
            case Ok(member, next) =>
              var j := SkipBlanks(c, next);
              && (c[j] != RBRACE && c[j] != COMMA ==> ParseMembersSpec(c, i, depth).Fail?)
              && (c[j] == RBRACE ==> ParseMembersSpec(c, i, depth) == Ok([member], j + 1))
              && (c[j] == COMMA ==>
                    ParseMembersSpec(c, i, depth) ==
                    PrependTo([member], ParseMembersSpec(c, SkipBlanks(c, j + 1), depth)))
  {
    hide ParseMemberSpec, SkipBlanks;
  }

  lemma {:induction false} FirstPair(ps: seq<Pair>)
    requires ps != [] && WellFormedPairs(ps)
    ensures PairsDepth(ps) == Max(Depth(ps[0].value), PairsDepth(ps[1..]))
    ensures PairsPaired(ps) <==> Paired(ps[0].key) && AllPaired(ps[0].value) && PairsPaired(ps[1..])
    ensures PairsShort(ps) <==> ShortNumerals(ps[0].value) && PairsShort(ps[1..])
    ensures PairsPaired(ps) ==>
              PairsMeaning(ps) == [Member(Chars(StringMeaning(ps[0].key)), Meaning(ps[0].value))]
                + PairsMeaning(ps[1..])
    ensures |ps| == 1 ==>
              && PairsDepth(ps) == Depth(ps[0].value)
                && (PairsPaired(ps) <==> Paired(ps[0].key) && AllPaired(ps[0].value))
              && (PairsShort(ps) <==> ShortNumerals(ps[0].value))
              && (PairsPaired(ps) ==>
                    PairsMeaning(ps) == [Member(Chars(StringMeaning(ps[0].key)), Meaning(ps[0].value))])
  {
    hide Depth, AllPaired, ShortNumerals, Meaning, StringMeaning, Paired;
  }

  lemma {:induction false} ParsePairs(c: seq<byte>, start: nat, ps: seq<Pair>, depth: nat)
    requires Terminated(c) && ps != [] && WellFormedPairs(ps) && depth <= NESTING_LIMIT
    requires At(c, start, PairsText(ps))
    requires start + |PairsText(ps)| < |c| && c[start + |PairsText(ps)|] == RBRACE
    ensures var i := SkipBlanks(c, start);
            && i == start + |ps[0].before| && c[i] == QUOTE
            && PairsTaken(ps, ParseMembersSpec(c, i, depth), depth, start + |PairsText(ps)| + 1)
    decreases ps, 2
  {
    hide At, PairCore, PairsText, ParseMemberSpec, ParseMembersSpec, SkipBlanks, Meaning, PairsMeaning, AllPaired,
         PairsPaired, ShortNumerals, PairsShort, Depth, PairsDepth, Paired, StringMeaning, Cut;
    var i := start + |ps[0].before|;
    var j := i + |PairCore(ps[0])|;
    var k := j + |ps[0].after|;
    PairLayout(c, start, ps, i, j, k);
    FirstPair(ps);
    ParsePair(c, i, ps[0], depth);
    CutStops(c, ParseMemberSpec(c, i, depth), j);
    MembersUnfold(c, i, depth);
    if |ps| == 1 {
    } else {
      ParsePairs(c, k + 1, ps[1..], depth);
    }
  }

  // ---------------------------------------------------------------- documents

  /**
   A document of the grammar, with blanks around its value, is accepted exactly if it nests at most 1000 deep,
   pairs its surrogates and has no numeral of more than 63 characters. Then it has its meaning, and parsing ends
   behind the value, or at the very end if that is asked for. Otherwise it is refused; but a document that is just a
   longer numeral is accepted for its first 63 characters, if the end of the text is not asked for.
   */
  lemma {:induction false} ParseGrammaticalText(before: Text, v: Syntax, after: Text, requireNul: bool)
    requires AllBlank(before) && AllBlank(after) && WellFormed(v)
    ensures var text := before + SyntaxText(v) + after;
            var r := ParseDocument(text + [NUL], requireNul);
            if Depth(v) <= NESTING_LIMIT && AllPaired(v) && ShortNumerals(v) then
              r == Ok(Meaning(v), if requireNul then |text| else |before + SyntaxText(v)|)
            else if requireNul || !v.NumberWord? then r.Fail?
            else CutNumeral(v.numeral, r, |before + SyntaxText(v)|)
  {
    hide At, SyntaxText, ParseValueSpec, SkipBlanks, Meaning, AllPaired, Depth, AllBlank, WellFormed, ShortNumerals,
         Cut, CutNumeral;
    var text := before + SyntaxText(v) + after;
    var c := text + [NUL];
    WholeText(text);
    AtConcat3(c, 0, before, SyntaxText(v), after);
    SyntaxStart(c, |before|, v);
    BlanksAt(c, 0, before);
    NoByteOrderMark(c, before, v);
    BlanksToEnd(c, |before| + |SyntaxText(v)|, after);
    ParseText(c, |before|, v, 0);
    CutStops(c, ParseValueSpec(c, |before|, 0), |before| + |SyntaxText(v)|);
    if v.NumberWord? {
      CutIsOk(v.numeral, ParseValueSpec(c, |before|, 0), |before| + |SyntaxText(v)|);
    }
  }

  lemma CutIsOk(n: Numeral, r: Parsed<Json>, end: nat)
    ensures CutNumeral(n, r, end) ==> r.Ok? && r.offset < end
  {
    hide NumeralText, Decimal.Strtod;
  }

  /** A document that is one string. */
  lemma {:induction false} ParseStringDocument(chars: seq<Character>, requireNul: bool)
    requires WellFormedCharacters(chars)
    ensures var text := StringText(chars);
            var r := ParseDocument(text + [NUL], requireNul);
            if Paired(chars) then r == Ok(String(Chars(StringMeaning(chars))), |text|) else r.Fail?
  {
    hide ParseDocument, StringText, StringMeaning, Paired, WellFormedCharacters;
    var text := StringText(chars);
    ParseGrammaticalText([], StringWord(chars), [], requireNul);
    assert [] + text + [] == text == [] + text;
  }

  /** A document that is one numeral. */
  lemma {:induction false} ParseNumeralDocument(n: Numeral, requireNul: bool)
    requires WellFormedNumeral(n)
    ensures var text := NumeralText(n);
            var r := ParseDocument(text + [NUL], requireNul);
            if |text| <= 63 then r == Ok(Json.Number(NumeralValue(n)), |text|)
            else if requireNul then r.Fail?
            else CutNumeral(n, r, |text|)
  {
    hide ParseDocument, NumeralText, NumeralValue, WellFormedNumeral, CutNumeral;
    var text := NumeralText(n);
    ParseGrammaticalText([], NumberWord(n), [], requireNul);
    assert [] + text + [] == text == [] + text;
  }

  lemma WholeText(text: Text)
    ensures At(text + [NUL], 0, text)
  {
    assert (text + [NUL])[0..|text|] == text;
  }

  /** A document begins with a byte below 0x80, so with no byte order mark. */
  lemma {:induction false} NoByteOrderMark(c: seq<byte>, before: Text, v: Syntax)
    requires AllBlank(before) && At(c, 0, before) && WellFormed(v) && At(c, |before|, SyntaxText(v))
    ensures !At(c, 0, BOM)
  {
    hide SyntaxText;
    SyntaxStart(c, |before|, v);
    if before != [] {
      AtIndex(c, 0, before, 0);
    }
  }

  /** Blanks up to the final NUL: skipping takes the NUL for a blank and steps back onto it. */
  lemma BlanksToEnd(c: seq<byte>, i: nat, s: Text)
    requires Terminated(c) && AllBlank(s) && At(c, i, s) && i + |s| + 1 == |c|
    ensures SkipBlanks(c, i) == |c| - 1 && EndsAt(c, i)
  {
    forall k | i <= k < i + |s| ensures IsBlank(c[k]) {
      AtIndex(c, i, s, k - i);
    }
  }
}
