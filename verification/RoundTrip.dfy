/**
 Parsing undoes printing, and accepts a printed tree exactly when its nesting is within the limit: what is printed
 is a text of the grammar that means the tree.
 */
module RoundTrip {
  import opened Bytes
  import opened JsonTree
  import opened ParseSpec
  import opened Rendering
  import opened StringGrammar
  import opened StringDecoding
  import opened NumeralGrammar
  import opened Grammar
  import opened GrammarParse
  import Decimal

  // ---------------------------------------------------------------- what is printed, in the grammar

  /** A new line with its indentation, if formatted. */
  function Break(format: bool, depth: nat): Text {
    if format then [NEWLINE] + Tabs(depth) else []
  }

  function SyntaxOf(t: Json, format: bool, depth: nat): Syntax {
    match t
    case Null => NullWord
    case False => FalseWord
    case True => TrueWord
    case Number(d) => NumberWord(NumeralOf(ValueInt(d)))
    case String(s) => StringWord(CharactersOf(Filled(s).text))
    case Array(items) => ArrayWord([], ElementsOf(items, format, depth + 1, []))
    case Object(members) => ObjectWord(Break(format, depth), PairsOf(members, format, depth + 1))
  }

  function ElementsOf(items: seq<Json>, format: bool, depth: nat, before: Text): (es: seq<Element>)
    ensures |es| == |items|
  {
    if items == [] then []
    else
      [Element(before, SyntaxOf(items[0], format, depth), [])]
      + ElementsOf(items[1..], format, depth, if format then [SPACE] else [])
  }

  function PairOf(m: Member, last: bool, format: bool, depth: nat): Pair
    requires depth > 0
    decreases m, 1
  {
    Pair(Break(format, depth), CharactersOf(Filled(m.key).text), [], if format then [TAB] else [],
         SyntaxOf(m.value, format, depth), if last then Break(format, depth - 1) else [])
  }

  function PairsOf(members: seq<Member>, format: bool, depth: nat): (ps: seq<Pair>)
    requires depth > 0
    ensures |ps| == |members|
    decreases members, 2
  {
    if members == [] then []
    else [PairOf(members[0], |members| == 1, format, depth)] + PairsOf(members[1..], format, depth)
  }

  /** A value of the grammar that means a tree, to be read without hindrance. */
  ghost predicate Writes(v: Syntax, t: Json) {
    WellFormed(v) && ShortNumerals(v) && Depth(v) == Nesting(t) && AllPaired(v) && Meaning(v) == FillNulls(t)
  }

  ghost predicate WritesItems(es: seq<Element>, items: seq<Json>) {
    && WellFormedElements(es) && ElementsShort(es) && ElementsDepth(es) == ItemsNesting(items)
    && ElementsPaired(es) && ElementsMeaning(es) == FillItems(items)
  }

  ghost predicate WritesMembers(ps: seq<Pair>, members: seq<Member>) {
    && WellFormedPairs(ps) && PairsShort(ps) && PairsDepth(ps) == MembersNesting(members)
    && PairsPaired(ps) && PairsMeaning(ps) == FillMembers(members)
  }

  lemma BlankBreak(format: bool, depth: nat)
    ensures AllBlank(Break(format, depth)) && AllBlank([]) && AllBlank([SPACE]) && AllBlank([TAB])
  {
  }

  lemma {:induction false} ScalarMeans(t: Json, format: bool, depth: nat)
    requires Int32Numbers(t) && !t.Array? && !t.Object?
    ensures Writes(SyntaxOf(t, format, depth), t)
  {
    match t
    case Number(d) =>
      NumberMeans(d);
    case String(s) =>
      KeyMeans(s);
      hide CharactersOf, WellFormedCharacters, Paired, StringMeaning;
    case _ =>
  }

  lemma {:induction false} NumberMeans(d: real)
    requires IsInt32(d)
    ensures Writes(NumberWord(NumeralOf(ValueInt(d))), Number(d))
  {
    var n := ValueInt(d);
    assert INT_MIN <= n <= INT_MAX && n as real == d;
    hide NumeralOf, NumeralText, NumeralValue, WellFormedNumeral, ValueInt, Decimal.IntText;
    IntNumeral(n);
    Decimal.IntTextLength(n);
  }

  /** A string or key is printed as one that means it, or the empty string for NULL. */
  lemma KeyMeans(s: CString)
    ensures var chars := CharactersOf(Filled(s).text);
            && WellFormedCharacters(chars) && Paired(chars) && Chars(StringMeaning(chars)) == Filled(s)
            && StringText(chars) == RenderString(s)
  {
    EscapedText(Filled(s).text);
    UpToNulOfText(Filled(s).text);
  }

  lemma {:induction false} ContainersMean(blank: Text, es: seq<Element>, items: seq<Json>, ps: seq<Pair>,
                                          members: seq<Member>)
    requires AllBlank(blank)
    ensures WritesItems(es, items) ==> Writes(ArrayWord(blank, es), Array(items))
    ensures WritesMembers(ps, members) ==> Writes(ObjectWord(blank, ps), Object(members))
  {
  }

  /** What is printed means the tree. */
  lemma {:induction false} SyntaxMeans(t: Json, format: bool, depth: nat)
    requires Int32Numbers(t)
    ensures Writes(SyntaxOf(t, format, depth), t)
    decreases t, 0
  {
    hide Writes, WritesItems, WritesMembers, ElementsOf, PairsOf, Break, AllBlank;
    BlankBreak(format, depth);
    match t
    case Array(items) =>
      ElementsMean(items, format, depth + 1, []);
      ContainersMean([], ElementsOf(items, format, depth + 1, []), items, [], []);
    case Object(members) =>
      PairsMean(members, format, depth + 1);
      ContainersMean(Break(format, depth), [], [], PairsOf(members, format, depth + 1), members);
    case _ =>
      ScalarMeans(t, format, depth);
  }

  lemma {:induction false} ElementsMean(items: seq<Json>, format: bool, depth: nat, before: Text)
    requires (forall k :: 0 <= k < |items| ==> Int32Numbers(items[k])) && AllBlank(before)
    ensures WritesItems(ElementsOf(items, format, depth, before), items)
    decreases items, 1
  {
    if items == [] {
    } else {
      hide SyntaxOf, Int32Numbers;
      var next := if format then [SPACE] else [];
      BlankBreak(format, 0);
      SyntaxMeans(items[0], format, depth);
      ElementsMean(items[1..], format, depth, next);
      assert ElementsOf(items, format, depth, before)[1..] == ElementsOf(items[1..], format, depth, next);
    }
  }

  lemma {:induction false} PairsMean(members: seq<Member>, format: bool, depth: nat)
    requires (forall k :: 0 <= k < |members| ==> Int32Numbers(members[k].value)) && depth > 0
    ensures WritesMembers(PairsOf(members, format, depth), members)
    decreases members, 1
  {
    if members == [] {
    } else {
      hide SyntaxOf, Int32Numbers, CharactersOf, WellFormedCharacters, Paired, StringMeaning, Break, AllBlank,
           Meaning;
      assert members[0].value < members[0];
      BlankBreak(format, depth);
      BlankBreak(format, depth - 1);
      SyntaxMeans(members[0].value, format, depth);
      KeyMeans(members[0].key);
      PairsMean(members[1..], format, depth);
      assert PairsOf(members, format, depth)[1..] == PairsOf(members[1..], format, depth);
    }
  }

  // Concatenations regrouped, as the lemmas on texts need them.

  lemma RegroupItems(before: Text, first: Text, comma: Text, next: Text, rest: Text)
    ensures before + first + [] + (comma + (next + rest)) == before + (first + (comma + next) + rest)
  {
  }

  lemma RegroupPair(nl: Text, indent: Text, key: Text, colon: Text, gap: Text, value: Text, after: Text)
    ensures nl + indent + (key + [] + colon + gap + value) + after
            == nl + (indent + key + (colon + gap) + value) + after
  {
    assert key + [] + colon + gap + value == key + (colon + gap) + value;
    assert indent + (key + (colon + gap) + value) == indent + key + (colon + gap) + value;
  }

  lemma RegroupMembers(nl: Text, first: Text, comma: Text, rest: Text, indent: Text)
    ensures nl + first + [] + (comma + (nl + rest + indent)) == nl + (first + (comma + nl) + rest) + indent
  {
  }

  lemma RegroupLast(nl: Text, first: Text, indent: Text)
    ensures nl + first + (nl + indent) == nl + (first + nl + []) + indent
  {
  }

  lemma {:induction false} ScalarTextIsRendering(t: Json, format: bool, depth: nat)
    requires !t.Array? && !t.Object?
    ensures SyntaxText(SyntaxOf(t, format, depth)) == Render(t, format, depth)
  {
    match t
    case Number(d) =>
      IntNumeral(ValueInt(d));
    case String(s) =>
      KeyMeans(s);
      hide CharactersOf, StringText, RenderString;
    case _ =>
  }

  /** What is printed is the text of that value. */
  lemma {:induction false} SyntaxTextIsRendering(t: Json, format: bool, depth: nat)
    ensures SyntaxText(SyntaxOf(t, format, depth)) == Render(t, format, depth)
    decreases t, 0
  {
    match t
    case Array(items) =>
      hide ElementsText, RenderItems, RenderMembers, ElementsOf, Render;
      ElementsTextIsRendering(items, format, depth + 1, []);
      ArrayText(items, format, depth);
    case Object(members) =>
      hide PairsText, RenderItems, RenderMembers, PairsOf, Render;
      PairsTextIsRendering(members, format, depth + 1);
      ObjectText(members, format, depth);
    case _ =>
      ScalarTextIsRendering(t, format, depth);
  }

  lemma {:induction false} NothingRendered(format: bool, depth: nat)
    ensures RenderItems([], format, depth) == [] && RenderMembers([], format, depth) == []
  {
  }

  /** The part of a new line that belongs to what stands in front of it. */
  function LineEnd(format: bool): Text {
    if format then [NEWLINE] else []
  }

  lemma {:induction false} ArrayText(items: seq<Json>, format: bool, depth: nat)
    requires var es := ElementsOf(items, format, depth + 1, []);
             items != [] ==> ElementsText(es) == [] + RenderItems(items, format, depth + 1)
    ensures SyntaxText(ArrayWord([], ElementsOf(items, format, depth + 1, []))) == Render(Array(items), format, depth)
  {
    hide ElementsText, RenderItems, RenderMembers, ElementsOf;
    NothingRendered(format, depth + 1);
  }

  lemma {:induction false} ObjectText(members: seq<Member>, format: bool, depth: nat)
    requires var ps := PairsOf(members, format, depth + 1);
             members != [] ==>
               PairsText(ps) == LineEnd(format) + RenderMembers(members, format, depth + 1) + Indent(format, depth)
    ensures SyntaxText(ObjectWord(Break(format, depth), PairsOf(members, format, depth + 1)))
            == Render(Object(members), format, depth)
  {
    hide PairsText, RenderMembers, PairsOf;
    var ps, body := PairsOf(members, format, depth + 1), RenderMembers(members, format, depth + 1);
    NothingRendered(format, depth + 1);
    assert Break(format, depth) == LineEnd(format) + [] + Indent(format, depth);
    assert ObjectOpening(format) == [LBRACE] + LineEnd(format);
    var nl, indent := LineEnd(format), Indent(format, depth);
    assert [LBRACE] + (nl + body + indent) + [RBRACE] == ([LBRACE] + nl) + body + (indent + [RBRACE]);
  }

  lemma {:induction false} ElementsTextIsRendering(items: seq<Json>, format: bool, depth: nat, before: Text)
    ensures items != [] ==>
              ElementsText(ElementsOf(items, format, depth, before)) == before + RenderItems(items, format, depth)
    decreases items, 1
  {
    if items == [] {
    } else {
      SyntaxTextIsRendering(items[0], format, depth);
      ElementsTextIsRendering(items[1..], format, depth, if format then [SPACE] else []);
      ElementsStep(items, format, depth, before);
    }
  }

  /** One item more in front. */
  lemma {:induction false} ElementsStep(items: seq<Json>, format: bool, depth: nat, before: Text)
    requires items != [] && SyntaxText(SyntaxOf(items[0], format, depth)) == Render(items[0], format, depth)
    requires var next := if format then [SPACE] else [];
             |items| > 1 ==>
               ElementsText(ElementsOf(items[1..], format, depth, next))
                 == next + RenderItems(items[1..], format, depth)
    ensures ElementsText(ElementsOf(items, format, depth, before)) == before + RenderItems(items, format, depth)
  {
    hide SyntaxOf, Render, SyntaxText;
    var next := if format then [SPACE] else [];
    var es := ElementsOf(items, format, depth, before);
    assert es[1..] == ElementsOf(items[1..], format, depth, next);
    if |items| == 1 {
      NothingRendered(format, depth);
    } else {
      assert Separator(format) == [COMMA] + next;
      hide Separator;
      RegroupItems(before, Render(items[0], format, depth), [COMMA], next, RenderItems(items[1..], format, depth));
    }
  }

  lemma {:induction false} PairTextIsRendering(m: Member, last: bool, format: bool, depth: nat)
    requires depth > 0 && SyntaxText(SyntaxOf(m.value, format, depth)) == Render(m.value, format, depth)
    ensures PairText(PairOf(m, last, format, depth))
            == LineEnd(format) + RenderMember(m, format, depth) + (if last then Break(format, depth - 1) else [])
  {
    hide SyntaxOf, Render, SyntaxText, CharactersOf, StringText, RenderString, Indent, Break;
    KeyMeans(m.key);
    LastBreak(format, depth);
    var gap := if format then [TAB] else [];
    assert Colon(format) == [COLON] + gap;
    hide Colon, LineEnd;
    var after := if last then Break(format, depth - 1) else [];
    RegroupPair(LineEnd(format), Indent(format, depth), RenderString(m.key), [COLON], gap,
                Render(m.value, format, depth), after);
  }

  lemma {:induction false} PairsTextIsRendering(members: seq<Member>, format: bool, depth: nat)
    requires depth > 0
    ensures members != [] ==>
              PairsText(PairsOf(members, format, depth))
              == LineEnd(format) + RenderMembers(members, format, depth) + Indent(format, depth - 1)
    decreases members, 1
  {
    if members == [] {
    } else {
      assert members[0].value < members[0];
      SyntaxTextIsRendering(members[0].value, format, depth);
      PairTextIsRendering(members[0], |members| == 1, format, depth);
      PairsTextIsRendering(members[1..], format, depth);
      PairsStep(members, format, depth);
    }
  }

  /** One member more in front. */
  lemma {:induction false} PairsStep(members: seq<Member>, format: bool, depth: nat)
    requires members != [] && depth > 0
    requires var last := |members| == 1;
             PairText(PairOf(members[0], last, format, depth))
             == LineEnd(format) + RenderMember(members[0], format, depth)
               + (if last then Break(format, depth - 1) else [])
    requires |members| > 1 ==>
               PairsText(PairsOf(members[1..], format, depth))
               == LineEnd(format) + RenderMembers(members[1..], format, depth) + Indent(format, depth - 1)
    ensures PairsText(PairsOf(members, format, depth))
            == LineEnd(format) + RenderMembers(members, format, depth) + Indent(format, depth - 1)
  {
    hide PairOf, PairText, RenderMember, Indent, Break, LineEnd;
    var nl, first, indent := LineEnd(format), RenderMember(members[0], format, depth), Indent(format, depth - 1);
    var ps := PairsOf(members, format, depth);
    assert ps[0] == PairOf(members[0], |members| == 1, format, depth)
           && ps[1..] == PairsOf(members[1..], format, depth);
    LastBreak(format, depth - 1);
    if |members| == 1 {
      NothingRendered(format, depth);
      RegroupLast(nl, first, indent);
    } else {
      hide PairsOf;
      RegroupMembers(nl, first, [COMMA], RenderMembers(members[1..], format, depth), indent);
    }
  }

  lemma LastBreak(format: bool, depth: nat)
    ensures Break(format, depth) == LineEnd(format) + Indent(format, depth)
    ensures MemberEnd(format, true) == LineEnd(format) && MemberEnd(format, false) == [COMMA] + LineEnd(format)
  {
  }

  // ---------------------------------------------------------------- parsing it

  /** Parsing met the rendering of a value within the nesting budget, or ran out of budget. */
  ghost predicate Outcome<T>(r: Parsed<T>, value: T, end: nat, depth: nat, nesting: nat) {
    if depth + nesting <= NESTING_LIMIT then r == Ok(value, end) else r.Fail?
  }

  lemma {:induction false} ParseRenderedValue(c: seq<byte>, off: nat, t: Json, format: bool, d: nat, depth: nat)
    requires Terminated(c) && Int32Numbers(t) && depth <= NESTING_LIMIT
    requires At(c, off, Render(t, format, d)) && EndsAt(c, off + |Render(t, format, d)|)
    ensures Outcome(ParseValueSpec(c, off, depth), FillNulls(t), off + |Render(t, format, d)|, depth, Nesting(t))
  {
    hide Render, SyntaxOf, At, ParseValueSpec, FillNulls, Nesting, Int32Numbers, Meaning, SyntaxText;
    SyntaxMeans(t, format, d);
    SyntaxTextIsRendering(t, format, d);
    ParseText(c, off, SyntaxOf(t, format, d), depth);
  }

  /**
   Parsing undoes printing. A tree is accepted if and only if at most 1000 containers are nested; the
   result is the tree with NULL strings made empty, and the end is the end of the text.
   */
  lemma {:induction false} ParseUndoesPrint(t: Json, format: bool, requireNul: bool)
    requires Int32Numbers(t)
    ensures ParseDocument(Render(t, format, 0) + [NUL], requireNul).Ok? <==> Nesting(t) <= NESTING_LIMIT
    ensures Nesting(t) <= NESTING_LIMIT ==>
              ParseDocument(Render(t, format, 0) + [NUL], requireNul) == Ok(FillNulls(t), |Render(t, format, 0)|)
    ensures FillNulls(t) == t <==> NoNulls(t)
  {
    hide Render, SyntaxOf, ParseDocument, FillNulls, NoNulls, Nesting, Int32Numbers, Meaning, SyntaxText;
    var v := SyntaxOf(t, format, 0);
    SyntaxMeans(t, format, 0);
    SyntaxTextIsRendering(t, format, 0);
    ParseGrammaticalText([], v, [], requireNul);
    assert [] + SyntaxText(v) + [] == SyntaxText(v) == [] + SyntaxText(v);
    FillNullsIdentity(t);
  }
}
