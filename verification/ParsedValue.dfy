/**
 When parsing gives the value that a document of the grammar writes, and documents for which it does not. A C
 string ends at its first NUL, so an escaped NUL cuts the string it stands in.
 */
module ParsedValue {
  import opened Bytes
  import opened Utf16
  import opened JsonTree
  import opened ParseSpec
  import opened StringGrammar
  import opened NumeralGrammar
  import opened Grammar
  import Decimal
  import GrammarParse

  lemma {:induction false} UpToNulExactly(s: seq<byte>)
    ensures UpToNul(s) == s <==> NUL !in s
  {
    if s == [] || s[0] == NUL {
    } else {
      UpToNulExactly(s[1..]);
      assert s == [s[0]] + s[1..];
    }
  }

  lemma NulInUtf8(cp: nat)
    requires cp <= 0x10FFFF
    ensures NUL in Utf8(cp) <==> cp == 0
  {
    hide Utf8;
    Utf8Bytes(cp);
  }

  /** The bytes of a string hold a NUL exactly if one of its characters is an escaped one. */
  lemma {:induction false} NulInValue(chars: seq<Character>)
    requires WellFormedCharacters(chars) && Paired(chars)
    ensures NUL in CharactersValue(chars) <==> HasEscapedNul(chars)
    decreases |chars|
  {
    hide Utf8, HexValue;
    if chars == [] {
    } else if StartsWithPair(chars) {
      NulInUtf8(PairValue(Unit(chars[0]), Unit(chars[1])));
      NulInValue(chars[2..]);
      assert chars == [chars[0], chars[1]] + chars[2..];
      assert !IsEscapedNul(chars[0]) && !IsEscapedNul(chars[1]);
      NulBehind([chars[0], chars[1]], chars[2..]);
    } else {
      NulInCharacter(chars[0]);
      NulInValue(chars[1..]);
      assert chars == [chars[0]] + chars[1..];
      NulBehind([chars[0]], chars[1..]);
    }
  }

  lemma NulInCharacter(ch: Character)
    requires WellFormedCharacter(ch)
    ensures NUL in CharacterValue(ch) <==> IsEscapedNul(ch)
  {
    hide Utf8, HexValue;
    if ch.Unicode? {
      NulInUtf8(Unit(ch));
    }
  }

  lemma NulBehind(a: seq<Character>, b: seq<Character>)
    requires WellFormedCharacters(a + b) && WellFormedCharacters(a) && WellFormedCharacters(b)
    ensures HasEscapedNul(a + b) <==> HasEscapedNul(a) || HasEscapedNul(b)
  {
    hide IsEscapedNul;
    if HasEscapedNul(a) {
      var k :| 0 <= k < |a| && IsEscapedNul(a[k]);
      assert IsEscapedNul((a + b)[k]);
    }
    if HasEscapedNul(b) {
      var k :| 0 <= k < |b| && IsEscapedNul(b[k]);
      assert IsEscapedNul((a + b)[|a| + k]);
    }
  }

  /** A string is read as the C string of all its bytes exactly if it has no escaped NUL. */
  lemma {:induction false} StringMeaningExactly(chars: seq<Character>)
    requires WellFormedCharacters(chars) && Paired(chars)
    ensures StringMeaning(chars) == CharactersValue(chars) <==> !HasEscapedNul(chars)
  {
    UpToNulExactly(CharactersValue(chars));
    NulInValue(chars);
  }

  // ---------------------------------------------------------------- documents

  /** A string or a name in the value has an escaped NUL. */
  predicate AnyEscapedNul(v: Syntax)
    requires WellFormed(v)
  {
    match v
    case StringWord(chars) => HasEscapedNul(chars)
    case ArrayWord(_, elements) => ElementsEscapedNul(elements)
    case ObjectWord(_, pairs) => PairsEscapedNul(pairs)
    case _ => false
  }

  predicate ElementsEscapedNul(es: seq<Element>)
    requires WellFormedElements(es)
  {
    es != [] && (AnyEscapedNul(es[0].value) || ElementsEscapedNul(es[1..]))
  }

  predicate PairsEscapedNul(ps: seq<Pair>)
    requires WellFormedPairs(ps)
  {
    ps != [] && (HasEscapedNul(ps[0].key) || AnyEscapedNul(ps[0].value) || PairsEscapedNul(ps[1..]))
  }

  function BytesOf(s: CString): seq<byte> {
    if s.NullPtr? then [] else s.text
  }

  /** The value that a tree of C strings stands for. */
  function ValueOfTree(t: Json): JsonValue {
    match t
    case Null => NullValue
    case False => FalseValue
    case True => TrueValue
    case Number(d) => NumberValue(d)
    case String(s) => StringValue(BytesOf(s))
    case Array(items) => ArrayValue(ValuesOfItems(items))
    case Object(members) => ObjectValue(ValuesOfMembers(members))
  }

  function ValuesOfItems(items: seq<Json>): (values: seq<JsonValue>)
    ensures |values| == |items|
  {
    if items == [] then [] else [ValueOfTree(items[0])] + ValuesOfItems(items[1..])
  }

  function ValuesOfMembers(members: seq<Member>): (values: seq<NamedValue>)
    ensures |values| == |members|
  {
    if members == [] then []
    else
      assert members[0].value < members[0];
      [NamedValue(BytesOf(members[0].key), ValueOfTree(members[0].value))] + ValuesOfMembers(members[1..])
  }

  /** The tree stands for the value that is written exactly if no string and no name has an escaped NUL. */
  lemma {:induction false} MeaningExactly(v: Syntax)
    requires WellFormed(v) && AllPaired(v)
    ensures ValueOfTree(Meaning(v)) == ValueOf(v) <==> !AnyEscapedNul(v)
    decreases v, 0
  {
    match v
    case StringWord(chars) =>
      StringMeaningExactly(chars);
    case ArrayWord(_, elements) =>
      ElementsMeaningExactly(elements);
    case ObjectWord(_, pairs) =>
      PairsMeaningExactly(pairs);
    case _ =>
  }

  lemma {:induction false} ElementsMeaningExactly(es: seq<Element>)
    requires WellFormedElements(es) && ElementsPaired(es)
    ensures ValuesOfItems(ElementsMeaning(es)) == ElementsValue(es) <==> !ElementsEscapedNul(es)
    decreases es, 1
  {
    if es == [] {
    } else {
      hide Meaning, ValueOf, ValueOfTree, AnyEscapedNul;
      MeaningExactly(es[0].value);
      ElementsMeaningExactly(es[1..]);
      assert ElementsMeaning(es)[1..] == ElementsMeaning(es[1..]);
      SameLists(ValueOfTree(Meaning(es[0].value)), ValuesOfItems(ElementsMeaning(es[1..])),
                ValueOf(es[0].value), ElementsValue(es[1..]));
    }
  }

  lemma {:induction false} PairsMeaningExactly(ps: seq<Pair>)
    requires WellFormedPairs(ps) && PairsPaired(ps)
    ensures ValuesOfMembers(PairsMeaning(ps)) == PairsValue(ps) <==> !PairsEscapedNul(ps)
    decreases ps, 1
  {
    if ps == [] {
    } else {
      hide Meaning, ValueOf, ValueOfTree, AnyEscapedNul, StringMeaning, CharactersValue, HasEscapedNul;
      StringMeaningExactly(ps[0].key);
      MeaningExactly(ps[0].value);
      PairsMeaningExactly(ps[1..]);
      assert PairsMeaning(ps)[1..] == PairsMeaning(ps[1..]);
      SameLists(NamedValue(StringMeaning(ps[0].key), ValueOfTree(Meaning(ps[0].value))),
                ValuesOfMembers(PairsMeaning(ps[1..])),
                NamedValue(CharactersValue(ps[0].key), ValueOf(ps[0].value)), PairsValue(ps[1..]));
    }
  }

  lemma SameLists<T>(a: T, as_: seq<T>, b: T, bs: seq<T>)
    ensures [a] + as_ == [b] + bs <==> a == b && as_ == bs
  {
    if [a] + as_ == [b] + bs {
      assert ([a] + as_)[0] == ([b] + bs)[0] && ([a] + as_)[1..] == ([b] + bs)[1..];
    }
  }

  /** Parsing has read the document to its end, and for the value that is written there. */
  ghost predicate ReadAs(r: Parsed<Json>, v: Syntax, end: nat)
    requires WellFormed(v)
  {
    r.Ok? && r.offset == end && AllPaired(v) && ValueOfTree(r.value) == ValueOf(v)
  }

  /**
   A document of the grammar is read for its value exactly if it nests at most 1000 deep, its surrogates are paired,
   its numerals have at most 63 characters, and no string and no name has an escaped NUL.
   */
  lemma {:induction false} ParsedValueExactly(before: Text, v: Syntax, after: Text, requireNul: bool)
    requires AllBlank(before) && AllBlank(after) && WellFormed(v)
    ensures var text := before + SyntaxText(v) + after;
            ReadAs(ParseDocument(text + [NUL], requireNul), v, if requireNul then |text| else |before + SyntaxText(v)|)
            <==> Depth(v) <= NESTING_LIMIT && AllPaired(v) && ShortNumerals(v) && !AnyEscapedNul(v)
  {
    hide ParseDocument, SyntaxText, Meaning, ValueOf, ValueOfTree, AnyEscapedNul, GrammarParse.CutNumeral;
    var text := before + SyntaxText(v) + after;
    var r := ParseDocument(text + [NUL], requireNul);
    GrammarParse.ParseGrammaticalText(before, v, after, requireNul);
    if AllPaired(v) {
      MeaningExactly(v);
    }
    if v.NumberWord? {
      GrammarParse.CutIsOk(v.numeral, r, |before + SyntaxText(v)|);
    }
  }

  // ---------------------------------------------------------------- documents that are not

  lemma {:induction false} NulWord()
    ensures var nul := Unicode([48, 48, 48, 48]);
            WellFormedCharacter(nul) && Unit(nul) == 0 && CharacterValue(nul) == [NUL]
  {
    var zeros: Text := [48, 48, 48, 48];
    assert HexValue(zeros, 0, 1) == 0 && HexValue(zeros, 0, 2) == 0 && HexValue(zeros, 0, 3) == 0;
    Utf8Bytes(0);
    hide Utf8;
  }

  /** The characters `a\u0000b`. */
  lemma {:induction false} CutCharacters()
    ensures var chars := [Plain(97), Unicode([48, 48, 48, 48]), Plain(98)];
            && WellFormedCharacters(chars) && Paired(chars) && HasEscapedNul(chars)
            && StringText(chars) == [QUOTE, 97, BACKSLASH, LETTER_U, 48, 48, 48, 48, 98, QUOTE]
            && CharactersValue(chars) == [97, NUL, 98] && StringMeaning(chars) == [97]
  {
    hide Unit, CharactersText, CharactersValue, CharacterValue, WellFormedCharacters, Paired, HexValue, Utf8, UpToNul;
    var nul := Unicode([48, 48, 48, 48]);
    var b, tail := [Plain(98)], [nul, Plain(98)];
    NulWord();
    NoCharacters();
    PlainCharacter(97);
    PlainCharacter(98);
    OneCharacter(Plain(98), []);
    assert b == [Plain(98)] + [] && CharactersText(b) == [98] && CharactersValue(b) == [98];
    OneCharacter(nul, b);
    assert tail == [nul] + b && CharactersValue(tail) == [NUL, 98];
    assert CharactersText(tail) == [BACKSLASH, LETTER_U, 48, 48, 48, 48, 98];
    OneCharacter(Plain(97), tail);
    var chars := [Plain(97), nul, Plain(98)];
    assert chars == [Plain(97)] + tail && IsEscapedNul(chars[1]);
    assert CharactersText(chars) == [97, BACKSLASH, LETTER_U, 48, 48, 48, 48, 98];
    CutBytes();
  }

  lemma CutBytes()
    ensures UpToNul([97, NUL, 98]) == [97]
  {
    assert [97, NUL, 98][1..] == [NUL, 98];
    assert UpToNul([NUL, 98]) == [];
  }

  /** The document `"a\u0000b"` is accepted as the string of one letter. */
  lemma {:induction false} EscapedNulCuts(requireNul: bool)
    ensures var text: Text := [QUOTE, 97, BACKSLASH, LETTER_U, 48, 48, 48, 48, 98, QUOTE];
            ParseDocument(text + [NUL], requireNul) == Ok(String(Chars([97])), |text|)
  {
    hide ParseDocument, StringText, StringMeaning, Paired, WellFormedCharacters, CharactersValue, HasEscapedNul;
    CutCharacters();
    GrammarParse.ParseStringDocument([Plain(97), Unicode([48, 48, 48, 48]), Plain(98)], requireNul);
  }

  /** The document `"\ud800"`, a surrogate without its partner, is refused. */
  lemma {:induction false} LoneSurrogateIsRefused(requireNul: bool)
    ensures var text: Text := [QUOTE, BACKSLASH, LETTER_U, 100, 56, 48, 48, QUOTE];
            ParseDocument(text + [NUL], requireNul).Fail?
  {
    hide ParseDocument, StringText, StringMeaning, Paired, WellFormedCharacters;
    LoneSurrogate();
    GrammarParse.ParseStringDocument([Unicode([100, 56, 48, 48])], requireNul);
  }

  lemma {:induction false} LoneSurrogate()
    ensures var chars := [Unicode([100, 56, 48, 48])];
            && WellFormedCharacters(chars) && !Paired(chars)
            && StringText(chars) == [QUOTE, BACKSLASH, LETTER_U, 100, 56, 48, 48, QUOTE]
  {
    var hex: Text := [100, 56, 48, 48];
    var chars := [Unicode(hex)];
    assert HexValue(hex, 0, 1) == 13 && HexValue(hex, 0, 2) == 216 && HexValue(hex, 0, 3) == 3456;
    assert Unit(chars[0]) == 0xD800;
    assert chars[1..] == [] && CharactersText(chars) == CharacterText(chars[0]) + CharactersText([]);
  }

  /** The digit 1 so many times. */
  function Ones(n: nat): (s: Text)
    ensures |s| == n && forall k :: 0 <= k < n ==> s[k] == 49
  {
    seq(n, _ => 49)
  }

  /**
   The document of 64 ones is refused if the end of the text is asked for. Otherwise it is accepted for 63 ones, a
   tenth of what is written.
   */
  lemma {:induction false} LongNumeralIsCut()
    ensures ParseDocument(Ones(64) + [NUL], true).Fail?
    ensures var r := ParseDocument(Ones(64) + [NUL], false);
            r.Ok? && r.offset == 63 && r.value.Number? && 10.0 * r.value.value + 1.0 == Decimal.Strtod(Ones(64)).0
  {
    hide ParseDocument, NumeralText, NumeralValue, WellFormedNumeral, Decimal.Strtod, Ones;
    OnesNumeral(64);
    OnesNumeral(63);
    var n := Numeral(false, Ones(64), [], NoExponent);
    GrammarParse.ParseNumeralDocument(n, true);
    GrammarParse.ParseNumeralDocument(n, false);
    TenTimes();
  }

  lemma {:induction false} TenTimes()
    ensures Ones(64)[..63] == Ones(63)
    ensures Decimal.Strtod(Ones(63)).1 == 63
    ensures 10.0 * Decimal.Strtod(Ones(63)).0 + 1.0 == Decimal.Strtod(Ones(64)).0
  {
    hide NumeralText, NumeralValue, NumeralGrammar.Number, Decimal.Strtod;
    OnesNumeral(64);
    OnesNumeral(63);
    StrtodOfNumeral(Numeral(false, Ones(64), [], NoExponent));
    StrtodOfNumeral(Numeral(false, Ones(63), [], NoExponent));
    assert Ones(64)[..63] == Ones(63) && Ones(64) == Ones(63) + [49];
    NumberSnoc(Ones(63), 49);
  }

  lemma {:induction false} OnesNumeral(k: nat)
    requires k > 0
    ensures var n := Numeral(false, Ones(k), [], NoExponent);
            && WellFormedNumeral(n) && NumeralText(n) == Ones(k)
            && NumeralValue(n) == NumeralGrammar.Number(Ones(k)) as real
  {
    hide NumeralGrammar.Number;
    assert Ones(k) + [] == Ones(k);
    assert Decimal.Pow10(0) == 1.0;
  }
}
