/**
 JSON texts by the grammar of RFC 8259: what is written, and what it means.
 */
module Grammar {
  import opened Bytes
  import opened JsonTree
  import opened StringGrammar
  import opened NumeralGrammar

  /** A value as it is written; an array or object without elements may have blanks between its brackets. */
  datatype Syntax =
    | NullWord
    | FalseWord
    | TrueWord
    | NumberWord(numeral: Numeral)
    | StringWord(chars: seq<Character>)
    | ArrayWord(blank: Text, elements: seq<Element>)
    | ObjectWord(blank: Text, pairs: seq<Pair>)

  datatype Element = Element(before: Text, value: Syntax, after: Text)

  /** A member: blanks, key, blanks, colon, blanks, value, blanks. */
  datatype Pair = Pair(before: Text, key: seq<Character>, between: Text, gap: Text, value: Syntax, after: Text)

  predicate AllBlank(s: Text) {
    forall k :: 0 <= k < |s| ==> IsBlank(s[k])
  }

  predicate WellFormed(v: Syntax) {
    match v
    case NumberWord(numeral) => WellFormedNumeral(numeral)
    case StringWord(chars) => WellFormedCharacters(chars)
    case ArrayWord(blank, elements) => AllBlank(blank) && WellFormedElements(elements)
    case ObjectWord(blank, pairs) => AllBlank(blank) && WellFormedPairs(pairs)
    case _ => true
  }

  predicate WellFormedElements(es: seq<Element>) {
    es != [] ==>
      && AllBlank(es[0].before) && AllBlank(es[0].after)
      && WellFormed(es[0].value) && WellFormedElements(es[1..])
  }

  predicate WellFormedPairs(ps: seq<Pair>) {
    ps != [] ==>
      && AllBlank(ps[0].before) && AllBlank(ps[0].between) && AllBlank(ps[0].gap) && AllBlank(ps[0].after)
      && WellFormedCharacters(ps[0].key) && WellFormed(ps[0].value) && WellFormedPairs(ps[1..])
  }

  // ---------------------------------------------------------------- texts

  function SyntaxText(v: Syntax): Text {
    match v
    case NullWord => NULL_TEXT
    case FalseWord => FALSE_TEXT
    case TrueWord => TRUE_TEXT
    case NumberWord(numeral) => NumeralText(numeral)
    case StringWord(chars) => StringText(chars)
    case ArrayWord(blank, elements) =>
      [LBRACKET] + (if elements == [] then blank else ElementsText(elements)) + [RBRACKET]
    case ObjectWord(blank, pairs) => [LBRACE] + (if pairs == [] then blank else PairsText(pairs)) + [RBRACE]
  }

  /** Elements with commas between them. */
  function ElementsText(elements: seq<Element>): Text {
    if elements == [] then []
    else ElementText(elements[0]) + (if |elements| == 1 then [] else [COMMA] + ElementsText(elements[1..]))
  }

  function ElementText(e: Element): Text {
    e.before + SyntaxText(e.value) + e.after
  }

  function PairsText(pairs: seq<Pair>): Text {
    if pairs == [] then []
    else PairText(pairs[0]) + (if |pairs| == 1 then [] else [COMMA] + PairsText(pairs[1..]))
  }

  function PairText(p: Pair): Text {
    p.before + (StringText(p.key) + p.between + [COLON] + p.gap + SyntaxText(p.value)) + p.after
  }

  // ---------------------------------------------------------------- meanings

  /** No string of the value has a surrogate without its partner. */
  predicate AllPaired(v: Syntax)
    requires WellFormed(v)
  {
    match v
    case StringWord(chars) => Paired(chars)
    case ArrayWord(_, elements) => ElementsPaired(elements)
    case ObjectWord(_, pairs) => PairsPaired(pairs)
    case _ => true
  }

  predicate ElementsPaired(es: seq<Element>)
    requires WellFormedElements(es)
  {
    es != [] ==> AllPaired(es[0].value) && ElementsPaired(es[1..])
  }

  predicate PairsPaired(ps: seq<Pair>)
    requires WellFormedPairs(ps)
  {
    ps != [] ==> Paired(ps[0].key) && AllPaired(ps[0].value) && PairsPaired(ps[1..])
  }

  /** A value of RFC 8259: strings and names are any bytes of UTF-8, also NULs. */
  datatype JsonValue =
    | NullValue
    | FalseValue
    | TrueValue
    | NumberValue(number: real)
    | StringValue(bytes: seq<byte>)
    | ArrayValue(items: seq<JsonValue>)
    | ObjectValue(members: seq<NamedValue>)

  datatype NamedValue = NamedValue(name: seq<byte>, value: JsonValue)

  /** What is written. */
  function ValueOf(v: Syntax): JsonValue
    requires WellFormed(v) && AllPaired(v)
  {
    match v
    case NullWord => NullValue
    case FalseWord => FalseValue
    case TrueWord => TrueValue
    case NumberWord(numeral) => NumberValue(NumeralValue(numeral))
    case StringWord(chars) => StringValue(CharactersValue(chars))
    case ArrayWord(_, elements) => ArrayValue(ElementsValue(elements))
    case ObjectWord(_, pairs) => ObjectValue(PairsValue(pairs))
  }

  function ElementsValue(es: seq<Element>): seq<JsonValue>
    requires WellFormedElements(es) && ElementsPaired(es)
  {
    if es == [] then [] else [ValueOf(es[0].value)] + ElementsValue(es[1..])
  }

  function PairsValue(ps: seq<Pair>): seq<NamedValue>
    requires WellFormedPairs(ps) && PairsPaired(ps)
  {
    if ps == [] then [] else [NamedValue(CharactersValue(ps[0].key), ValueOf(ps[0].value))] + PairsValue(ps[1..])
  }

  /** The tree with C strings that comes closest to it: each string and name up to its first NUL. */
  function Meaning(v: Syntax): Json
    requires WellFormed(v) && AllPaired(v)
  {
    match v
    case NullWord => Null
    case FalseWord => False
    case TrueWord => True
    case NumberWord(numeral) => Json.Number(NumeralValue(numeral))
    case StringWord(chars) => String(Chars(StringMeaning(chars)))
    case ArrayWord(_, elements) => Array(ElementsMeaning(elements))
    case ObjectWord(_, pairs) => Object(PairsMeaning(pairs))
  }

  function ElementsMeaning(es: seq<Element>): seq<Json>
    requires WellFormedElements(es) && ElementsPaired(es)
  {
    if es == [] then [] else [Meaning(es[0].value)] + ElementsMeaning(es[1..])
  }

  function PairsMeaning(ps: seq<Pair>): seq<Member>
    requires WellFormedPairs(ps) && PairsPaired(ps)
  {
    if ps == [] then [] else [Member(Chars(StringMeaning(ps[0].key)), Meaning(ps[0].value))] + PairsMeaning(ps[1..])
  }

  /** How deeply arrays and objects are nested. */
  function Depth(v: Syntax): nat {
    match v
    case ArrayWord(_, elements) => 1 + ElementsDepth(elements)
    case ObjectWord(_, pairs) => 1 + PairsDepth(pairs)
    case _ => 0
  }

  function ElementsDepth(es: seq<Element>): nat {
    if es == [] then 0 else Max(Depth(es[0].value), ElementsDepth(es[1..]))
  }

  function PairsDepth(ps: seq<Pair>): nat {
    if ps == [] then 0 else Max(Depth(ps[0].value), PairsDepth(ps[1..]))
  }

  /** No numeral is longer than the 63 characters that the number parser copies. */
  predicate ShortNumerals(v: Syntax) {
    match v
    case NumberWord(numeral) => |NumeralText(numeral)| <= 63
    case ArrayWord(_, elements) => ElementsShort(elements)
    case ObjectWord(_, pairs) => PairsShort(pairs)
    case _ => true
  }

  predicate ElementsShort(es: seq<Element>) {
    es != [] ==> ShortNumerals(es[0].value) && ElementsShort(es[1..])
  }

  predicate PairsShort(ps: seq<Pair>) {
    ps != [] ==> ShortNumerals(ps[0].value) && PairsShort(ps[1..])
  }
}
