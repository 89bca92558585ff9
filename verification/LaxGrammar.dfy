/**
 The texts that the parser takes, which are more than those of RFC 8259: any byte up to a space is a blank, a string
 may hold control characters and groups of any four bytes, and a numeral is what `strtod` takes.
 */
module LaxGrammar {
  import opened Bytes
  import opened Utf16
  import opened JsonTree
  import opened StringGrammar
  import Decimal

  predicate LaxBlank(s: Text) {
    forall k :: 0 <= k < |s| ==> s[k] <= 32
  }

  // ---------------------------------------------------------------- strings

  /** A byte other than a backslash, a short escape, or any four bytes behind a backslash and a letter u. */
  predicate LaxCharacter(ch: Character) {
    match ch
    case Plain(b) => b != BACKSLASH
    case Short(letter) => ShortMeaning(letter).Some?
    case Unicode(hex) => |hex| == 4
  }

  predicate LaxCharacters(chars: seq<Character>) {
    forall k :: 0 <= k < |chars| ==> LaxCharacter(chars[k])
  }

  /** Four bytes that are not all hexadecimal digits count as zero. */
  function LaxUnit(ch: Character): (u: nat)
    requires LaxCharacter(ch) && ch.Unicode?
    ensures u <= 0xFFFF
  {
    Hex4(ch.hex, 0)
  }

  predicate StartsWithLaxPair(chars: seq<Character>)
    requires LaxCharacters(chars)
  {
    |chars| >= 2 && chars[0].Unicode? && chars[1].Unicode? && IsHighSurrogate(LaxUnit(chars[0]))
      && IsLowSurrogate(LaxUnit(chars[1]))
  }

  predicate LaxSurrogate(ch: Character)
    requires LaxCharacter(ch)
  {
    ch.Unicode? && (IsHighSurrogate(LaxUnit(ch)) || IsLowSurrogate(LaxUnit(ch)))
  }

  predicate LaxPaired(chars: seq<Character>)
    requires LaxCharacters(chars)
  {
    if chars == [] then true
    else if StartsWithLaxPair(chars) then LaxPaired(chars[2..])
    else !LaxSurrogate(chars[0]) && LaxPaired(chars[1..])
  }

  function LaxValue(chars: seq<Character>): seq<byte>
    requires LaxCharacters(chars) && LaxPaired(chars)
  {
    if chars == [] then []
    else if StartsWithLaxPair(chars) then Utf8(PairValue(LaxUnit(chars[0]), LaxUnit(chars[1]))) + LaxValue(chars[2..])
    else OneLaxValue(chars[0]) + LaxValue(chars[1..])
  }

  function OneLaxValue(ch: Character): seq<byte>
    requires LaxCharacter(ch) && !LaxSurrogate(ch)
  {
    match ch
    case Plain(b) => [b]
    case Short(letter) => [ShortMeaning(letter).value]
    case Unicode(_) => Utf8(LaxUnit(ch))
  }

  /** Read in steps of one byte, or two behind a backslash, the text has no quote and ends with a step. */
  predicate Closed(s: Text) {
    if s == [] then true
    else if s[0] == BACKSLASH then |s| > 1 && Closed(s[2..])
    else s[0] != QUOTE && Closed(s[1..])
  }

  /**
   What stands between the quotes has two readings. The one that looks for the closing quote finds none in it; the one
   that decodes takes it for these characters, where the last may take the closing quote itself for its letter.
   */
  predicate LaxLiteral(body: Text, chars: seq<Character>) {
    && Closed(body) && LaxCharacters(chars) && LaxPaired(chars)
    && (CharactersText(chars) == body || (CharactersText(chars) == body + [QUOTE] && EndsInEscapedQuote(chars)))
  }

  predicate EndsInEscapedQuote(chars: seq<Character>) {
    chars != [] && chars[|chars| - 1] == Short(QUOTE)
  }

  // ---------------------------------------------------------------- values

  /** At most 63 characters that `strtod` takes as a whole, and that begin like a number. */
  predicate LaxNumeral(s: Text) {
    && 0 < |s| <= 63 && (forall k :: 0 <= k < |s| ==> Decimal.IsNumberChar(s[k]))
    && (s[0] == MINUS || Decimal.IsDigit(s[0])) && Decimal.Strtod(s).1 == |s|
  }

  datatype Lax =
    | LaxNull
    | LaxFalse
    | LaxTrue
    | LaxNumber(numeral: Text)
    | LaxString(body: Text, chars: seq<Character>)
    | LaxArray(blank: Text, elements: seq<LaxElement>)
    | LaxObject(blank: Text, pairs: seq<LaxPair>)

  /** A value, the blanks behind it and, if a comma follows, the blanks behind that. */
  datatype LaxElement = LaxElement(value: Lax, after: Text, gap: Text)

  /** A key, blanks, a colon, blanks, and what an element has. */
  datatype LaxPair = LaxPair(key: Text, chars: seq<Character>, between: Text, before: Text, value: Lax, after: Text,
                             gap: Text)

  predicate IsLax(v: Lax) {
    match v
    case LaxNumber(numeral) => LaxNumeral(numeral)
    case LaxString(body, chars) => LaxLiteral(body, chars)
    case LaxArray(blank, elements) => LaxBlank(blank) && LaxElements(elements)
    case LaxObject(blank, pairs) => LaxBlank(blank) && LaxPairs(pairs)
    case _ => true
  }

  predicate LaxElements(es: seq<LaxElement>) {
    es != [] ==> IsLax(es[0].value) && LaxBlank(es[0].after) && LaxBlank(es[0].gap) && LaxElements(es[1..])
  }

  predicate LaxPairs(ps: seq<LaxPair>) {
    ps != [] ==>
      && LaxLiteral(ps[0].key, ps[0].chars) && LaxBlank(ps[0].between) && LaxBlank(ps[0].before) && IsLax(ps[0].value)
      && LaxBlank(ps[0].after) && LaxBlank(ps[0].gap) && LaxPairs(ps[1..])
  }

  function LaxText(v: Lax): Text {
    match v
    case LaxNull => NULL_TEXT
    case LaxFalse => FALSE_TEXT
    case LaxTrue => TRUE_TEXT
    case LaxNumber(numeral) => numeral
    case LaxString(body, _) => Enclosed(body)
    case LaxArray(blank, elements) => [LBRACKET] + (blank + LaxElementsText(elements)) + [RBRACKET]
    case LaxObject(blank, pairs) => [LBRACE] + (blank + LaxPairsText(pairs)) + [RBRACE]
  }

  function Enclosed(body: Text): Text {
    [QUOTE] + body + [QUOTE]
  }

  function LaxElementsText(es: seq<LaxElement>): Text {
    if es == [] then []
    else
      LaxText(es[0].value) + es[0].after + (if |es| == 1 then [] else [COMMA] + es[0].gap + LaxElementsText(es[1..]))
  }

  function LaxPairsText(ps: seq<LaxPair>): Text {
    if ps == [] then []
    else LaxPairText(ps[0]) + ps[0].after + (if |ps| == 1 then [] else [COMMA] + ps[0].gap + LaxPairsText(ps[1..]))
  }

  function LaxPairText(p: LaxPair): Text {
    Enclosed(p.key) + p.between + ([COLON] + p.before + LaxText(p.value))
  }

  function LaxMeaning(v: Lax): Json
    requires IsLax(v)
  {
    match v
    case LaxNull => Null
    case LaxFalse => False
    case LaxTrue => True
    case LaxNumber(numeral) => Number(Decimal.Strtod(numeral).0)
    case LaxString(_, chars) => String(Chars(UpToNul(LaxValue(chars))))
    case LaxArray(_, elements) => Array(LaxItems(elements))
    case LaxObject(_, pairs) => Object(LaxMembers(pairs))
  }

  function LaxItems(es: seq<LaxElement>): (items: seq<Json>)
    requires LaxElements(es)
  {
    if es == [] then [] else [LaxMeaning(es[0].value)] + LaxItems(es[1..])
  }

  function LaxMembers(ps: seq<LaxPair>): (members: seq<Member>)
    requires LaxPairs(ps)
  {
    if ps == [] then []
    else [Member(Chars(UpToNul(LaxValue(ps[0].chars))), LaxMeaning(ps[0].value))] + LaxMembers(ps[1..])
  }

  function LaxDepth(v: Lax): nat {
    match v
    case LaxArray(_, elements) => 1 + LaxElementsDepth(elements)
    case LaxObject(_, pairs) => 1 + LaxPairsDepth(pairs)
    case _ => 0
  }

  function LaxElementsDepth(es: seq<LaxElement>): nat {
    if es == [] then 0 else Max(LaxDepth(es[0].value), LaxElementsDepth(es[1..]))
  }

  function LaxPairsDepth(ps: seq<LaxPair>): nat {
    if ps == [] then 0 else Max(LaxDepth(ps[0].value), LaxPairsDepth(ps[1..]))
  }
}
