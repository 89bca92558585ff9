/**
 Documents byte by byte: what is read of them, and where reading fails. The texts are independent of the constants
 and functions that the parser and the grammar are described with.
 */
module Documents {
  import opened Bytes
  import opened JsonTree
  import opened ParseSpec
  import opened StringLiteral
  import opened NumeralGrammar
  import Utf16
  import DecimalValue
  import GrammarParse

  // ---------------------------------------------------------------- pieces

  lemma {:induction false} DigitNumeral(d: nonzero)
    requires 48 <= d <= 57
    ensures var n := Numeral(false, [d], [], NoExponent);
            WellFormedNumeral(n) && NumeralText(n) == [d] && NumeralValue(n) == (d - 48) as real
  {
    hide NumeralGrammar.Number;
    DecimalValue.TwoDigitNumber(d, d);
    assert [d] + [] == [d];
  }

  /** One digit. */
  lemma {:induction false} OneDigit(c: seq<byte>, off: nat, depth: nat)
    requires Terminated(c) && off + 1 < |c| && 48 <= c[off] <= 57 && c[off + 1] in {0, 9, 13, 32, 44, 93, 125}
    ensures ParseValueSpec(c, off, depth) == Ok(Json.Number((c[off] - 48) as real), off + 1)
  {
    hide ParseValueSpec, NumeralText, NumeralValue, WellFormedNumeral;
    DigitNumeral(c[off]);
    assert c[off..off + 1] == [c[off]];
    GrammarParse.ParseNumberWord(c, off, Numeral(false, [c[off]], [], NoExponent), depth);
  }

  /** A string of one letter. */
  lemma {:induction false} OneLetter(c: seq<byte>, off: nat)
    requires off + 3 <= |c| && c[off] == 34 && 97 <= c[off + 1] <= 122 && c[off + 2] == 34
    ensures ParseStringSpec(c, off) == Ok([c[off + 1]], off + 3)
  {
    assert ClosingQuote(c, off + 2) == Some(off + 2);
    assert Decode(c, off + 1, off + 2) == Prepend([c[off + 1]], Decode(c, off + 2, off + 2));
  }

  /** From `i` on only blanks stand in front of `j`. */
  predicate Blanks(c: seq<byte>, i: nat, j: nat) {
    i <= j < |c| && c[j] > 32 && forall k :: i <= k < j ==> c[k] <= 32
  }

  lemma BlanksSkipped(c: seq<byte>, i: nat, j: nat)
    requires Terminated(c) && Blanks(c, i, j)
    ensures SkipBlanks(c, i) == j
  {
    GrammarParse.BlanksEndOver(c, i, j - i);
  }

  /** A value in an array, with what stands behind it. */
  lemma {:induction false} Item(c: seq<byte>, i: nat, depth: nat, v: Json, next: nat, j: nat)
    requires Terminated(c) && i < |c| && ParseValueSpec(c, i, depth) == Ok(v, next) && next < |c| && Blanks(c, next, j)
    ensures c[j] == 93 ==> ParseItemsSpec(c, i, depth) == Ok([v], j + 1)
    ensures c[j] !in {44, 93} ==> ParseItemsSpec(c, i, depth) == Parsed.Fail(j)
    ensures forall k :: c[j] == 44 && Blanks(c, j + 1, k) ==>
                          ParseItemsSpec(c, i, depth) == PrependTo([v], ParseItemsSpec(c, k, depth))
  {
    hide ParseValueSpec, SkipBlanks;
    BlanksSkipped(c, next, j);
    forall k | c[j] == 44 && Blanks(c, j + 1, k)
      ensures ParseItemsSpec(c, i, depth) == PrependTo([v], ParseItemsSpec(c, k, depth))
    {
      BlanksSkipped(c, j + 1, k);
    }
  }

  /** An array that is not empty. */
  lemma {:induction false} ArrayAt(c: seq<byte>, off: nat, depth: nat, i: nat)
    requires Terminated(c) && off < |c| && c[off] == 91 && Blanks(c, off + 1, i) && c[i] != 93 && depth < 1000
    ensures ParseValueSpec(c, off, depth) == match ParseItemsSpec(c, i, depth + 1)
                                             case Fail(at) => Parsed.Fail(at)
                                             case Ok(items, next) => Ok(Array(items), next)
  {
    hide ParseValueSpec, ParseItemsSpec, SkipBlanks;
    BlanksSkipped(c, off + 1, i);
    GrammarParse.Dispatch(c, off, depth);
  }

  /** A byte that begins no value. */
  lemma {:induction false} NoValue(c: seq<byte>, off: nat, depth: nat)
    requires Terminated(c) && off < |c| && c[off] !in {34, 45, 91, 102, 110, 116, 123} && !(48 <= c[off] <= 57)
    ensures ParseValueSpec(c, off, depth) == Parsed.Fail(off)
  {
    hide At;
    GrammarParse.KeywordsApart(c, off);
  }

  /** A member whose key is one letter: without a colon behind the key it fails there, else as its value does. */
  lemma {:induction false} LetterMember(c: seq<byte>, i: nat, depth: nat, j: nat, k: nat)
    requires Terminated(c) && i + 3 < |c| && c[i] == 34 && 97 <= c[i + 1] <= 122 && c[i + 2] == 34
    requires Blanks(c, i + 3, j)
    ensures c[j] != 58 ==> ParseMemberSpec(c, i, depth) == Parsed.Fail(j)
    ensures c[j] == 58 && Blanks(c, j + 1, k) ==>
              ParseMemberSpec(c, i, depth) == match ParseValueSpec(c, k, depth)
                                              case Fail(at) => Parsed.Fail(at)
                                              case Ok(v, next) => Ok(Member(Chars([c[i + 1]]), v), next)
  {
    hide ParseValueSpec, ParseStringSpec, SkipBlanks;
    OneLetter(c, i);
    BlanksSkipped(c, i + 3, j);
    if c[j] == 58 && Blanks(c, j + 1, k) {
      BlanksSkipped(c, j + 1, k);
    }
  }

  /** A member in an object, with what stands behind it. */
  lemma {:induction false} MemberItem(c: seq<byte>, i: nat, depth: nat, m: Member, next: nat, j: nat)
    requires Terminated(c) && i < |c| && ParseMemberSpec(c, i, depth) == Ok(m, next) && next < |c| && Blanks(c, next, j)
    ensures c[j] == 125 ==> ParseMembersSpec(c, i, depth) == Ok([m], j + 1)
    ensures c[j] !in {44, 125} ==> ParseMembersSpec(c, i, depth) == Parsed.Fail(j)
    ensures forall k :: c[j] == 44 && Blanks(c, j + 1, k) ==>
                          ParseMembersSpec(c, i, depth) == PrependTo([m], ParseMembersSpec(c, k, depth))
  {
    hide ParseMemberSpec, SkipBlanks;
    BlanksSkipped(c, next, j);
    forall k | c[j] == 44 && Blanks(c, j + 1, k)
      ensures ParseMembersSpec(c, i, depth) == PrependTo([m], ParseMembersSpec(c, k, depth))
    {
      BlanksSkipped(c, j + 1, k);
    }
  }

  lemma {:induction false} FailedMember(c: seq<byte>, i: nat, depth: nat)
    requires Terminated(c) && i < |c| && ParseMemberSpec(c, i, depth).Fail?
    ensures ParseMembersSpec(c, i, depth) == Parsed.Fail(ParseMemberSpec(c, i, depth).offset)
  {
    hide ParseMemberSpec;
  }

  lemma {:induction false} FailedItem(c: seq<byte>, i: nat, depth: nat)
    requires Terminated(c) && i < |c| && ParseValueSpec(c, i, depth).Fail?
    ensures ParseItemsSpec(c, i, depth) == Parsed.Fail(ParseValueSpec(c, i, depth).offset)
  {
    hide ParseValueSpec;
  }

  /** An object that is not empty. */
  lemma {:induction false} ObjectAt(c: seq<byte>, off: nat, depth: nat, i: nat)
    requires Terminated(c) && off < |c| && c[off] == 123 && Blanks(c, off + 1, i) && c[i] != 125 && depth < 1000
    ensures ParseValueSpec(c, off, depth) == match ParseMembersSpec(c, i, depth + 1)
                                             case Fail(at) => Parsed.Fail(at)
                                             case Ok(members, next) => Ok(Object(members), next)
  {
    hide ParseValueSpec, ParseMembersSpec, SkipBlanks;
    BlanksSkipped(c, off + 1, i);
    GrammarParse.Dispatch(c, off, depth);
  }

  /** An empty container. */
  lemma {:induction false} EmptyAt(c: seq<byte>, off: nat, depth: nat, i: nat)
    requires Terminated(c) && off < |c| && Blanks(c, off + 1, i) && depth < 1000
    ensures c[off] == 91 && c[i] == 93 ==> ParseValueSpec(c, off, depth) == Ok(Array([]), i + 1)
    ensures c[off] == 123 && c[i] == 125 ==> ParseValueSpec(c, off, depth) == Ok(Object([]), i + 1)
  {
    hide ParseValueSpec, ParseItemsSpec, ParseMembersSpec, SkipBlanks;
    BlanksSkipped(c, off + 1, i);
    GrammarParse.Dispatch(c, off, depth);
  }

  /** A document that begins with its value. */
  lemma {:induction false} Document(c: seq<byte>, end: nat)
    requires Terminated(c) && 32 < c[0] < 128
    ensures ParseValueSpec(c, 0, 0).Fail? ==> ParseDocument(c, true) == ParseDocument(c, false)
    ensures ParseValueSpec(c, 0, 0).Fail? && ParseValueSpec(c, 0, 0).offset < |c| ==>
              ParseDocument(c, true) == Parsed.Fail(ParseValueSpec(c, 0, 0).offset)
    ensures ParseValueSpec(c, 0, 0).Ok? ==> ParseDocument(c, false) == ParseValueSpec(c, 0, 0)
    ensures ParseValueSpec(c, 0, 0).Ok? && Blanks(c, ParseValueSpec(c, 0, 0).offset, end) ==>
              ParseDocument(c, true) == Parsed.Fail(end)
    ensures ParseValueSpec(c, 0, 0).Ok? && ParseValueSpec(c, 0, 0).offset == |c| - 1 ==>
              ParseDocument(c, true) == ParseValueSpec(c, 0, 0)
  {
    hide ParseValueSpec, At;
    assert SkipBom(c) == 0 by {
      if At(c, 0, BOM) {
        AtIndex(c, 0, BOM, 0);
      }
    }
    BlanksSkipped(c, 0, 0);
    if ParseValueSpec(c, 0, 0).Ok? && Blanks(c, ParseValueSpec(c, 0, 0).offset, end) {
      BlanksSkipped(c, ParseValueSpec(c, 0, 0).offset, end);
    }
  }

  // ---------------------------------------------------------------- documents that are read

  /** `null`, `true` and `false`. */
  lemma {:induction false} WordsAreRead()
    ensures ParseDocument([110, 117, 108, 108, 0], true) == Ok(Null, 4)
    ensures ParseDocument([116, 114, 117, 101, 0], true) == Ok(True, 4)
    ensures ParseDocument([102, 97, 108, 115, 101, 0], true) == Ok(False, 5)
  {
    Words([110, 117, 108, 108, 0], [116, 114, 117, 101, 0], [102, 97, 108, 115, 101, 0]);
    hide ParseValueSpec, ParseDocument;
    Document([110, 117, 108, 108, 0], 0);
    Document([116, 114, 117, 101, 0], 0);
    Document([102, 97, 108, 115, 101, 0], 0);
  }

  lemma {:induction false} Words(c: seq<byte>, d: seq<byte>, e: seq<byte>)
    requires c == [110, 117, 108, 108, 0] && d == [116, 114, 117, 101, 0] && e == [102, 97, 108, 115, 101, 0]
    ensures ParseValueSpec(c, 0, 0) == Ok(Null, 4)
    ensures ParseValueSpec(d, 0, 0) == Ok(True, 4)
    ensures ParseValueSpec(e, 0, 0) == Ok(False, 5)
  {
    assert c[0..4] == NULL_TEXT && d[0..4] == TRUE_TEXT && e[0..5] == FALSE_TEXT;
    GrammarParse.KeywordsApart(d, 0);
    GrammarParse.KeywordsApart(e, 0);
  }

  /** `[ 7 ,\r\n8\t]`, and without requiring the end the `x` behind it is not looked at. */
  lemma {:induction false} ArrayIsRead(c: seq<byte>)
    requires c == [91, 32, 55, 32, 44, 13, 10, 56, 9, 93, 0]
    ensures ParseDocument(c, true) == Ok(Array([Json.Number(7.0), Json.Number(8.0)]), 10)
  {
    hide ParseDocument, ParseValueSpec, ParseItemsSpec, SkipBlanks;
    OneDigit(c, 2, 1);
    OneDigit(c, 7, 1);
    Item(c, 7, 1, Json.Number(8.0), 8, 9);
    Item(c, 2, 1, Json.Number(7.0), 3, 4);
    assert Blanks(c, 5, 7);
    assert ParseValueSpec(c, 2, 1) == Ok(Json.Number(7.0), 3);
    assert ParseItemsSpec(c, 7, 1) == Ok([Json.Number(8.0)], 10);
    assert [Json.Number(7.0)] + [Json.Number(8.0)] == [Json.Number(7.0), Json.Number(8.0)];
    assert ParseItemsSpec(c, 2, 1) == Ok([Json.Number(7.0), Json.Number(8.0)], 10);
    ArrayAt(c, 0, 0, 2);
    Document(c, 0);
  }

  /** `{"k" : [ ] ,\n"m":{\t}}`; then an `x`, at which reading stops unless the end is asked for. */
  lemma {:induction false} ObjectIsRead(c: seq<byte>)
    requires c == [123, 34, 107, 34, 32, 58, 32, 91, 32, 93, 32, 44, 10, 34, 109, 34, 58, 123, 9, 125, 125, 32, 120, 0]
    ensures ParseDocument(c, false)
            == Ok(Object([Member(Chars([107]), Array([])), Member(Chars([109]), Object([]))]), 21)
    ensures ParseDocument(c, true) == Parsed.Fail(22)
  {
    hide ParseDocument, ParseValueSpec, ParseMembersSpec, ParseMemberSpec, SkipBlanks;
    TwoMembers(c);
    var k, m := Member(Chars([107]), Array([])), Member(Chars([109]), Object([]));
    MemberItem(c, 13, 1, m, 20, 20);
    MemberItem(c, 1, 1, k, 10, 11);
    assert Blanks(c, 12, 13);
    assert [k] + [m] == [k, m];
    ObjectAt(c, 0, 0, 1);
    Document(c, 22);
  }

  lemma {:induction false} TwoMembers(c: seq<byte>)
    requires c == [123, 34, 107, 34, 32, 58, 32, 91, 32, 93, 32, 44, 10, 34, 109, 34, 58, 123, 9, 125, 125, 32, 120, 0]
    ensures ParseMemberSpec(c, 1, 1) == Ok(Member(Chars([107]), Array([])), 10)
    ensures ParseMemberSpec(c, 13, 1) == Ok(Member(Chars([109]), Object([])), 20)
  {
    hide ParseDocument, ParseValueSpec, ParseMembersSpec, ParseMemberSpec, SkipBlanks;
    EmptyAt(c, 7, 1, 9);
    LetterMember(c, 1, 1, 5, 7);
    EmptyAt(c, 17, 1, 19);
    LetterMember(c, 13, 1, 16, 17);
  }

  /** A byte order mark in front of `5`, and nothing but a byte order mark. */
  lemma {:induction false} MarkIsSkipped(c: seq<byte>)
    requires c == [0xEF, 0xBB, 0xBF, 53, 0]
    ensures ParseDocument(c, true) == Ok(Json.Number(5.0), 4)
    ensures ParseDocument([0xEF, 0xBB, 0xBF, 0], true) == Parsed.Fail(0)
  {
    OneDigit(c, 3, 0);
    NoValue([0xEF, 0xBB, 0xBF, 0], 0, 0);
    hide ParseValueSpec;
    assert SkipBom(c) == 3;
    BlanksSkipped(c, 3, 3);
    assert SkipBom([0xEF, 0xBB, 0xBF, 0]) == 0;
    BlanksSkipped([0xEF, 0xBB, 0xBF, 0], 0, 0);
  }

  // ---------------------------------------------------------------- where reading fails

  /** `[1  2]`, `[1,]` and `[x`. */
  lemma {:induction false} ArrayFails(c: seq<byte>, d: seq<byte>, e: seq<byte>)
    requires c == [91, 49, 32, 32, 50, 93, 0] && d == [91, 49, 44, 93, 0] && e == [91, 120, 0]
    ensures ParseDocument(c, true) == Parsed.Fail(4)
    ensures ParseDocument(d, true) == Parsed.Fail(3)
    ensures ParseDocument(e, true) == Parsed.Fail(1)
  {
    hide ParseDocument, ParseValueSpec, ParseItemsSpec, SkipBlanks;
    OneDigit(c, 1, 1);
    Item(c, 1, 1, Json.Number(1.0), 2, 4);
    ArrayAt(c, 0, 0, 1);
    Document(c, 0);
    OneDigit(d, 1, 1);
    Item(d, 1, 1, Json.Number(1.0), 2, 2);
    NoValue(d, 3, 1);
    FailedItem(d, 3, 1);
    assert Blanks(d, 3, 3);
    ArrayAt(d, 0, 0, 1);
    Document(d, 0);
    NoValue(e, 1, 1);
    FailedItem(e, 1, 1);
    ArrayAt(e, 0, 0, 1);
    Document(e, 0);
  }

  lemma {:induction false} KeyMissing(f: seq<byte>)
    requires f == [123, 32, 120, 0]
    ensures ParseMemberSpec(f, 2, 1) == Parsed.Fail(3)
  {
    assert f[2] == 120;
  }

  /** `{"a"  1}` and `{"a":x`. */
  lemma {:induction false} MemberFails(c: seq<byte>, d: seq<byte>)
    requires c == [123, 34, 97, 34, 32, 32, 49, 125, 0] && d == [123, 34, 97, 34, 58, 120, 0]
    ensures ParseDocument(c, true) == Parsed.Fail(6)
    ensures ParseDocument(d, true) == Parsed.Fail(5)
  {
    hide ParseDocument, ParseValueSpec, ParseMembersSpec, ParseMemberSpec, SkipBlanks;
    LetterMember(c, 1, 1, 6, 0);
    FailedMember(c, 1, 1);
    ObjectAt(c, 0, 0, 1);
    Document(c, 0);
    NoValue(d, 5, 1);
    LetterMember(d, 1, 1, 4, 5);
    FailedMember(d, 1, 1);
    ObjectAt(d, 0, 0, 1);
    Document(d, 0);
  }

  /** `{"a":1  2}`, and `{ x`, where the position is the one behind the faulty byte. */
  lemma {:induction false} ObjectFails(c: seq<byte>, d: seq<byte>)
    requires c == [123, 34, 97, 34, 58, 49, 32, 32, 50, 125, 0] && d == [123, 32, 120, 0]
    ensures ParseDocument(c, true) == Parsed.Fail(8)
    ensures ParseDocument(d, true) == Parsed.Fail(3)
  {
    hide ParseDocument, ParseValueSpec, ParseMembersSpec, ParseMemberSpec, SkipBlanks;
    OneDigit(c, 5, 1);
    LetterMember(c, 1, 1, 4, 5);
    MemberItem(c, 1, 1, Member(Chars([97]), Json.Number(1.0)), 6, 8);
    ObjectAt(c, 0, 0, 1);
    Document(c, 0);
    KeyMissing(d);
    FailedMember(d, 2, 1);
    ObjectAt(d, 0, 0, 2);
    Document(d, 0);
  }

  /** `"ab`, and `"a\qb"` at its backslash. */
  lemma {:induction false} StringFails()
    ensures ParseStringSpec([34, 97, 98, 0], 0) == Parsed.Fail(1)
    ensures ParseStringSpec([34, 97, 92, 113, 34, 0], 0) == Parsed.Fail(2)
  {
  }

  /** `"a\ud800"` at its backslash. */
  lemma {:induction false} LoneSurrogateFails(c: seq<byte>)
    requires c == [34, 97, 92, 117, 100, 56, 48, 48, 34, 0]
    ensures ParseStringSpec(c, 0) == Parsed.Fail(2)
  {
    assert ClosingQuote(c, 7) == Some(8);
    assert ClosingQuote(c, 6) == Some(8);
    assert ClosingQuote(c, 5) == Some(8);
    assert ClosingQuote(c, 4) == Some(8);
    assert ClosingQuote(c, 2) == Some(8);
    Utf16.HexValueOfFour(c, 4);
    assert Decode(c, 2, 8) == Bad(2);
  }

  /** The empty text, `nul` and `-`. */
  lemma {:induction false} WordFails()
    ensures ParseDocument([0], true) == Parsed.Fail(0)
    ensures ParseDocument([110, 117, 108, 0], true) == Parsed.Fail(0)
    ensures ParseDocument([45, 0], true) == Parsed.Fail(0)
  {
  }

  // ---------------------------------------------------------------- nesting

  /** `n` opening brackets and `n` closing ones. */
  function Brackets(n: nat): (c: seq<byte>)
    ensures |c| == 2 * n + 1 && Terminated(c)
  {
    seq(n, _ => 91) + seq(n, _ => 93) + [0]
  }

  /** Arrays in arrays, `n` of them. */
  function Nest(n: nat): Json {
    if n <= 1 then Array([]) else Array([Nest(n - 1)])
  }

  lemma {:induction false} NestedAt(c: seq<byte>, n: nat, k: nat)
    requires c == Brackets(n) && k < n && k <= 1000
    ensures ParseValueSpec(c, k, k) == if n <= 1000 then Ok(Nest(n - k), 2 * n - k) else Parsed.Fail(1000)
    decreases n - k
  {
    hide ParseValueSpec, ParseItemsSpec, SkipBlanks;
    if k == 1000 {
      GrammarParse.Dispatch(c, k, k);
    } else if k == n - 1 {
      EmptyAt(c, k, k, n);
    } else {
      NestedAt(c, n, k + 1);
      ArrayAt(c, k, k, k + 1);
      if n <= 1000 {
        Item(c, k + 1, k + 1, Nest(n - k - 1), 2 * n - k - 1, 2 * n - k - 1);
      } else {
        FailedItem(c, k + 1, k + 1);
      }
    }
  }

  /** Arrays are read up to a nesting of 1000; of more brackets, the one after the first thousand is refused. */
  lemma {:induction false} NestingIsLimited(n: nat)
    requires n > 0
    ensures ParseDocument(Brackets(n), true) == if n <= 1000 then Ok(Nest(n), 2 * n) else Parsed.Fail(1000)
  {
    hide ParseDocument, ParseValueSpec, Nest;
    NestedAt(Brackets(n), n, 0);
    Document(Brackets(n), 0);
  }
}
