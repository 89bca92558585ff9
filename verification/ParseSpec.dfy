/**
 What the parser of cJSON.c computes on a NUL-terminated input, as functions of the input,
 an offset and the current nesting depth. The methods of `ParseBuffer` are proved to follow them.
 */
module ParseSpec {
  import opened Bytes
  import opened StringLiteral
  import opened JsonTree
  import Decimal

  /** Contents of a C string buffer of this length: the last byte is NUL. */
  predicate Terminated(c: seq<byte>) {
    |c| > 0 && c[|c| - 1] == NUL
  }

  // ---------------------------------------------------------------- whitespace

  /** First index from `i` on that holds a byte above 32. */
  function BlanksEnd(c: seq<byte>, i: nat): (j: nat)
    requires i <= |c|
    ensures i <= j <= |c|
    ensures forall k :: i <= k < j ==> c[k] <= 32
    ensures j < |c| ==> c[j] > 32
    decreases |c| - i
  {
    if i < |c| && c[i] <= 32 then BlanksEnd(c, i + 1) else i
  }

  /** `buffer_skip_whitespace`: it also takes the final NUL for a blank, and then steps back onto it. */
  function SkipBlanks(c: seq<byte>, i: nat): (j: nat)
    requires i < |c| && Terminated(c)
    ensures i <= j < |c|
  {
    var j := BlanksEnd(c, i);
    if j == |c| then |c| - 1 else j
  }

  lemma SkipBlanksStops(c: seq<byte>, i: nat)
    requires i < |c| && Terminated(c)
    ensures c[i] > 32 ==> SkipBlanks(c, i) == i
    ensures SkipBlanks(c, SkipBlanks(c, i)) == SkipBlanks(c, i)
  {
  }

  // ---------------------------------------------------------------- numbers

  /** First index from `i` on, and before `limit`, that does not hold a number character. */
  function NumberCharsEnd(c: seq<byte>, i: nat, limit: nat): (j: nat)
    requires i <= limit <= |c|
    ensures i <= j <= limit
    ensures j < limit ==> !Decimal.IsNumberChar(c[j])
    decreases limit - i
  {
    if i < limit && Decimal.IsNumberChar(c[i]) then NumberCharsEnd(c, i + 1, limit) else i
  }

  /** End of the characters `parse_number` copies: at most 63 of them. */
  function NumberEnd(c: seq<byte>, off: nat): (j: nat)
    requires off <= |c|
    ensures off <= j <= off + 63 && j <= |c|
  {
    NumberCharsEnd(c, off, if off + 63 < |c| then off + 63 else |c|)
  }

  /** The copying ends behind number characters, for want of another one or of room. */
  lemma {:induction false} NumberCharsEndAt(c: seq<byte>, i: nat, stop: nat, limit: nat)
    requires i <= stop <= limit <= |c|
    requires forall k :: i <= k < stop ==> Decimal.IsNumberChar(c[k])
    requires stop == limit || !Decimal.IsNumberChar(c[stop])
    ensures NumberCharsEnd(c, i, limit) == stop
    decreases stop - i
  {
    hide Decimal.IsNumberChar;
    if i == stop {
    } else {
      NumberCharsEndAt(c, i + 1, stop, limit);
    }
  }

  lemma {:induction false} NumberCharsEndBefore(c: seq<byte>, i: nat, limit: nat, stop: nat)
    requires i <= stop < |c| && limit <= |c| && i <= limit && !Decimal.IsNumberChar(c[stop])
    ensures NumberCharsEnd(c, i, limit) <= stop
    decreases stop - i
  {
    if i == stop || i == limit {
    } else {
      NumberCharsEndBefore(c, i + 1, limit, stop);
    }
  }

  function ParseNumberSpec(c: seq<byte>, off: nat): (r: Parsed<Json>)
    requires off < |c| && Terminated(c)
    ensures r.offset < |c| && (r.Ok? ==> off < r.offset)
  {
    var end := NumberEnd(c, off);
    NumberCharsEndBefore(c, off, if off + 63 < |c| then off + 63 else |c|, |c| - 1);
    var (value, length) := Decimal.Strtod(c[off..end]);
    if length == 0 then Fail(off) else Ok(Number(value), off + length)
  }

  // ---------------------------------------------------------------- values

  function ParseStringValue(c: seq<byte>, off: nat): (r: Parsed<Json>)
    requires off < |c| && Terminated(c)
    ensures r.Ok? ==> off < r.offset < |c|
  {
    match ParseStringSpec(c, off)
    case Fail(at) => Fail(at)
    case Ok(text, next) => Ok(String(Chars(text)), next)
  }

  function ParseValueSpec(c: seq<byte>, off: nat, depth: nat): (r: Parsed<Json>)
    requires off < |c| && Terminated(c)
    ensures r.Ok? ==> off < r.offset < |c|
    decreases |c| - off, 1
  {
    if At(c, off, NULL_TEXT) then LiteralEnds(c, off, NULL_TEXT); Ok(Null, off + 4)
    else if At(c, off, FALSE_TEXT) then LiteralEnds(c, off, FALSE_TEXT); Ok(False, off + 5)
    else if At(c, off, TRUE_TEXT) then LiteralEnds(c, off, TRUE_TEXT); Ok(True, off + 4)
    else if c[off] == QUOTE then ParseStringValue(c, off)
    else if c[off] == MINUS || ZERO <= c[off] <= NINE then ParseNumberSpec(c, off)
    else if c[off] == LBRACKET then ParseArraySpec(c, off, depth)
    else if c[off] == LBRACE then ParseObjectSpec(c, off, depth)
    else Fail(off)
  }

  lemma LiteralEnds(c: seq<byte>, off: nat, s: Text)
    requires At(c, off, s) && |s| > 0 && Terminated(c)
    ensures off + |s| < |c|
  {
    AtIndex(c, off, s, |s| - 1);
  }

  function ParseArraySpec(c: seq<byte>, off: nat, depth: nat): (r: Parsed<Json>)
    requires off < |c| && Terminated(c) && c[off] == LBRACKET
    ensures r.Ok? ==> off < r.offset < |c|
    decreases |c| - off, 0
  {
    if depth >= NESTING_LIMIT then Fail(off)
    else
      var i := SkipBlanks(c, off + 1);
      if c[i] == RBRACKET then Ok(Array([]), i + 1)
      else
        match ParseItemsSpec(c, i, depth + 1)
        case Fail(at) => Fail(at)
        case Ok(items, next) => Ok(Array(items), next)
  }

  /** One or more values with commas between them, up to the closing bracket. */
  function ParseItemsSpec(c: seq<byte>, i: nat, depth: nat): (r: Parsed<seq<Json>>)
    requires i < |c| && Terminated(c)
    ensures r.Ok? ==> i < r.offset < |c|
    decreases |c| - i, 2
  {
    match ParseValueSpec(c, i, depth)
    case Fail(at) => Fail(at)
    case Ok(item, next) =>
      var j := SkipBlanks(c, next);
      if c[j] == COMMA then PrependTo([item], ParseItemsSpec(c, SkipBlanks(c, j + 1), depth))
      else if c[j] == RBRACKET then Ok([item], j + 1)
      else Fail(j)
  }

  function PrependTo<T>(s: seq<T>, r: Parsed<seq<T>>): Parsed<seq<T>> {
    match r
    case Fail(at) => r
    case Ok(t, next) => Ok(s + t, next)
  }

  lemma PrependNothing<T>(r: Parsed<seq<T>>)
    ensures PrependTo([], r) == r
  {
    if r.Ok? {
      assert [] + r.value == r.value;
    }
  }

  /** Where a list stands after the values in front of `i`: `r` is the outcome for the whole list. */
  ghost predicate ItemsFrom(c: seq<byte>, i: nat, depth: nat, done: seq<Json>, r: Parsed<seq<Json>>)
    requires i < |c| && Terminated(c)
  {
    r == PrependTo(done, ParseItemsSpec(c, i, depth))
  }

  lemma {:induction false} ItemsStart(c: seq<byte>, i: nat, depth: nat)
    requires i < |c| && Terminated(c)
    ensures ItemsFrom(c, i, depth, [], ParseItemsSpec(c, i, depth))
  {
    PrependNothing(ParseItemsSpec(c, i, depth));
  }

  lemma {:induction false} ItemsStep(c: seq<byte>, i: nat, depth: nat, done: seq<Json>, r: Parsed<seq<Json>>)
    requires i < |c| && Terminated(c) && ItemsFrom(c, i, depth, done, r)
    ensures match ParseValueSpec(c, i, depth)
            case Fail(at) => r == Fail(at)
            case Ok(item, next) =>
              var j := SkipBlanks(c, next);
              if c[j] == COMMA then ItemsFrom(c, SkipBlanks(c, j + 1), depth, done + [item], r)
              else r == if c[j] == RBRACKET then Ok(done + [item], j + 1) else Fail(j)
  {
    hide ParseValueSpec, SkipBlanks;
    if ParseValueSpec(c, i, depth).Ok? {
      var j := SkipBlanks(c, ParseValueSpec(c, i, depth).offset);
      if c[j] == COMMA {
        PrependAgain(done, [ParseValueSpec(c, i, depth).value], ParseItemsSpec(c, SkipBlanks(c, j + 1), depth));
      }
    }
  }

  lemma PrependAgain<T>(s: seq<T>, t: seq<T>, r: Parsed<seq<T>>)
    ensures PrependTo(s, PrependTo(t, r)) == PrependTo(s + t, r)
  {
    if r.Ok? {
      assert s + (t + r.value) == s + t + r.value;
    }
  }

  function ParseObjectSpec(c: seq<byte>, off: nat, depth: nat): (r: Parsed<Json>)
    requires off < |c| && Terminated(c) && c[off] == LBRACE
    ensures r.Ok? ==> off < r.offset < |c|
    decreases |c| - off, 0
  {
    if depth >= NESTING_LIMIT then Fail(off)
    else
      var i := SkipBlanks(c, off + 1);
      if c[i] == RBRACE then Ok(Object([]), i + 1)
      else
        match ParseMembersSpec(c, i, depth + 1)
        case Fail(at) => Fail(at)
        case Ok(members, next) => Ok(Object(members), next)
  }

  /** One `"key" : value`. */
  function ParseMemberSpec(c: seq<byte>, i: nat, depth: nat): (r: Parsed<Member>)
    requires i < |c| && Terminated(c)
    ensures r.Ok? ==> i < r.offset < |c|
    decreases |c| - i, 2
  {
    match ParseStringSpec(c, i)
    case Fail(at) => Fail(at)
    case Ok(key, next) =>
      var j := SkipBlanks(c, next);
      if c[j] != COLON then Fail(j)
      else
        match ParseValueSpec(c, SkipBlanks(c, j + 1), depth)
        case Fail(at) => Fail(at)
        case Ok(value, end) => Ok(Member(Chars(key), value), end)
  }

  function ParseMembersSpec(c: seq<byte>, i: nat, depth: nat): (r: Parsed<seq<Member>>)
    requires i < |c| && Terminated(c)
    ensures r.Ok? ==> i < r.offset < |c|
    decreases |c| - i, 3
  {
    match ParseMemberSpec(c, i, depth)
    case Fail(at) => Fail(at)
    case Ok(member, next) =>
      var j := SkipBlanks(c, next);
      if c[j] == COMMA then PrependTo([member], ParseMembersSpec(c, SkipBlanks(c, j + 1), depth))
      else if c[j] == RBRACE then Ok([member], j + 1)
      else Fail(j)
  }

  ghost predicate MembersFrom(c: seq<byte>, i: nat, depth: nat, done: seq<Member>, r: Parsed<seq<Member>>)
    requires i < |c| && Terminated(c)
  {
    r == PrependTo(done, ParseMembersSpec(c, i, depth))
  }

  lemma {:induction false} MembersStart(c: seq<byte>, i: nat, depth: nat)
    requires i < |c| && Terminated(c)
    ensures MembersFrom(c, i, depth, [], ParseMembersSpec(c, i, depth))
  {
    PrependNothing(ParseMembersSpec(c, i, depth));
  }

  lemma {:induction false} MembersStep(c: seq<byte>, i: nat, depth: nat, done: seq<Member>, r: Parsed<seq<Member>>)
    requires i < |c| && Terminated(c) && MembersFrom(c, i, depth, done, r)
    ensures match ParseMemberSpec(c, i, depth)
            case Fail(at) => r == Fail(at)
            case Ok(member, next) =>
              var j := SkipBlanks(c, next);
              if c[j] == COMMA then MembersFrom(c, SkipBlanks(c, j + 1), depth, done + [member], r)
              else r == if c[j] == RBRACE then Ok(done + [member], j + 1) else Fail(j)
  {
    hide ParseMemberSpec, SkipBlanks;
    if ParseMemberSpec(c, i, depth).Ok? {
      var j := SkipBlanks(c, ParseMemberSpec(c, i, depth).offset);
      if c[j] == COMMA {
        PrependAgain(done, [ParseMemberSpec(c, i, depth).value], ParseMembersSpec(c, SkipBlanks(c, j + 1), depth));
      }
    }
  }

  // ---------------------------------------------------------------- whole documents

  const BOM: seq<byte> := [0xEF, 0xBB, 0xBF]

  function SkipBom(c: seq<byte>): (i: nat)
    requires Terminated(c)
    ensures i < |c|
  {
    if 4 < |c| && At(c, 0, BOM) then 3 else 0
  }

  /** `cJSON_ParseWithOpts` on the buffer of a C string: the tree and `return_parse_end`. */
  function ParseDocument(c: seq<byte>, requireNul: bool): (r: Parsed<Json>)
    requires Terminated(c)
    ensures r.Ok? ==> r.offset < |c|
  {
    match ParseValueSpec(c, SkipBlanks(c, SkipBom(c)), 0)
    case Fail(at) => Fail(if at < |c| then at else |c| - 1)
    case Ok(t, next) =>
      if requireNul then
        var i := SkipBlanks(c, next);
        if c[i] == NUL then Ok(t, i) else Fail(i)
      else Ok(t, next)
  }
}
