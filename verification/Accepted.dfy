/**
 What the parser makes of texts that it accepts: trees that it would accept again when printed.
 */
module Accepted {
  import opened Bytes
  import opened StringLiteral
  import opened JsonTree
  import opened ParseSpec
  import opened Rendering
  import GrammarParse
  import RoundTrip

  /** The tree fits what is left of the nesting limit, and has no NULL string. */
  predicate Fits(t: Json, depth: nat) {
    depth + Nesting(t) <= NESTING_LIMIT && NoNulls(t)
  }

  predicate ItemsFit(items: seq<Json>, depth: nat) {
    depth + ItemsNesting(items) <= NESTING_LIMIT && forall k :: 0 <= k < |items| ==> NoNulls(items[k])
  }

  predicate MembersFit(members: seq<Member>, depth: nat) {
    && depth + MembersNesting(members) <= NESTING_LIMIT
    && forall k :: 0 <= k < |members| ==> members[k].key.Chars? && NoNulls(members[k].value)
  }

  lemma {:induction false} ItemFits(item: Json, rest: seq<Json>, depth: nat)
    requires Fits(item, depth) && ItemsFit(rest, depth)
    ensures ItemsFit([item] + rest, depth)
  {
    hide Nesting, NoNulls;
    assert ([item] + rest)[1..] == rest;
  }

  lemma {:induction false} MemberFits(m: Member, rest: seq<Member>, depth: nat)
    requires m.key.Chars? && Fits(m.value, depth) && MembersFit(rest, depth)
    ensures MembersFit([m] + rest, depth)
  {
    hide Nesting, NoNulls;
    assert ([m] + rest)[1..] == rest;
  }

  /** Whatever the text, what is accepted fits. */
  lemma {:induction false} AcceptedFits(c: seq<byte>, off: nat, depth: nat)
    requires off < |c| && Terminated(c) && depth <= NESTING_LIMIT && ParseValueSpec(c, off, depth).Ok?
    ensures Fits(ParseValueSpec(c, off, depth).value, depth)
    decreases |c| - off, 1
  {
    hide ParseStringSpec, ParseNumberSpec, ParseItemsSpec, ParseMembersSpec, At, SkipBlanks;
    if ParseValueSpec(c, off, depth).value.Number? {
    } else if c[off] == LBRACKET {
      NoKeyword(c, off);
      var i := SkipBlanks(c, off + 1);
      if c[i] != RBRACKET {
        AcceptedItemsFit(c, i, depth + 1);
      }
    } else if c[off] == LBRACE {
      NoKeyword(c, off);
      var i := SkipBlanks(c, off + 1);
      if c[i] != RBRACE {
        AcceptedMembersFit(c, i, depth + 1);
      }
    } else {
      NumberIsNumber(c, off);
    }
  }

  lemma NoKeyword(c: seq<byte>, off: nat)
    requires off < |c| && (c[off] == LBRACKET || c[off] == LBRACE)
    ensures !At(c, off, NULL_TEXT) && !At(c, off, FALSE_TEXT) && !At(c, off, TRUE_TEXT)
  {
    GrammarParse.KeywordsApart(c, off);
  }

  lemma NumberIsNumber(c: seq<byte>, off: nat)
    requires off < |c| && Terminated(c)
    ensures ParseNumberSpec(c, off).Ok? ==> ParseNumberSpec(c, off).value.Number?
  {
  }

  lemma {:induction false} AcceptedItemsFit(c: seq<byte>, i: nat, depth: nat)
    requires i < |c| && Terminated(c) && depth <= NESTING_LIMIT && ParseItemsSpec(c, i, depth).Ok?
    ensures ItemsFit(ParseItemsSpec(c, i, depth).value, depth)
    decreases |c| - i, 2
  {
    hide ParseValueSpec, SkipBlanks, Fits, ItemsFit;
    AcceptedFits(c, i, depth);
    var item, j := ParseValueSpec(c, i, depth).value, SkipBlanks(c, ParseValueSpec(c, i, depth).offset);
    NoItemsFit(depth);
    ItemFits(item, [], depth);
    assert [item] + [] == [item];
    if c[j] == COMMA {
      var next := SkipBlanks(c, j + 1);
      AcceptedItemsFit(c, next, depth);
      ItemFits(item, ParseItemsSpec(c, next, depth).value, depth);
    }
  }

  lemma NoItemsFit(depth: nat)
    requires depth <= NESTING_LIMIT
    ensures ItemsFit([], depth) && MembersFit([], depth)
  {
  }

  lemma {:induction false} AcceptedMembersFit(c: seq<byte>, i: nat, depth: nat)
    requires i < |c| && Terminated(c) && depth <= NESTING_LIMIT && ParseMembersSpec(c, i, depth).Ok?
    ensures MembersFit(ParseMembersSpec(c, i, depth).value, depth)
    decreases |c| - i, 4
  {
    hide ParseMemberSpec, SkipBlanks, Fits, MembersFit;
    AcceptedMemberFits(c, i, depth);
    var m, j := ParseMemberSpec(c, i, depth).value, SkipBlanks(c, ParseMemberSpec(c, i, depth).offset);
    NoItemsFit(depth);
    MemberFits(m, [], depth);
    assert [m] + [] == [m];
    if c[j] == COMMA {
      var next := SkipBlanks(c, j + 1);
      AcceptedMembersFit(c, next, depth);
      MemberFits(m, ParseMembersSpec(c, next, depth).value, depth);
    }
  }

  lemma {:induction false} AcceptedMemberFits(c: seq<byte>, i: nat, depth: nat)
    requires i < |c| && Terminated(c) && depth <= NESTING_LIMIT && ParseMemberSpec(c, i, depth).Ok?
    ensures var m := ParseMemberSpec(c, i, depth).value; m.key.Chars? && Fits(m.value, depth)
    decreases |c| - i, 3
  {
    hide ParseValueSpec, ParseStringSpec, SkipBlanks, Fits;
    var j := SkipBlanks(c, ParseStringSpec(c, i).offset);
    AcceptedFits(c, SkipBlanks(c, j + 1), depth);
  }

  /** Printing the tree of any accepted text, in either format, and parsing that again gives the same tree. */
  lemma {:induction false} ReprintedTextParses(c: seq<byte>, requireNul: bool, format: bool, requireNul': bool)
    requires Terminated(c) && ParseDocument(c, requireNul).Ok? && Int32Numbers(ParseDocument(c, requireNul).value)
    ensures var t := ParseDocument(c, requireNul).value;
            ParseDocument(Render(t, format, 0) + [NUL], requireNul') == Ok(t, |Render(t, format, 0)|)
  {
    hide ParseValueSpec, SkipBlanks, Render, Nesting, NoNulls, FillNulls, Int32Numbers;
    AcceptedFits(c, SkipBlanks(c, SkipBom(c)), 0);
    RoundTrip.ParseUndoesPrint(ParseDocument(c, requireNul).value, format, requireNul');
  }
}
