/**
 The recursive-descent parser of cJSON.c: methods that move `offset` and `depth` over a
 NUL-terminated buffer and fill items. What they allocate and free is accounted for in an `Allocator`.
 */
module ParseBuffer {
  import opened Bytes
  import opened StringLiteral
  import opened StringParser
  import opened JsonTree
  import opened ParseSpec
  import opened SiblingList
  import opened HeapTree
  import opened TreeBuilding
  import opened Allocation
  import opened Delete
  import opened ParsedTree
  import Decimal

  class Buffer {
    const content: seq<byte>
    var offset: nat
    var depth: nat

    ghost predicate Valid()
      reads this
    {
      Terminated(content) && offset < |content| && depth <= NESTING_LIMIT
    }

    constructor (value: seq<byte>)
      requires Terminated(value)
      ensures Valid() && content == value && offset == 0 && depth == 0
    {
      content, offset, depth := value, 0, 0;
    }

    /** The state that `r` describes, as every parsing method leaves it. */
    ghost predicate Reached<T>(r: Parsed<T>, ok: bool, startDepth: nat)
      reads this
    {
      && ok == r.Ok?
      && offset == r.offset
      && (ok ==> Valid() && depth == startDepth)
      && depth <= NESTING_LIMIT
    }

    method SkipWhitespace()
      requires Valid()
      modifies this`offset
      ensures Valid() && offset == SkipBlanks(content, old(offset))
    {
      while offset < |content| && content[offset] <= 32
        invariant old(offset) <= offset <= |content|
        invariant BlanksEnd(content, offset) == BlanksEnd(content, old(offset))
        decreases |content| - offset
      {
        offset := offset + 1;
      }
      if offset == |content| {
        offset := offset - 1;
      }
    }

    method SkipUtf8Bom()
      requires Valid() && offset == 0
      modifies this`offset
      ensures Valid() && offset == SkipBom(content)
    {
      if offset + 4 < |content| && content[offset..offset + 3] == BOM {
        offset := offset + 3;
      }
    }

    method ParseString(item: Node, heap: Allocator) returns (ok: bool)
      requires Valid() && item.valuestring == null
      modifies this`offset, heap, item`kind, item`valuestring
      ensures Reached(ParseStringSpec(content, old(offset)), ok, depth)
      ensures ok ==>
                && item.kind == KString && item.valuestring != null && fresh(item.valuestring)
                && item.valuestring.text == ParseStringSpec(content, old(offset)).value
                && heap.live == old(heap.live) + {item.valuestring}
      ensures !ok ==> item.valuestring == null && heap.live == old(heap.live)
    {
      hide Decode, ClosingQuote, Aligned, Skipped, UpToNul;
      var start := offset + 1;
      if content[offset] != QUOTE {
        offset := start;
        return false;
      }
      var found, end, skipped := ScanLiteral(content, start);
      if !found {
        offset := start;
        return false;
      }
      var p, output, length;
      ok, p, output, length := DecodeLiteral(content, start, end, skipped, heap);
      if !ok {
        offset := p;
        return;
      }
      item.kind := KString;
      item.valuestring := heap.ToString(output, length);
      offset := end + 1;
    }

    /** The copying loop of `parse_number`: at most 63 characters and a NUL into 64 bytes. */
    method CopyNumber(number: array<byte>) returns (i: nat)
      requires Valid() && number.Length == 64
      modifies number
      ensures offset + i == NumberEnd(content, offset) && number[..i] == content[offset..offset + i]
      ensures i < 64 && number[i] == NUL
    {
      hide Decimal.IsNumberChar, NumberCharsEnd;
      i := 0;
      while i < 63 && offset + i < |content| && Decimal.IsNumberChar(content[offset + i])
        invariant i <= 63 && offset + i <= |content|
        invariant forall k :: offset <= k < offset + i ==> Decimal.IsNumberChar(content[k])
        invariant forall k :: 0 <= k < i ==> number[k] == content[offset + k]
      {
        number[i] := content[offset + i];
        i := i + 1;
      }
      number[i] := NUL;
      NumberCharsEndAt(content, offset, offset + i, if offset + 63 < |content| then offset + 63 else |content|);
      assert number[..][..i] == number[..i];
      SameSlice(number[..], content, offset, i);
    }

    method ParseNumber(item: Node) returns (ok: bool)
      requires Valid()
      modifies this`offset, item`kind, item`valuedouble
      ensures Reached(ParseNumberSpec(content, old(offset)), ok, depth)
      ensures ok ==> item.kind == KNumber && Number(item.valuedouble) == ParseNumberSpec(content, old(offset)).value
    {
      hide Decimal.Strtod, NumberEnd;
      var number := new byte[64];
      var i := CopyNumber(number);
      var (d, length) := Decimal.Strtod(number[..i]);
      if length == 0 {
        return false;
      }
      item.valuedouble := d;
      item.kind := KNumber;
      offset := offset + length;
      return true;
    }

    /**
     `parse_value` on an item with no value yet. On success the item is the root of a tree for the value; all
     nodes below it and all blocks the tree has gained are new. On failure nothing new is left allocated.
     */
    method ParseValue(item: Node, heap: Allocator)
      returns (ok: bool, ghost h: Shape, ghost made: set<Node>, ghost gained: set<object>)
      requires Valid() && Blank(item)
      modifies this, heap, item`kind, item`child, item`valuestring, item`valuedouble
      ensures Reached(ParseValueSpec(content, old(offset), old(depth)), ok, old(depth))
      ensures ok ==> Holds(item, h, made, gained, ParseValueSpec(content, old(offset), old(depth)).value)
      ensures ok ==> fresh(made) && fresh(gained) && heap.live == old(heap.live) + gained
      ensures !ok ==> Blank(item) && heap.live == old(heap.live)
      decreases |content| - offset, 3
    {
      hide Holds, ParseArraySpec, ParseObjectSpec, ParseStringSpec, ParseNumberSpec;
      h, made, gained := Shape(item, []), {}, {};
      if At(content, offset, NULL_TEXT) {
        LiteralEnds(content, offset, NULL_TEXT);
        item.kind := KNull;
        offset := offset + 4;
        ok := true;
      } else if At(content, offset, FALSE_TEXT) {
        LiteralEnds(content, offset, FALSE_TEXT);
        item.kind := KFalse;
        offset := offset + 5;
        ok := true;
      } else if At(content, offset, TRUE_TEXT) {
        LiteralEnds(content, offset, TRUE_TEXT);
        item.kind := KTrue;
        offset := offset + 4;
        ok := true;
      } else if content[offset] == QUOTE {
        ok := ParseString(item, heap);
        gained := ValueBlocks(item);
      } else if content[offset] == MINUS || ZERO <= content[offset] <= NINE {
        ok := ParseNumber(item);
      } else if content[offset] == LBRACKET {
        ok, h, made, gained := ParseArray(item, heap);
        return;
      } else if content[offset] == LBRACE {
        ok, h, made, gained := ParseObject(item, heap);
        return;
      } else {
        return false, h, made, gained;
      }
      LeafHolds(item);
    }

    method ParseArray(item: Node, heap: Allocator)
      returns (ok: bool, ghost h: Shape, ghost made: set<Node>, ghost gained: set<object>)
      requires Valid() && content[offset] == LBRACKET && Blank(item)
      modifies this, heap, item`kind, item`child
      ensures Reached(ParseArraySpec(content, old(offset), old(depth)), ok, old(depth))
      ensures ok ==> Holds(item, h, made, gained, ParseArraySpec(content, old(offset), old(depth)).value)
      ensures ok ==> fresh(made) && fresh(gained) && heap.live == old(heap.live) + gained
      ensures !ok ==> Blank(item) && heap.live == old(heap.live)
      decreases |content| - offset, 2
    {
      hide ParseItemsSpec, ParseValueSpec, BlanksEnd, SkipBlanks, Grown, Holds, StartsList, Owned, OwnedOnce, NodesOf,
           Values, MemberValues;
      h, made, gained := Shape(item, []), {}, {};
      if depth >= NESTING_LIMIT {
        return false, h, made, gained;
      }
      depth := depth + 1;
      offset := offset + 1;
      SkipWhitespace();
      var head, last: Node? := null, null;
      ghost var hs: seq<Shape> := [];
      NoneGrown();
      if content[offset] != RBRACKET {
        SkipBlanksStops(content, old(offset) + 1);
        offset := offset - 1;
        ok, head, last, hs, made, gained := ParseItemsOrNone(heap);
        if !ok {
          return;
        }
      }
      h := Shape(item, hs);
      Close(item, KArray, head, last, hs, made, gained);
      ok := true;
    }

    /** The success part of `parse_array` and `parse_object`, at the closing bracket. */
    method Close(item: Node, kind: Kind, head: Node?, last: Node?,
                 ghost hs: seq<Shape>, ghost made: set<Node>, ghost gained: set<object>)
      requires Valid() && depth > 0 && offset + 1 < |content|
      requires Grown(head, last, hs, made, gained) && item !in made && Blank(item) && kind in {KArray, KObject}
      modifies this`offset, this`depth, The(head)`prev, item`kind, item`child
      ensures Valid() && offset == old(offset) + 1 && depth == old(depth) - 1
      ensures Holds(item, Shape(item, hs), made, gained,
                    if kind == KArray then Array(old(Values(hs))) else Object(old(MemberValues(hs))))
    {
      hide Grown, Holds, Values, MemberValues;
      depth := depth - 1;
      Adopt(item, kind, head, last, hs, made, gained);
      offset := offset + 1;
    }

    /** The loop of `parse_array`, with the list it has built deleted if it fails. */
    method ParseItemsOrNone(heap: Allocator)
      returns (ok: bool, head: Node?, last: Node?, ghost hs: seq<Shape>, ghost made: set<Node>,
               ghost gained: set<object>)
      requires Valid() && offset + 1 < |content|
      modifies this, heap
      ensures depth <= NESTING_LIMIT
      ensures var r := ParseItemsSpec(content, SkipBlanks(content, old(offset) + 1), old(depth));
              && ok == r.Ok?
              && (ok ==> Valid() && depth == old(depth) && offset + 1 == r.offset)
              && (ok ==> Grown(head, last, hs, made, gained) && Values(hs) == r.value)
              && (ok && head != null ==> head in made)
              && (!ok ==> offset == r.offset)
      ensures fresh(made) && fresh(gained)
      ensures heap.live == old(heap.live) + if ok then gained else {}
      decreases |content| - offset, 1
    {
      hide ParseItemsSpec, SkipBlanks, Grown, StartsList, Owned, OwnedOnce, NodesOf, Values;
      ok, head, last, hs, made, gained := ParseItems(heap);
      if !ok {
        CJSONDelete(head, hs, heap, made);
      }
    }

    /** The loop of `parse_array`; it starts one byte before the first value and stops at the bracket. */
    method ParseItems(heap: Allocator)
      returns (ok: bool, head: Node?, last: Node?, ghost hs: seq<Shape>, ghost made: set<Node>,
               ghost gained: set<object>)
      requires Valid() && offset + 1 < |content|
      modifies this, heap
      ensures depth <= NESTING_LIMIT
      ensures var r := ParseItemsSpec(content, SkipBlanks(content, old(offset) + 1), old(depth));
              && ok == r.Ok?
              && (ok ==> Valid() && depth == old(depth) && offset + 1 == r.offset)
              && (ok ==> Grown(head, last, hs, made, gained) && Values(hs) == r.value)
              && (ok && head != null ==> head in made)
              && (!ok ==> offset == r.offset)
      ensures !ok ==> StartsList(head, hs) && OwnedOnce(hs) && Owned(hs) == gained
      ensures NodesOf(hs) == made
      ensures fresh(made) && fresh(gained) && heap.live == old(heap.live) + gained
      decreases |content| - offset, 0
    {
      hide ParseItemsSpec, ItemsFrom, ParseValueSpec, ParseMemberSpec, BlanksEnd, SkipBlanks, Grown, Growing, Holds,
           Pending, StartsList, Owned, OwnedOnce, NodesOf, Values, MemberValues;
      head, last, hs, made, gained := null, null, [], {}, {};
      NoneGrown();
      ghost var r := ParseItemsSpec(content, SkipBlanks(content, offset + 1), depth);
      ItemsStart(content, SkipBlanks(content, offset + 1), depth);
      ghost var items := Values(hs);
      var more := true;
      while more
        invariant Valid() && depth == old(depth) && old(offset) <= offset
        invariant more ==> offset + 1 < |content|
        invariant more ==> ItemsFrom(content, SkipBlanks(content, offset + 1), depth, items, r)
        invariant !more ==> content[offset] != COMMA
        invariant !more ==> r == if content[offset] == RBRACKET then Ok(items, offset + 1) else Fail(offset)
        invariant items == Values(hs)
        invariant NodesOf(hs) == made && Grown(head, last, hs, made, gained) && (last != null ==> last in made)
                  && (head != null ==> head in made)
        invariant fresh(made) && fresh(gained) && heap.live == old(heap.live) + gained
        decreases |content| - offset
      {
        ItemsStep(content, SkipBlanks(content, offset + 1), depth, items, r);
        ghost var v := ParseValueSpec(content, SkipBlanks(content, offset + 1), depth);
        ok, head, last, hs, made, gained := ParseItem(heap, head, last, hs, made, gained);
        if !ok {
          return;
        }
        items := items + [v.value];
        SkipWhitespace();
        more := content[offset] == COMMA;
      }
      ok := content[offset] == RBRACKET;
      GrownStarts(head, last, hs, made, gained);
    }

    /** One round of the loop of `parse_array`: a new item is hung on the list and gets its value. */
    method ParseItem(heap: Allocator, head: Node?, last: Node?, ghost hs: seq<Shape>, ghost made: set<Node>,
                     ghost gained: set<object>)
      returns (ok: bool, head': Node?, item: Node, ghost hs': seq<Shape>, ghost made': set<Node>,
               ghost gained': set<object>)
      requires Valid() && offset + 1 < |content| && Grown(head, last, hs, made, gained)
      modifies this, heap, The(last)`next
      ensures Reached(ParseValueSpec(content, SkipBlanks(content, old(offset) + 1), old(depth)), ok, old(depth))
      ensures ok ==>
                && Grown(head', item, hs', made', gained') && item in made'
                  && head' == (if head == null then item else head)
                && Values(hs') == old(Values(hs))
                  + [ParseValueSpec(content, SkipBlanks(content, old(offset) + 1), old(depth)).value]
      ensures !ok ==> StartsList(head', hs') && OwnedOnce(hs') && Owned(hs') == gained'
      ensures NodesOf(hs') == made'
      ensures made <= made' && gained <= gained' && fresh(made' - made) && fresh(gained' - gained)
      ensures heap.live == old(heap.live) + (gained' - gained)
      decreases |content| - offset - 1, 6
    {
      hide ParseValueSpec, ParseMemberSpec, SkipBlanks, Blank, Grown, Holds, Pending, StartsList, Owned, OwnedOnce,
           NodesOf, Values, MemberValues, NameBlocks, Plain;
      item := NewLast(last, heap, head, hs, made, gained);
      head' := if head == null then item else head;
      PendingApart(head', item, hs, made, gained);
      ok, hs', made', gained' := FillItem(heap, head', item, hs, made, gained);
    }

    /** The same when the item has been hung on: it gets its value. */
    method FillItem(heap: Allocator, ghost head: Node, item: Node, ghost hs: seq<Shape>, ghost made: set<Node>,
                    ghost gained: set<object>)
      returns (ok: bool, ghost hs': seq<Shape>, ghost made': set<Node>, ghost gained': set<object>)
      requires Valid() && offset + 1 < |content| && Pending(head, item, hs, made, gained)
      requires Blank(item) && item.name == null && item !in gained && item !in made
      modifies this, heap, item`kind, item`child, item`valuestring, item`valuedouble
      ensures Reached(ParseValueSpec(content, SkipBlanks(content, old(offset) + 1), old(depth)), ok, old(depth))
      ensures ok ==>
                && Grown(head, item, hs', made', gained')
                && Values(hs') == old(Values(hs))
                  + [ParseValueSpec(content, SkipBlanks(content, old(offset) + 1), old(depth)).value]
      ensures !ok ==> StartsList(head, hs') && OwnedOnce(hs') && Owned(hs') == gained'
      ensures NodesOf(hs') == made' && made + {item} <= made' && fresh(made' - made - {item})
      ensures gained + {item} <= gained' && fresh(gained' - gained - {item})
      ensures heap.live == old(heap.live) + (gained' - gained - {item})
      decreases |content| - offset - 1, 5
    {
      hide ParseValueSpec, ParseMemberSpec, SkipBlanks, Blank, Grown, Holds, Pending, StartsList, Owned, OwnedOnce,
           NodesOf, Values, MemberValues;
      PendingApart(head, item, hs, made, gained);
      offset := offset + 1;
      SkipWhitespace();
      ghost var v := ParseValueSpec(content, offset, depth);
      ghost var h, below, gain;
      ok, h, below, gain := ParseValue(item, heap);
      if ok {
        Completed(head, item, hs, made, gained, h, below, gain, v.value);
        hs', made', gained' := hs + [h], made + {item} + below, gained + {item} + NameBlocks(item) + gain;
      } else {
        PendingStarts(head, item, hs, made, gained);
        hs', made', gained' := hs + [Shape(item, [])], made + {item}, gained + {item} + NameBlocks(item);
      }
    }

    method ParseObject(item: Node, heap: Allocator)
      returns (ok: bool, ghost h: Shape, ghost made: set<Node>, ghost gained: set<object>)
      requires Valid() && content[offset] == LBRACE && Blank(item)
      modifies this, heap, item`kind, item`child
      ensures Reached(ParseObjectSpec(content, old(offset), old(depth)), ok, old(depth))
      ensures ok ==> Holds(item, h, made, gained, ParseObjectSpec(content, old(offset), old(depth)).value)
      ensures ok ==> fresh(made) && fresh(gained) && heap.live == old(heap.live) + gained
      ensures !ok ==> Blank(item) && heap.live == old(heap.live)
      decreases |content| - offset, 2
    {
      hide ParseMembersSpec, ParseValueSpec, BlanksEnd, SkipBlanks, Grown, Holds, StartsList, Owned, OwnedOnce,
           NodesOf, Values, MemberValues;
      h, made, gained := Shape(item, []), {}, {};
      if depth >= NESTING_LIMIT {
        return false, h, made, gained;
      }
      depth := depth + 1;
      offset := offset + 1;
      SkipWhitespace();
      var head, last: Node? := null, null;
      ghost var hs: seq<Shape> := [];
      NoneGrown();
      if content[offset] != RBRACE {
        SkipBlanksStops(content, old(offset) + 1);
        offset := offset - 1;
        ok, head, last, hs, made, gained := ParseMembersOrNone(heap);
        if !ok {
          return;
        }
      }
      h := Shape(item, hs);
      Close(item, KObject, head, last, hs, made, gained);
      ok := true;
    }

    /** The loop of `parse_object`, with the list it has built deleted if it fails. */
    method ParseMembersOrNone(heap: Allocator)
      returns (ok: bool, head: Node?, last: Node?, ghost hs: seq<Shape>, ghost made: set<Node>,
               ghost gained: set<object>)
      requires Valid() && offset + 1 < |content|
      modifies this, heap
      ensures depth <= NESTING_LIMIT
      ensures var r := ParseMembersSpec(content, SkipBlanks(content, old(offset) + 1), old(depth));
              && ok == r.Ok?
              && (ok ==> Valid() && depth == old(depth) && offset + 1 == r.offset)
              && (ok ==> Grown(head, last, hs, made, gained) && MemberValues(hs) == r.value)
              && (ok && head != null ==> head in made)
              && (!ok ==> offset == r.offset)
      ensures fresh(made) && fresh(gained)
      ensures heap.live == old(heap.live) + if ok then gained else {}
      decreases |content| - offset, 1
    {
      hide ParseMembersSpec, SkipBlanks, Grown, StartsList, Owned, OwnedOnce, NodesOf, MemberValues;
      ok, head, last, hs, made, gained := ParseMembers(heap);
      if !ok {
        CJSONDelete(head, hs, heap, made);
      }
    }

    /** The loop of `parse_object`; it starts one byte before the first key and stops at the brace. */
    method ParseMembers(heap: Allocator)
      returns (ok: bool, head: Node?, last: Node?, ghost hs: seq<Shape>, ghost made: set<Node>,
               ghost gained: set<object>)
      requires Valid() && offset + 1 < |content|
      modifies this, heap
      ensures depth <= NESTING_LIMIT
      ensures var r := ParseMembersSpec(content, SkipBlanks(content, old(offset) + 1), old(depth));
              && ok == r.Ok?
              && (ok ==> Valid() && depth == old(depth) && offset + 1 == r.offset)
              && (ok ==> Grown(head, last, hs, made, gained) && MemberValues(hs) == r.value)
              && (ok && head != null ==> head in made)
              && (!ok ==> offset == r.offset)
      ensures !ok ==> StartsList(head, hs) && OwnedOnce(hs) && Owned(hs) == gained
      ensures NodesOf(hs) == made
      ensures fresh(made) && fresh(gained) && heap.live == old(heap.live) + gained
      decreases |content| - offset, 0
    {
      hide ParseMembersSpec, MembersFrom, ParseValueSpec, ParseMemberSpec, BlanksEnd, SkipBlanks, Grown, Growing,
           Holds, Pending, StartsList, Owned, OwnedOnce, NodesOf, Values, MemberValues;
      head, last, hs, made, gained := null, null, [], {}, {};
      NoneGrown();
      ghost var r := ParseMembersSpec(content, SkipBlanks(content, offset + 1), depth);
      MembersStart(content, SkipBlanks(content, offset + 1), depth);
      ghost var members := MemberValues(hs);
      var more := true;
      while more
        invariant Valid() && depth == old(depth) && old(offset) <= offset
        invariant more ==> offset + 1 < |content|
        invariant more ==> MembersFrom(content, SkipBlanks(content, offset + 1), depth, members, r)
        invariant !more ==> content[offset] != COMMA
        invariant !more ==> r == if content[offset] == RBRACE then Ok(members, offset + 1) else Fail(offset)
        invariant members == MemberValues(hs)
        invariant NodesOf(hs) == made && Grown(head, last, hs, made, gained) && (last != null ==> last in made)
                  && (head != null ==> head in made)
        invariant fresh(made) && fresh(gained) && heap.live == old(heap.live) + gained
        decreases |content| - offset
      {
        MembersStep(content, SkipBlanks(content, offset + 1), depth, members, r);
        ghost var v := ParseMemberSpec(content, SkipBlanks(content, offset + 1), depth);
        ok, head, last, hs, made, gained := ParseNamedItem(heap, head, last, hs, made, gained);
        if !ok {
          return;
        }
        members := members + [v.value];
        SkipWhitespace();
        more := content[offset] == COMMA;
      }
      ok := content[offset] == RBRACE;
      GrownStarts(head, last, hs, made, gained);
    }

    /** One round of the loop of `parse_object`: a new item is hung on the list and gets its value. */
    method ParseNamedItem(heap: Allocator, head: Node?, last: Node?, ghost hs: seq<Shape>, ghost made: set<Node>,
                          ghost gained: set<object>)
      returns (ok: bool, head': Node?, item: Node, ghost hs': seq<Shape>, ghost made': set<Node>,
               ghost gained': set<object>)
      requires Valid() && offset + 1 < |content| && Grown(head, last, hs, made, gained)
      modifies this, heap, The(last)`next
      ensures Reached(ParseMemberSpec(content, SkipBlanks(content, old(offset) + 1), old(depth)), ok, old(depth))
      ensures ok ==>
                && Grown(head', item, hs', made', gained') && item in made'
                  && head' == (if head == null then item else head)
                && MemberValues(hs') == old(MemberValues(hs))
                  + [ParseMemberSpec(content, SkipBlanks(content, old(offset) + 1), old(depth)).value]
      ensures !ok ==> StartsList(head', hs') && OwnedOnce(hs') && Owned(hs') == gained'
      ensures NodesOf(hs') == made'
      ensures made <= made' && gained <= gained' && fresh(made' - made) && fresh(gained' - gained)
      ensures heap.live == old(heap.live) + (gained' - gained)
      decreases |content| - offset - 1, 6
    {
      hide ParseValueSpec, ParseMemberSpec, SkipBlanks, Blank, Grown, Holds, Pending, StartsList, Owned, OwnedOnce,
           NodesOf, Values, MemberValues, NameBlocks, Plain;
      item := NewLast(last, heap, head, hs, made, gained);
      head' := if head == null then item else head;
      PendingApart(head', item, hs, made, gained);
      ok, hs', made', gained' := FillNamedItem(heap, head', item, hs, made, gained);
    }

    /** The same when the item has been hung on: it gets its value. */
    method FillNamedItem(heap: Allocator, ghost head: Node, item: Node, ghost hs: seq<Shape>, ghost made: set<Node>,
                         ghost gained: set<object>)
      returns (ok: bool, ghost hs': seq<Shape>, ghost made': set<Node>, ghost gained': set<object>)
      requires Valid() && offset + 1 < |content| && Pending(head, item, hs, made, gained)
      requires Blank(item) && item.name == null && item !in gained && item !in made
      modifies this, heap, item`kind, item`child, item`valuestring, item`valuedouble, item`name
      ensures Reached(ParseMemberSpec(content, SkipBlanks(content, old(offset) + 1), old(depth)), ok, old(depth))
      ensures ok ==>
                && Grown(head, item, hs', made', gained')
                && MemberValues(hs') == old(MemberValues(hs))
                  + [ParseMemberSpec(content, SkipBlanks(content, old(offset) + 1), old(depth)).value]
      ensures !ok ==> StartsList(head, hs') && OwnedOnce(hs') && Owned(hs') == gained'
      ensures NodesOf(hs') == made' && made + {item} <= made' && fresh(made' - made - {item})
      ensures gained + {item} <= gained' && fresh(gained' - gained - {item})
      ensures heap.live == old(heap.live) + (gained' - gained - {item})
      decreases |content| - offset - 1, 5
    {
      hide ParseValueSpec, ParseMemberSpec, SkipBlanks, Blank, Grown, Holds, Pending, StartsList, Owned, OwnedOnce,
           NodesOf, Values, MemberValues, NameBlocks;
      PendingApart(head, item, hs, made, gained);
      offset := offset + 1;
      SkipWhitespace();
      ghost var v := ParseMemberSpec(content, offset, depth);
      ghost var h, below, gain;
      ok, h, below, gain := ParseMember(item, heap);
      if ok {
        Completed(head, item, hs, made, gained, h, below, gain, v.value.value);
        hs', made', gained' := hs + [h], made + {item} + below, gained + {item} + NameBlocks(item) + gain;
      } else {
        PendingStarts(head, item, hs, made, gained);
        hs', made', gained' := hs + [Shape(item, [])], made + {item}, gained + {item} + NameBlocks(item);
      }
    }

    /** The part of the loop of `parse_object` that reads a key, the colon and the value. */
    method ParseMember(item: Node, heap: Allocator)
      returns (ok: bool, ghost h: Shape, ghost made: set<Node>, ghost gained: set<object>)
      requires Valid() && Blank(item) && item.name == null
      modifies this, heap, item`kind, item`child, item`valuestring, item`valuedouble, item`name
      ensures Reached(ParseMemberSpec(content, old(offset), old(depth)), ok, old(depth))
      ensures ok ==>
                var m := ParseMemberSpec(content, old(offset), old(depth)).value;
                Holds(item, h, made, gained, m.value) && TextOf(item.name) == m.key
      ensures ok ==> fresh(made) && fresh(gained) && heap.live == old(heap.live) + NameBlocks(item) + gained
      ensures !ok ==> Blank(item) && heap.live == old(heap.live) + NameBlocks(item)
      ensures fresh(NameBlocks(item)) && (ok ==> NameBlocks(item) !! gained)
      decreases |content| - offset, 4
    {
      hide ParseStringSpec, ParseValueSpec, BlanksEnd, Holds;
      h, made, gained := Shape(item, []), {}, {};
      ok := ParseString(item, heap);
      if !ok {
        return;
      }
      SkipWhitespace();
      item.name := item.valuestring;
      item.valuestring := null;
      if content[offset] != COLON {
        return false, h, made, gained;
      }
      offset := offset + 1;
      SkipWhitespace();
      ok, h, made, gained := ParseValue(item, heap);
    }

    /**
     The part of `cJSON_ParseWithOpts` that reads: byte order mark, blanks, the value and, if asked for, the end
     of the text. `parsed` says whether the item has got a value, which can be so even where the end is missing.
     */
    method ParseWhole(item: Node, requireNul: bool, heap: Allocator)
      returns (ok: bool, ghost parsed: bool, ghost h: Shape, ghost made: set<Node>, ghost gained: set<object>,
               ghost value: Json)
      requires Valid() && offset == 0 && depth == 0 && Blank(item)
      modifies this, heap, item`kind, item`child, item`valuestring, item`valuedouble
      ensures var r := ParseDocument(content, requireNul);
              && ok == r.Ok? && (ok ==> parsed && value == r.value)
              && r.offset == (if offset < |content| then offset else |content| - 1)
      ensures parsed ==>
                && Holds(item, h, made, gained, value) && fresh(made) && fresh(gained)
                && heap.live == old(heap.live) + gained
      ensures !parsed ==> Blank(item) && heap.live == old(heap.live)
      ensures !parsed ==> h == Shape(item, []) && made == {} && gained == {}
    {
      hide ParseValueSpec, SkipBlanks, Holds, Blank;
      SkipUtf8Bom();
      SkipWhitespace();
      ghost var v := ParseValueSpec(content, offset, 0);
      ok, h, made, gained := ParseValue(item, heap);
      parsed, value := v.Ok?, if v.Ok? then v.value else Null;
      if !parsed {
        h, made, gained := Shape(item, []), {}, {};
      }
      if ok && requireNul {
        SkipWhitespace();
        ok := content[offset] == NUL;
      }
    }
  }

  /**
   `cJSON_ParseWithOpts` on the buffer of a C string. `end` is `return_parse_end`, which on failure is also
   the position of the error. A parse that fails frees whatever it has allocated; one that succeeds
   leaves allocated the blocks of its tree, and nothing else.
   */
  method Parse(value: seq<byte>, requireNul: bool, heap: Allocator)
    returns (item: Node?, end: nat, ghost h: Shape, ghost made: set<Node>)
    requires Terminated(value)
    modifies heap
    ensures item != null <==> ParseDocument(value, requireNul).Ok?
    ensures item != null ==>
              && h.node == item && item.next == null && item.prev == null && item.name == null
              && Tree(h) && Disjoint(h) && Value(h) == ParseDocument(value, requireNul).value
              && made == Nodes(h) && fresh(made) && OwnedOnceBy(h) && fresh(OwnedBy(h))
              && heap.live == old(heap.live) + OwnedBy(h)
    ensures item == null ==> heap.live == old(heap.live)
    ensures end == ParseDocument(value, requireNul).offset < |value|
  {
    hide ParseDocument, Holds, OwnedBy, OwnedOnceBy, Tree, Disjoint, Value, Nodes, StartsList, Owned, OwnedOnce,
         NodesOf, NameBlocks, Blank;
    var buffer := new Buffer(value);
    item := heap.NewItem();
    NoValueYet(item);
    var ok;
    ghost var parsed, gained, v;
    ok, parsed, h, made, gained, v := buffer.ParseWhole(item, requireNul, heap);
    end := if buffer.offset < |value| then buffer.offset else |value| - 1;
    if ok {
      HoldsOwned(item, h, made, gained, v);
      made := made + {item};
    } else {
      RootStarts(item, parsed, h, made, gained, v);
      CJSONDelete(item, [h], heap, made + {item});
      item := null;
    }
  }

  lemma SameSlice(s: seq<byte>, c: seq<byte>, off: nat, n: nat)
    requires n <= |s| && off + n <= |c| && forall k :: 0 <= k < n ==> s[k] == c[off + k]
    ensures s[..n] == c[off..off + n]
  {
    forall k | 0 <= k < n ensures s[..n][k] == c[off..off + n][k] {
      assert s[k] == c[off + k];
    }
  }

  lemma NoValueYet(item: Node)
    requires item.child == null && Plain(item) && item.name == null
    ensures Blank(item) && NameBlocks(item) == {}
  {
  }
}
