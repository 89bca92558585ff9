/**
 Operations one after the other: a copy compares equal to its source, and so does what printing and
 parsing give back.
 */
module EndToEnd {
  import opened Bytes
  import opened JsonTree
  import opened SiblingList
  import opened HeapTree
  import opened CompareSpec
  import opened ParseSpec
  import opened Rendering
  import opened StringLiteral
  import Allocation
  import Delete
  import Duplicate
  import HeapCompare
  import ParseBuffer
  import ParsedTree
  import Printer
  import RoundTrip

  /**
   `cJSON_Duplicate` followed by `cJSON_Compare` of the two trees: they compare equal exactly when the
   source is consistent, that is, when it compares equal to itself.
   */
  method DuplicateThenCompare(item: Node, caseSensitive: bool, heap: Allocation.Allocator, ghost h: Shape,
                              ghost used: set<Node>)
    returns (equal: bool, ghost copy: Shape)
    requires Tree(h) && h.node == item && Nodes(h) <= used && Int32Numbers(Value(h))
    modifies heap
    ensures Nodes(copy) !! Nodes(h) && Value(copy) == Value(h)
    ensures equal <==> Consistent(Value(h), caseSensitive)
  {
    hide Tree, Value, Entry, Nodes, Consistent, Int32Numbers, HeapCompare.Verdict, HeapCompare.Given, Disjoint,
         Delete.OwnedBy, Delete.OwnedOnceBy;
    ghost var v := Value(h);
    var newitem;
    ghost var made;
    TreeParts(h);
    newitem, copy, made := Duplicate.CJSONDuplicate(item, true, heap, h, used);
    EntryValue(copy, h);
    BothGiven(h, copy, used + made);
    equal := HeapCompare.CJSONCompare(item, newitem, caseSensitive, h, copy, used + made);
    VerdictOnCopy(equal, v, caseSensitive);
  }

  lemma {:induction false} EntryValue(a: Shape, b: Shape)
    requires Entry(a) == Entry(b)
    ensures Value(a) == Value(b)
  {
    hide Value;
  }

  lemma {:induction false} BothGiven(ha: Shape, hb: Shape, used: set<Node>)
    requires Tree(ha) && Tree(hb) && Nodes(ha) <= used && Nodes(hb) <= used
    ensures HeapCompare.Given(ha, hb, used)
  {
    hide Tree, Nodes;
  }

  lemma {:induction false} VerdictOnCopy(r: bool, v: Json, caseSensitive: bool)
    requires HeapCompare.Verdict(r, v, v, caseSensitive, true) && Int32Numbers(v)
    ensures r <==> Consistent(v, caseSensitive)
  {
    hide Consistent, Int32Numbers, Mean, Compare;
    CompareDecides(v, v, caseSensitive);
  }

  /**
   `cJSON_Print` or `cJSON_PrintUnformatted`, then `cJSON_ParseWithOpts` on the text, which is freed then: the parser
   accepts exactly the trees of at most 1000 nested containers, and builds a new tree for the same value, NULL
   strings made empty. What it does not accept leaves nothing allocated.
   */
  method PrintThenParse(item: Node, format: bool, hasRealloc: bool, requireNul: bool, heap: Allocation.Allocator,
                        ghost h: Shape, ghost used: set<Node>, ghost t: Json)
    returns (printed: bool, back: Node?, end: nat, ghost copy: Shape, ghost made: set<Node>)
    requires Printer.Shown(item, h, used, t)
    modifies heap
    ensures printed <==> |Render(t, format, 0)| + 2 <= INT_MAX
    ensures back != null <==> printed && Nesting(t) <= NESTING_LIMIT
    ensures back != null ==>
              && copy.node == back && made == Nodes(copy) && fresh(made) && made !! used
              && Tree(copy) && Disjoint(copy) && end == |Render(t, format, 0)|
              && Value(copy) == FillNulls(t) && (Value(copy) == t <==> NoNulls(t))
              && heap.live == old(heap.live) + Delete.OwnedBy(copy)
    ensures back == null ==> heap.live == old(heap.live)
  {
    hide Tree, Value, Disjoint, Nodes, Printer.Shown, Delete.OwnedBy, Delete.OwnedOnceBy, Render, ParseDocument,
         Nesting, FillNulls, NoNulls, Int32Numbers;
    var text;
    ShownNumbers(item, h, used, t);
    printed, text := Printer.Print(item, format, hasRealloc, heap, h, used, t);
    back, end, copy, made := null, 0, h, {};
    if printed {
      RoundTrip.ParseUndoesPrint(t, format, requireNul);
      TextTerminated(Render(t, format, 0));
      back, end, copy, made := ParseBuffer.Parse(text[..], requireNul, heap);
      if back != null {
        TreeParts(copy);
      }
      heap.Free(text);
    }
  }

  lemma {:induction false} ShownNumbers(item: Node, h: Shape, used: set<Node>, t: Json)
    requires Printer.Shown(item, h, used, t)
    ensures Int32Numbers(t)
  {
    hide Int32Numbers;
  }

  lemma TextTerminated(text: Text)
    ensures ParseSpec.Terminated(text + [NUL])
  {
  }

  /** Without NULL strings, the tree that comes back compares equal to its source exactly when that is consistent. */
  method PrintThenParseThenCompare(item: Node, format: bool, hasRealloc: bool, caseSensitive: bool,
                                   heap: Allocation.Allocator,
                                   ghost h: Shape, ghost used: set<Node>, ghost t: Json)
    returns (equal: bool)
    requires Printer.Shown(item, h, used, t) && Nesting(t) <= NESTING_LIMIT && NoNulls(t)
    requires |Render(t, format, 0)| + 2 <= INT_MAX
    modifies heap
    ensures equal <==> Consistent(t, caseSensitive)
  {
    hide Tree, Value, Disjoint, Nodes, Printer.Shown, Delete.OwnedBy, Render, Nesting, FillNulls, NoNulls,
         Int32Numbers, Consistent, Compare, Mean;
    ghost var copy, made;
    var printed, back, end;
    printed, back, end, copy, made := PrintThenParse(item, format, hasRealloc, false, heap, h, used, t);
    ShownNumbers(item, h, used, t);
    ShownGiven(item, h, used, t, copy, made);
    equal := HeapCompare.CJSONCompare(item, back, caseSensitive, h, copy, used + made);
    VerdictOnCopy(equal, t, caseSensitive);
  }

  lemma {:induction false} ShownGiven(item: Node, h: Shape, used: set<Node>, t: Json, copy: Shape, made: set<Node>)
    requires Printer.Shown(item, h, used, t) && Tree(copy) && Nodes(copy) == made && made !! used
    ensures HeapCompare.Given(h, copy, used + made) && h.node == item && Value(h) == t && Nodes(h) !! Nodes(copy)
  {
    hide Tree, Value, Nodes, Int32Numbers;
  }

  /** `cJSON_Delete` takes back exactly what a parse of any text has allocated. */
  method ParseThenDelete(text: seq<byte>, requireNul: bool, heap: Allocation.Allocator)
    returns (parsed: bool)
    requires ParseSpec.Terminated(text)
    modifies heap
    ensures parsed <==> ParseDocument(text, requireNul).Ok?
    ensures heap.live == old(heap.live)
  {
    hide Tree, Value, Disjoint, Nodes, Delete.OwnedBy, Delete.OwnedOnceBy, ParseDocument, Delete.Owned,
         Delete.OwnedOnce, Delete.StartsList, Delete.Followed, NodesOf;
    ghost var h, made;
    var item, end;
    item, end, h, made := ParseBuffer.Parse(text, requireNul, heap);
    parsed := item != null;
    if item != null {
      Delete.TreeFollowed(h);
      ParsedTree.AloneStarts(item, h);
      Delete.CJSONDelete(item, [h], heap, made);
    }
  }

  /** The text `{"a":null,"a":true}` is accepted, and yields a tree that does not compare equal to its copy. */
  lemma {:induction false} RepeatedKeyParses(requireNul: bool, caseSensitive: bool)
    ensures var text: Text := [123, 34, 97, 34, 58, 110, 117, 108, 108, 44, 34, 97, 34, 58, 116, 114, 117, 101, 125];
            ParseDocument(text + [NUL], requireNul) == Ok(REPEATED_KEY, |text|)
    ensures !Compare(REPEATED_KEY, REPEATED_KEY, caseSensitive)
  {
    var text: Text := [123, 34, 97, 34, 58, 110, 117, 108, 108, 44, 34, 97, 34, 58, 116, 114, 117, 101, 125];
    RepeatedKeyDiffers(caseSensitive);
    assert Render(REPEATED_KEY, false, 0) == text by {
      RepeatedKeyText();
    }
    assert Int32Numbers(REPEATED_KEY) && Nesting(REPEATED_KEY) == 1 && FillNulls(REPEATED_KEY) == REPEATED_KEY by {
      RepeatedKeyParts();
    }
    hide Render, ParseDocument, Int32Numbers, Nesting, FillNulls, NoNulls, Compare;
    RoundTrip.ParseUndoesPrint(REPEATED_KEY, false, requireNul);
  }

  lemma RepeatedKeyParts()
    ensures Int32Numbers(REPEATED_KEY) && Nesting(REPEATED_KEY) == 1 && FillNulls(REPEATED_KEY) == REPEATED_KEY
  {
    var m, n := REPEATED_KEY.members[0], REPEATED_KEY.members[1];
    assert [m, n][1..] == [n];
    assert MembersNesting([n]) == 0 && FillMembers([n]) == [n];
  }

  lemma {:induction false} RepeatedKeyText()
    ensures Render(REPEATED_KEY, false, 0)
            == [123, 34, 97, 34, 58, 110, 117, 108, 108, 44, 34, 97, 34, 58, 116, 114, 117, 101, 125]
  {
    hide Render, RenderMember, RenderMembers;
    KeyText(Null, NULL_TEXT);
    KeyText(True, TRUE_TEXT);
    TwoMembers(REPEATED_KEY.members[0], REPEATED_KEY.members[1]);
  }

  lemma {:induction false} TwoMembers(m: Member, n: Member)
    ensures Render(Object([m, n]), false, 0)
            == [LBRACE] + (RenderMember(m, false, 1) + [COMMA] + RenderMember(n, false, 1)) + [RBRACE]
  {
    hide RenderMember;
    assert [m, n][1..] == [n] && [n][1..] == [];
    assert RenderMembers([n], false, 1) == RenderMember(n, false, 1);
  }

  lemma {:induction false} KeyText(t: Json, text: Text)
    requires (t.Null? && text == NULL_TEXT) || (t.True? && text == TRUE_TEXT)
    ensures RenderMember(Member(Chars([97]), t), false, 1) == [34, 97, 34, 58] + text
  {
    assert RenderString(Chars([97])) == [34, 97, 34] by {
      assert EscapeByte(97) == [97];
    }
    hide RenderString;
  }
}
