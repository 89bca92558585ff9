/**
 The recursive printer of cJSON.c, over item trees in the heap. Each method appends the rendering of its
 argument to the output, and succeeds exactly when the output can grow to the rendering and two bytes more.
 */
module Printer {
  import opened Bytes
  import opened JsonTree
  import opened SiblingList
  import opened HeapTree
  import opened Rendering
  import opened Allocation
  import opened PrintBuffer

  /** The tree `h` below `item`, with nodes in `used` and printable numbers, stands for `t`. */
  ghost predicate Shown(item: Node, h: Shape, used: set<Node>, t: Json)
    reads used
  {
    h.node == item && Nodes(h) <= used && Tree(h) && Value(h) == t && Int32Numbers(t)
  }

  /** The same of a list of siblings, as items and as members. */
  ghost predicate ShownList(first: Node?, ks: seq<Shape>, used: set<Node>, items: seq<Json>, members: seq<Member>)
    reads used
  {
    && NodesOf(ks) <= used && Below(ks) <= used && Linked(first, Roots(ks)) && Trees(ks)
    && Values(ks) == items && MemberValues(ks) == members
    && forall k :: 0 <= k < |items| ==> Int32Numbers(items[k])
  }

  lemma ShownFields(item: Node, h: Shape, used: set<Node>, t: Json)
    requires Shown(item, h, used, t)
    ensures item in used
    ensures match item.kind
            case KNull => t == Null
            case KFalse => t == False
            case KTrue => t == True
            case KNumber => t == Number(item.valuedouble) && IsInt32(item.valuedouble)
            case KString => t == String(TextOf(item.valuestring))
            case KArray =>
              && t == Array(Values(h.kids))
              && ShownList(item.child, h.kids, used, Values(h.kids), MemberValues(h.kids))
            case KObject =>
              && t == Object(MemberValues(h.kids))
              && ShownList(item.child, h.kids, used, Values(h.kids), MemberValues(h.kids))
  {
    hide Trees, Linked, Values, MemberValues, IsInt32;
    TreeParts(h);
    if item.kind == KObject {
      forall k | 0 <= k < |h.kids| ensures Int32Numbers(Values(h.kids)[k]) {
        ValuesAt(h.kids, k);
        assert Int32Numbers(t.members[k].value);
      }
    }
  }

  lemma ShownAt(first: Node?, ks: seq<Shape>, used: set<Node>, items: seq<Json>, members: seq<Member>, i: nat)
    requires ShownList(first, ks, used, items, members) && i < |ks|
    ensures |items| == |members| == |ks| && Shown(ks[i].node, ks[i], used, items[i]) && ks[i].node in used
    ensures members[i] == Member(TextOf(ks[i].node.name), items[i])
    ensures ks[i].node.next == if i + 1 < |ks| then ks[i + 1].node else null
  {
    hide Trees, Linked, Values, MemberValues, Int32Numbers, Tree, Value, NodesOf, Below;
    assert ks[i].node in Nodes(ks[i]);
    TreesAt(ks, i);
    ValuesAt(ks, i);
    Neighbours(first, Roots(ks), i);
  }

  lemma ShownStart(first: Node?, ks: seq<Shape>, used: set<Node>, items: seq<Json>, members: seq<Member>)
    requires ShownList(first, ks, used, items, members)
    ensures |items| == |members| == |ks| && first == if ks == [] then null else ks[0].node
  {
    hide Trees, Values, MemberValues, Int32Numbers, NodesOf, Below;
  }

  method PrintValue(p: Output, item: Node?, ghost h: Shape, ghost used: set<Node>, ghost t: Json) returns (ok: bool)
    requires p.Valid() && (item != null ==> Shown(item, h, used, t))
    modifies p, p.buffer, p.heap
    ensures ok <==> item != null && old(p.offset) + |Render(t, p.format, old(p.depth))| + 2 <= old(p.Limit())
    ensures ok ==> p.Shows(old(p.buffer[..p.offset]) + Render(t, p.format, old(p.depth))) && p.depth == old(p.depth)
    ensures p.Kept()
    decreases h, 0
  {
    hide Shown, ShownList;
    if item == null {
      return false;
    }
    ShownFields(item, h, used, t);
    match item.kind
    case KNull => ok := p.Finish(5, NULL_TEXT);
    case KFalse => ok := p.Finish(6, FALSE_TEXT);
    case KTrue => ok := p.Finish(5, TRUE_TEXT);
    case KNumber => ok := p.PrintNumber(item.valuedouble);
    case KString => ok := p.PrintString(TextOf(item.valuestring));
    case KArray => ok := PrintArray(p, item, h.kids, used, t.items, MemberValues(h.kids));
    case KObject => ok := PrintObject(p, item, h.kids, used, Values(h.kids), t.members);
  }

  method PrintArray(p: Output, item: Node, ghost ks: seq<Shape>, ghost used: set<Node>,
                    ghost items: seq<Json>, ghost members: seq<Member>)
    returns (ok: bool)
    requires p.Valid() && ShownList(item.child, ks, used, items, members) && item in used
    modifies p, p.buffer, p.heap
    ensures var r := Render(Array(items), p.format, old(p.depth));
            && (ok <==> old(p.offset) + |r| + 2 <= old(p.Limit()))
            && (ok ==> p.Shows(old(p.buffer[..p.offset]) + r) && p.depth == old(p.depth))
    ensures p.Kept()
    decreases ks, 2
  {
    hide Render, RenderItems, ShownList, Shown, Output.Shows;
    ArrayPieces(p.buffer[..p.offset], items, p.format, p.depth);
    ok := p.Emit(1, [LBRACKET]);
    if !ok {
      return;
    }
    p.depth := p.depth + 1;
    ok := PrintItems(p, item.child, ks, used, items, members);
    if !ok {
      return;
    }
    ok := Close(p, 2, [RBRACKET]);
  }

  /** The end of an array or object: the closing text, one level less deep. */
  method Close(p: Output, needed: nat, s: Text) returns (ok: bool)
    requires p.Valid() && |s| <= needed && p.depth > 0
    modifies p, p.buffer, p.heap
    ensures ok <==> old(p.offset) + needed + 1 <= old(p.Limit())
    ensures ok ==> p.Shows(old(p.buffer[..p.offset]) + s) && p.depth == old(p.depth) - 1
    ensures p.Kept()
  {
    ok := p.Finish(needed, s);
    p.depth := p.depth - 1;
  }

  lemma {:induction false} ArrayPieces(start: seq<byte>, items: seq<Json>, format: bool, depth: nat)
    ensures var r, body := Render(Array(items), format, depth), RenderItems(items, format, depth + 1);
            start + [LBRACKET] + body + [RBRACKET] == start + r && |r| == |body| + 2
  {
    hide RenderItems;
  }

  /** The loop of `print_array`. */
  method PrintItems(p: Output, first: Node?, ghost ks: seq<Shape>, ghost used: set<Node>,
                    ghost items: seq<Json>, ghost members: seq<Member>)
    returns (ok: bool)
    requires p.Valid() && ShownList(first, ks, used, items, members)
    modifies p, p.buffer, p.heap
    ensures var r := RenderItems(items, p.format, old(p.depth));
            && (!ok ==> old(p.offset) + |r| + 2 > old(p.Limit()))
            && (ok ==> p.Complete(old(p.buffer[..p.offset]) + r) && p.depth == old(p.depth))
    ensures p.Kept()
    decreases ks, 1
  {
    hide RenderItems, Render, ShownList, Shown;
    ok := true;
    ghost var whole: seq<byte> := p.buffer[..p.offset] + RenderItems(items, p.format, p.depth);
    ghost var text: seq<byte> := p.buffer[..p.offset];
    var current := first;
    ghost var i := 0;
    ShownStart(first, ks, used, items, members);
    assert items[0..] == items;
    while current != null
      invariant 0 <= i <= |ks| && ok && current == (if i < |ks| then ks[i].node else null)
      invariant ShownList(first, ks, used, items, members)
      invariant p.Complete(text) && p.depth == old(p.depth)
      invariant text + RenderItems(items[i..], p.format, p.depth) == whole
      invariant p.Kept()
      decreases |ks| - i
    {
      ItemsSplit(text, items, i, p.format, p.depth);
      ShownAt(first, ks, used, items, members, i);
      ghost var next: seq<byte> := text + RenderItem(items[i], i + 1 == |items|, p.format, p.depth);
      ok := PrintItem(p, current, ks[i], used, items[i]);
      if !ok {
        return;
      }
      ShownAt(first, ks, used, items, members, i);
      text := next;
      current := current.next;
      i := i + 1;
    }
    NoMoreItems(text, items[|items|..], p.format, p.depth);
  }

  /** An item with the separator behind it. */
  ghost function RenderItem(t: Json, last: bool, format: bool, depth: nat): Text {
    Render(t, format, depth) + if last then [] else Separator(format)
  }

  lemma {:induction false} ItemsSplit(text: seq<byte>, items: seq<Json>, i: nat, format: bool, depth: nat)
    requires i < |items|
    ensures text + RenderItems(items[i..], format, depth)
            == text + RenderItem(items[i], i + 1 == |items|, format, depth) + RenderItems(items[i + 1..], format, depth)
  {
    hide Render;
    assert items[i..][1..] == items[i + 1..];
    assert RenderItems(items[i..], format, depth)
        == RenderItem(items[i], i + 1 == |items|, format, depth) + RenderItems(items[i + 1..], format, depth);
  }

  lemma {:induction false} NoMoreItems(text: seq<byte>, items: seq<Json>, format: bool, depth: nat)
    requires items == []
    ensures text + RenderItems(items, format, depth) == text
  {
  }

  /** One round of the loop: the value, `update_offset`, and a separator unless it is the last. */
  method PrintItem(p: Output, item: Node, ghost h: Shape, ghost used: set<Node>, ghost t: Json) returns (ok: bool)
    requires p.Valid() && Shown(item, h, used, t) && item in used
    modifies p, p.buffer, p.heap
    ensures var r := RenderItem(t, item.next == null, p.format, old(p.depth));
            && (!ok ==> old(p.offset) + |r| + 2 > old(p.Limit()))
            && (ok ==> p.Complete(old(p.buffer[..p.offset]) + r) && p.depth == old(p.depth))
    ensures p.Kept()
    decreases h, 1
  {
    hide Render, Shown;
    ghost var start, r := p.buffer[..p.offset], Render(t, p.format, p.depth);
    ok := PrintValue(p, item, h, used, t);
    if !ok {
      return;
    }
    p.UpdateOffset(start + r);
    if item.next != null {
      ok := p.Emit(|Separator(p.format)| + 1, Separator(p.format));
      assert start + r + Separator(p.format) == start + (r + Separator(p.format));
    }
  }

  method PrintObject(p: Output, item: Node, ghost ks: seq<Shape>, ghost used: set<Node>,
                     ghost items: seq<Json>, ghost members: seq<Member>)
    returns (ok: bool)
    requires p.Valid() && ShownList(item.child, ks, used, items, members) && item in used
    modifies p, p.buffer, p.heap
    ensures var r := Render(Object(members), p.format, old(p.depth));
            && (ok <==> old(p.offset) + |r| + 2 <= old(p.Limit()))
            && (ok ==> p.Shows(old(p.buffer[..p.offset]) + r) && p.depth == old(p.depth))
    ensures p.Kept()
    decreases ks, 4
  {
    hide Render, RenderMembers, ShownList, ObjectOpening, ObjectClosing, Shown, Output.Shows;
    ObjectPieces(p.buffer[..p.offset], members, p.format, p.depth);
    var opening := ObjectOpening(p.format);
    ok := p.Emit(|opening| + 1, opening);
    if !ok {
      return;
    }
    p.depth := p.depth + 1;
    ok := PrintMembers(p, item.child, ks, used, items, members);
    if !ok {
      return;
    }
    ok := Close(p, if p.format then p.depth + 1 else 2, ObjectClosing(p.format, p.depth - 1));
  }

  lemma {:induction false} ObjectPieces(start: seq<byte>, members: seq<Member>, format: bool, depth: nat)
    ensures var r, body := Render(Object(members), format, depth), RenderMembers(members, format, depth + 1);
            && start + ObjectOpening(format) + body + ObjectClosing(format, depth) == start + r
            && |r| == |ObjectOpening(format)| + |body| + |ObjectClosing(format, depth)|
            && |ObjectOpening(format)| == (if format then 2 else 1)
            && |ObjectClosing(format, depth)| == if format then depth + 1 else 1
  {
    hide RenderMembers;
  }

  /** The loop of `print_object`. */
  method PrintMembers(p: Output, first: Node?, ghost ks: seq<Shape>, ghost used: set<Node>,
                      ghost items: seq<Json>, ghost members: seq<Member>)
    returns (ok: bool)
    requires p.Valid() && ShownList(first, ks, used, items, members)
    modifies p, p.buffer, p.heap
    ensures var r := RenderMembers(members, p.format, old(p.depth));
            && (!ok ==> old(p.offset) + |r| + 2 > old(p.Limit()))
            && (ok ==> p.Complete(old(p.buffer[..p.offset]) + r) && p.depth == old(p.depth))
    ensures p.Kept()
    decreases ks, 3
  {
    hide RenderMembers, RenderMember, ShownList, Shown;
    ok := true;
    ghost var whole: seq<byte> := p.buffer[..p.offset] + RenderMembers(members, p.format, p.depth);
    ghost var text: seq<byte> := p.buffer[..p.offset];
    var current := first;
    ghost var i := 0;
    ShownStart(first, ks, used, items, members);
    assert members[0..] == members;
    while current != null
      invariant 0 <= i <= |ks| && ok && current == (if i < |ks| then ks[i].node else null)
      invariant ShownList(first, ks, used, items, members)
      invariant p.Complete(text) && p.depth == old(p.depth)
      invariant text + RenderMembers(members[i..], p.format, p.depth) == whole
      invariant p.Kept()
      decreases |ks| - i
    {
      MembersSplit(text, members, i, p.format, p.depth);
      ShownAt(first, ks, used, items, members, i);
      ghost var next: seq<byte> := text
        + (RenderMember(members[i], p.format, p.depth) + MemberEnd(p.format, i + 1 == |members|));
      ok := PrintMember(p, current, ks[i], used, members[i]);
      if !ok {
        return;
      }
      ShownAt(first, ks, used, items, members, i);
      text := next;
      current := current.next;
      i := i + 1;
    }
    NoMoreMembers(text, members[|members|..], p.format, p.depth);
  }

  lemma {:induction false} MembersSplit(text: seq<byte>, members: seq<Member>, i: nat, format: bool, depth: nat)
    requires i < |members|
    ensures text + RenderMembers(members[i..], format, depth)
            == text + (RenderMember(members[i], format, depth) + MemberEnd(format, i + 1 == |members|))
               + RenderMembers(members[i + 1..], format, depth)
  {
    hide RenderMember;
    assert members[i..][1..] == members[i + 1..];
    assert RenderMembers(members[i..], format, depth)
        == RenderMember(members[i], format, depth) + MemberEnd(format, i + 1 == |members|)
           + RenderMembers(members[i + 1..], format, depth);
  }

  lemma {:induction false} NoMoreMembers(text: seq<byte>, members: seq<Member>, format: bool, depth: nat)
    requires members == []
    ensures text + RenderMembers(members, format, depth) == text
  {
  }

  /** One round of the loop: indentation, key, colon, value, comma and new line. */
  method PrintMember(p: Output, item: Node, ghost h: Shape, ghost used: set<Node>, ghost m: Member) returns (ok: bool)
    requires p.Valid() && Shown(item, h, used, m.value) && item in used && TextOf(item.name) == m.key
    modifies p, p.buffer, p.heap
    ensures var r := RenderMember(m, p.format, old(p.depth)) + MemberEnd(p.format, item.next == null);
            && (!ok ==> old(p.offset) + |r| + 2 > old(p.Limit()))
            && (ok ==> p.Complete(old(p.buffer[..p.offset]) + r) && p.depth == old(p.depth))
    ensures p.Kept()
    decreases h, 1
  {
    hide Render, RenderString, RenderKey, RenderMember, MemberEnd, Shown, Output.Shows;
    ghost var start, r := p.buffer[..p.offset], Render(m.value, p.format, p.depth);
    ghost var key := start + RenderKey(m.key, p.format, p.depth);
    MemberPieces(start, m, MemberEnd(p.format, item.next == null), p.format, p.depth);
    ok := PrintKey(p, TextOf(item.name));
    if !ok {
      return;
    }
    ok := PrintValue(p, item, h, used, m.value);
    if !ok {
      return;
    }
    p.UpdateOffset(key + r);
    var end := MemberEnd(p.format, item.next == null);
    ok := p.Emit(|end| + 1, end);
  }

  lemma {:induction false} MemberPieces(start: seq<byte>, m: Member, end: Text, format: bool, depth: nat)
    ensures start + RenderKey(m.key, format, depth) + Render(m.value, format, depth) + end
            == start + (RenderMember(m, format, depth) + end)
    ensures |RenderMember(m, format, depth)| == |RenderKey(m.key, format, depth)| + |Render(m.value, format, depth)|
  {
    hide Render;
  }

  /** What `print_object` prints in front of a member's value. */
  ghost function RenderKey(key: CString, format: bool, depth: nat): Text {
    Indent(format, depth) + RenderString(key) + Colon(format)
  }

  method PrintKey(p: Output, key: CString) returns (ok: bool)
    requires p.Valid()
    modifies p, p.buffer, p.heap
    ensures var r := RenderKey(key, p.format, p.depth);
            && (!ok ==> old(p.offset) + |r| + 1 > old(p.Limit()))
            && (ok ==> p.Complete(old(p.buffer[..p.offset]) + r))
    ensures p.depth == old(p.depth)
    ensures p.Kept()
  {
    hide RenderString, Indent, Colon, Output.Shows;
    ghost var start: seq<byte> := p.buffer[..p.offset];
    KeyPieces(start, key, p.format, p.depth);
    ok := PrintIndent(p);
    if !ok {
      return;
    }
    ok := p.PrintString(key);
    if !ok {
      return;
    }
    p.UpdateOffset(start + Indent(p.format, p.depth) + RenderString(key));
    ok := p.Emit(|Colon(p.format)|, Colon(p.format));
  }

  lemma KeyPieces(start: seq<byte>, key: CString, format: bool, depth: nat)
    ensures start + Indent(format, depth) + RenderString(key) + Colon(format) == start + RenderKey(key, format, depth)
    ensures |RenderKey(key, format, depth)| == |Indent(format, depth)| + |RenderString(key)| + |Colon(format)|
            && |Colon(format)| > 0
  {
    hide RenderString, Indent;
  }

  /** The tabs in front of a key. */
  method PrintIndent(p: Output) returns (ok: bool)
    requires p.Valid()
    modifies p, p.buffer, p.heap
    ensures !ok ==> old(p.offset) + p.depth + 1 > old(p.Limit()) && p.format
    ensures ok ==> p.Valid() && p.buffer[..p.offset] == old(p.buffer[..p.offset]) + Indent(p.format, p.depth)
    ensures p.depth == old(p.depth)
    ensures p.Kept()
  {
    ok := true;
    if p.format {
      ok := p.Emit(p.depth, Tabs(p.depth));
    }
  }

  // ---------------------------------------------------------------- entry points

  /**
   `print`, behind cJSON_Print and cJSON_PrintUnformatted: a block that holds exactly the text and
   its NUL, and that is all that is left allocated. It fails only when the text does not fit the sizes that
   `ensure` can handle, and then nothing is.
   */
  method Print(item: Node?, format: bool, hasRealloc: bool, heap: Allocator,
               ghost h: Shape, ghost used: set<Node>, ghost t: Json)
    returns (ok: bool, printed: array<byte>)
    requires item != null ==> Shown(item, h, used, t)
    modifies heap
    ensures ok <==> item != null && |Render(t, format, 0)| + 2 <= INT_MAX
    ensures ok ==> fresh(printed) && printed[..] == Render(t, format, 0) + [NUL]
    ensures heap.live == old(heap.live) + if ok then {printed} else {}
  {
    hide Render, Shown;
    printed := heap.NewBytes(256);
    var p := new Output(printed, false, format, hasRealloc, heap);
    ok := PrintValue(p, item, h, used, t);
    if !ok {
      heap.Free(p.buffer);
      return;
    }
    ghost var text: seq<byte> := Render(t, format, 0);
    assert [] + text == text;
    p.UpdateOffset(text);
    printed := ExactCopy(p, text);
  }

  /** The end of `print`: the text and its NUL in a block of exactly their size, and the buffer freed. */
  method ExactCopy(p: Output, ghost text: seq<byte>) returns (printed: array<byte>)
    requires p.Complete(text) && p.offset < p.buffer.Length && p.buffer[p.offset] == NUL && p.buffer in p.heap.live
    modifies p.heap
    ensures fresh(printed) && printed[..] == text + [NUL]
    ensures p.heap.live == old(p.heap.live) - {p.buffer} + {printed}
  {
    var count := if p.hasRealloc || p.offset + 1 < p.buffer.Length then p.offset + 1 else p.buffer.Length;
    printed := Copied(p.buffer, count, p.offset + 1, p.heap);
    assert printed[..p.offset + 1] == p.buffer[..p.offset] + [p.buffer[p.offset]];
    if !p.hasRealloc {
      printed[p.offset] := NUL;
    }
    assert printed[..] == text + [NUL];
    p.heap.Free(p.buffer);
  }

  /** `cJSON_PrintBuffered`: the text and its NUL at the start of a block that may be longer. */
  method PrintBuffered(item: Node?, prebuffer: int, format: bool, hasRealloc: bool, heap: Allocator,
                       ghost h: Shape, ghost used: set<Node>, ghost t: Json)
    returns (ok: bool, printed: array?<byte>)
    requires (item != null ==> Shown(item, h, used, t)) && prebuffer <= INT_MAX
    modifies heap
    ensures ok <==> item != null && prebuffer >= 0 && |Render(t, format, 0)| + 2 <= INT_MAX
    ensures if ok then printed != null && heap.live == old(heap.live) + {printed} else heap.live == old(heap.live)
    ensures ok ==> fresh(printed) && |Render(t, format, 0)| < printed.Length
    ensures ok ==> printed[..|Render(t, format, 0)| + 1] == Render(t, format, 0) + [NUL]
  {
    hide Render, Shown;
    if prebuffer < 0 {
      return false, null;
    }
    var buffer := heap.NewBytes(prebuffer);
    var p := new Output(buffer, false, format, hasRealloc, heap);
    ok := PrintValue(p, item, h, used, t);
    if !ok {
      heap.Free(p.buffer);
      return false, null;
    }
    printed := p.buffer;
    ghost var text: seq<byte> := Render(t, format, 0);
    assert [] + text == text;
    assert printed[..|text| + 1] == text + [NUL];
  }

  /** `cJSON_PrintPreallocated`: the buffer must exceed the text by exactly two bytes. */
  method PrintPreallocated(item: Node?, buffer: array?<byte>, format: bool, heap: Allocator,
                           ghost h: Shape, ghost used: set<Node>, ghost t: Json)
    returns (ok: bool)
    requires (item != null ==> Shown(item, h, used, t)) && (buffer != null ==> buffer.Length <= INT_MAX)
    modifies buffer, heap
    ensures ok <==> item != null && buffer != null && |Render(t, format, 0)| + 2 <= buffer.Length
    ensures ok ==> buffer[..|Render(t, format, 0)| + 1] == Render(t, format, 0) + [NUL]
    ensures heap.live == old(heap.live)
  {
    hide Render, Shown;
    if buffer == null {
      return false;
    }
    var p := new Output(buffer, true, format, true, heap);
    ok := PrintValue(p, item, h, used, t);
    ghost var text: seq<byte> := Render(t, format, 0);
    assert [] + text == text;
    if ok {
      assert buffer[..|text| + 1] == text + [NUL];
    }
    WithElement(heap.live, old(heap.live), buffer);
  }

  lemma WithElement(a: set<object>, b: set<object>, x: object)
    requires a - {x} == b - {x} && (x in a <==> x in b)
    ensures a == b
  {
    assert forall y :: y in a <==> y in a - {x} || (y == x && x in a);
    assert forall y :: y in b <==> y in b - {x} || (y == x && x in b);
  }

  lemma {:induction false} NullShown(item: Node)
    requires item.kind == KNull && item.child == null
    ensures Shown(item, Shape(item, []), {item}, Null)
  {
    assert Roots([]) == [] && Trees([]) && NodesOf([]) == {};
    assert Linked(item.child, []);
  }

  /** Five bytes would hold the text null and its NUL, but are not enough. */
  method TightBufferFails(format: bool, heap: Allocator) returns (ok: bool)
    modifies heap
    ensures !ok && heap.live == old(heap.live)
  {
    var item := new Node();
    item.kind := KNull;
    var buffer := new byte[5];
    ghost var h := Shape(item, []);
    NullShown(item);
    ok := PrintPreallocated(item, buffer, format, heap, h, {item}, Null);
  }
}
