/**
 Item trees as the parser grows them: their links, what they stand for and the blocks they own.
 */
module ParsedTree {
  import opened JsonTree
  import opened SiblingList
  import opened HeapTree
  import opened TreeBuilding
  import opened Allocation
  import opened Delete

  /** An item with no value yet. */
  ghost predicate Blank(item: Node)
    reads item`child, item`isReference, item`stringIsConst, item`valuestring
  {
    item.child == null && Plain(item)
  }

  ghost predicate Plain(item: Node)
    reads item`isReference, item`stringIsConst, item`valuestring
  {
    item.valuestring == null && !item.isReference && !item.stringIsConst
  }

  ghost function ValueBlocks(item: Node): set<object>
    reads item`valuestring
  {
    if item.valuestring == null then {} else {item.valuestring}
  }

  ghost function NameBlocks(item: Node): set<object>
    reads item`name
  {
    if item.name == null then {} else {item.name}
  }

  /** Parsing has made `item` the root of the tree `h` for `value`, of new nodes `made` and new blocks `gained`. */
  ghost predicate Holds(item: Node, h: Shape, made: set<Node>, gained: set<object>, value: Json)
    reads item`child, item`kind, item`valuestring, item`valuedouble, item`isReference, item`stringIsConst, item`name,
      made
  {
    && h.node == item && item !in made && made == NodesOf(h.kids) && Below(h.kids) <= made
    && Tree(h) && Disjoint(h) && Value(h) == value
    && !item.isReference && !item.stringIsConst
    && OwnedOnce(h.kids) && ValueBlocks(item) !! Owned(h.kids) && gained == ValueBlocks(item) + Owned(h.kids)
  }

  /** The same list when `item` has been hung on and has no value yet. */
  ghost predicate Pending(head: Node?, item: Node, hs: seq<Shape>, made: set<Node>, gained: set<object>)
    reads made, item`next, item`prev
  {
    && made == NodesOf(hs) && Below(hs) <= made && item !in made
    && DisjointAll(hs) && Trees(hs) && Chain(Roots(hs) + [item])
    && head == (if hs == [] then item else hs[0].node)
    && OwnedOnce(hs) && Owned(hs) == gained
  }

  /** What an item with a value owns. */
  lemma {:induction false} HoldsOwned(item: Node, h: Shape, made: set<Node>, gained: set<object>, value: Json)
    requires Holds(item, h, made, gained, value)
    requires item !in gained && (item.name != null ==> item.name !in gained)
    ensures OwnedBy(h) == {item} + NameBlocks(item) + gained
    ensures OwnedOnceBy(h) && Tree(h) && Disjoint(h) && Nodes(h) == made + {item} && h.node == item
    ensures Value(h) == value && Entry(h) == Member(TextOf(item.name), value)
  {
    hide Owned, OwnedOnce, Tree, DisjointAll, Values, MemberValues;
  }

  /** With its value parsed, the item belongs to the list. */
  lemma {:induction false} Completed(head: Node?, item: Node, hs: seq<Shape>, made: set<Node>, gained: set<object>,
                  h: Shape, more: set<Node>, gain: set<object>, value: Json)
    requires Pending(head, item, hs, made, gained) && Holds(item, h, more, gain, value)
    requires more !! made && gain !! gained && item !in gain && item !in gained
    requires NameBlocks(item) !! gain && NameBlocks(item) !! gained
    ensures var owned := gained + {item} + NameBlocks(item) + gain;
            Grown(head, item, hs + [h], made + {item} + more, owned) && NodesOf(hs + [h]) == made + {item} + more
    ensures Values(hs + [h]) == Values(hs) + [value]
    ensures MemberValues(hs + [h]) == MemberValues(hs) + [Member(TextOf(item.name), value)]
  {
    hide Owned, OwnedOnce, OwnedBy, OwnedOnceBy, Tree, Trees, Disjoint, DisjointAll, Values, MemberValues, Value,
         Entry, Nodes, NodesOf, Below, Chain, Roots, Growing;
    HoldsOwned(item, h, more, gain, value);
    GrowingSnoc(head, null, hs, made, h);
    RootsSnoc(hs, h);
    OwnedSnoc(hs, h);
    ValuesSnoc(hs, h);
    assert made + Nodes(h) == made + {item} + more;
  }

  // ---------------------------------------------------------------- values

  /** An item without children holds what its own fields say. */
  lemma LeafHolds(item: Node)
    requires item.child == null && !item.isReference && !item.stringIsConst
    ensures var leaf := Shape(item, []); Holds(item, leaf, {}, ValueBlocks(item), Value(leaf))
  {
  }

  /** An item with a complete list holds an array or an object. */
  lemma {:induction false} ContainerHolds(item: Node, hs: seq<Shape>, made: set<Node>, gained: set<object>)
    requires Tree(Shape(item, hs)) && Disjoint(Shape(item, hs)) && Nodes(Shape(item, hs)) == made + {item}
             && item !in made
    requires Plain(item) && OwnedOnce(hs) && Owned(hs) == gained && item.kind in {KArray, KObject}
    ensures Holds(item, Shape(item, hs), made, gained,
                  if item.kind == KArray then Array(Values(hs)) else Object(MemberValues(hs)))
  {
    hide Values, MemberValues, Owned, OwnedOnce, Trees, DisjointAll, Linked, Roots;
    assert NodesOf(hs) == made by {
      assert Nodes(Shape(item, hs)) == {item} + NodesOf(hs);
      assert item !in NodesOf(hs);
    }
  }

  lemma NoneGrown()
    ensures Grown(null, null, [], {}, {}) && NodesOf([]) == {} && Values([]) == [] && MemberValues([]) == []
  {
  }

  lemma {:induction false} GrownRoots(head: Node?, last: Node?, hs: seq<Shape>, made: set<Node>, gained: set<object>)
    requires Grown(head, last, hs, made, gained)
    ensures made == NodesOf(hs) && (forall x :: x in Roots(hs) ==> x in made && x !in Below(hs))
    ensures hs != [] ==> last == Roots(hs)[|hs| - 1] && last in made && last !in Below(hs)
  {
    RootsApart(hs);
    if hs != [] {
      assert Roots(hs)[|hs| - 1] in Roots(hs);
    }
  }

  /** The end of the loop body's first part: a new item, hung on the list. */
  method NewLast(last: Node?, heap: Allocator,
                 ghost head: Node?, ghost hs: seq<Shape>, ghost made: set<Node>, ghost gained: set<object>)
    returns (item: Node)
    requires Grown(head, last, hs, made, gained)
    modifies heap, The(last)`next
    ensures fresh(item) && Blank(item) && item.name == null && heap.live == old(heap.live) + {item}
    ensures Pending(if head == null then item else head, item, hs, made, gained)
    ensures Values(hs) == old(Values(hs)) && MemberValues(hs) == old(MemberValues(hs))
  {
    hide Trees, DisjointAll, Chain, Owned, OwnedOnce, Values, MemberValues, Below, NodesOf;
    GrownRoots(head, last, hs, made, gained);
    item := heap.NewItem();
    LinkLast(last, item, Roots(hs));
  }

  lemma {:induction false} GrownApart(head: Node?, last: Node?, hs: seq<Shape>, made: set<Node>, gained: set<object>)
    requires Grown(head, last, hs, made, gained)
    ensures NodesOf(hs) == made
  {
  }

  lemma {:induction false} PendingApart(head: Node?, item: Node, hs: seq<Shape>, made: set<Node>, gained: set<object>)
    requires Pending(head, item, hs, made, gained)
    ensures NodesOf(hs) == made && item !in made
  {
  }

  /** The end of `parse_array` and `parse_object`: the list is closed and becomes that of the item. */
  method Adopt(item: Node, kind: Kind, head: Node?, last: Node?,
               ghost hs: seq<Shape>, ghost made: set<Node>, ghost gained: set<object>)
    requires Grown(head, last, hs, made, gained) && item !in made && Plain(item) && kind in {KArray, KObject}
    modifies The(head)`prev, item`kind, item`child
    ensures Holds(item, Shape(item, hs), made, gained,
                  if kind == KArray then Array(old(Values(hs))) else Object(old(MemberValues(hs))))
  {
    hide Trees, DisjointAll, Chain, Owned, OwnedOnce, Values, MemberValues, Tree, Disjoint, Nodes, Holds, NodesOf,
         Growing;
    GrownApart(head, last, hs, made, gained);
    item.kind := kind;
    CloseList(item, head, last, hs, made);
    ContainerHolds(item, hs, made, gained);
  }

  // ---------------------------------------------------------------- giving up

  lemma {:induction false} ChainStarts(xs: seq<Node>, ks: seq<Shape>, i: nat)
    requires Chain(xs) && xs == Roots(ks) && i <= |ks|
    requires forall k :: 0 <= k < |ks| ==> Followed(ks[k])
    ensures StartsList(if i < |ks| then ks[i].node else null, ks[i..])
    decreases |ks| - i
  {
    hide Followed;
    if i == |ks| {
    } else {
      ChainStarts(xs, ks, i + 1);
      assert xs[i].next == if i + 1 < |xs| then xs[i + 1] else null;
      assert ks[i..][1..] == ks[i + 1..];
    }
  }

  lemma {:induction false} TreesFollowed(ks: seq<Shape>)
    requires Trees(ks)
    ensures forall k :: 0 <= k < |ks| ==> Followed(ks[k])
  {
    forall k | 0 <= k < |ks| ensures Followed(ks[k]) {
      TreesAt(ks, k);
      TreeFollowed(ks[k]);
    }
  }

  /** A list under construction can be deleted, */
  lemma {:induction false} GrownStarts(head: Node?, last: Node?, hs: seq<Shape>, made: set<Node>, gained: set<object>)
    requires Grown(head, last, hs, made, gained)
    ensures StartsList(head, hs) && OwnedOnce(hs) && Owned(hs) == gained && NodesOf(hs) == made
  {
    hide Chain, Trees, StartsList, Followed;
    TreesFollowed(hs);
    ChainStarts(Roots(hs), hs, 0);
    assert hs[0..] == hs;
  }

  /** and so it can with an item at its end that has a name at most. */
  lemma {:induction false} PendingStarts(head: Node?, item: Node, hs: seq<Shape>, made: set<Node>, gained: set<object>)
    requires Pending(head, item, hs, made, gained) && Blank(item) && item !in gained
    requires NameBlocks(item) !! gained
    ensures var all, owned := hs + [Shape(item, [])], gained + {item} + NameBlocks(item);
            StartsList(head, all) && OwnedOnce(all) && Owned(all) == owned && NodesOf(all) == made + {item}
  {
    hide Chain, Trees, StartsList, Owned, OwnedOnce, Roots;
    var leaf := Shape(item, []);
    var all := hs + [leaf];
    assert Followed(leaf) && OwnedOnceBy(leaf) && Nodes(leaf) == {item} by {
      LeafParts(item);
    }
    assert OwnedBy(leaf) == {item} + NameBlocks(item) by {
      LeafParts(item);
    }
    OwnedSnoc(hs, leaf);
    RootsSnoc(hs, leaf);
    TreesFollowed(hs);
    forall k | 0 <= k < |all| ensures Followed(all[k]) {
      if k < |hs| {
        assert all[k] == hs[k];
      }
    }
    ChainStarts(Roots(all), all, 0);
    assert all[0..] == all;
  }

  lemma LeafParts(item: Node)
    requires Blank(item)
    ensures var leaf := Shape(item, []);
            && Followed(leaf) && OwnedOnceBy(leaf) && Nodes(leaf) == {item}
            && OwnedBy(leaf) == {item} + NameBlocks(item)
  {
  }

  /** A root by itself is a list to delete. */
  lemma {:induction false} AloneStarts(item: Node, h: Shape)
    requires h.node == item && item.next == null && Followed(h) && OwnedOnceBy(h)
    ensures StartsList(item, [h]) && OwnedOnce([h]) && Owned([h]) == OwnedBy(h) && NodesOf([h]) == Nodes(h)
  {
    hide OwnedBy, OwnedOnceBy, Followed;
    assert [h][1..] == [];
  }

  /** A root can be deleted with what it holds, or while it is blank. */
  lemma {:induction false} RootStarts(item: Node, holds: bool, h: Shape, made: set<Node>, gained: set<object>,
                                      value: Json)
    requires item.next == null && item.name == null && item !in gained
    requires if holds then Holds(item, h, made, gained, value)
             else Blank(item) && h == Shape(item, []) && made == {} && gained == {}
    ensures StartsList(item, [h]) && OwnedOnce([h]) && Owned([h]) == {item} + gained && NodesOf([h]) == made + {item}
  {
    hide OwnedBy, OwnedOnceBy, Followed, Tree, Holds, StartsList, Owned, OwnedOnce, NodesOf, Nodes;
    if holds {
      HoldsOwned(item, h, made, gained, value);
      TreeFollowed(h);
    } else {
      LeafParts(item);
    }
    AloneStarts(item, h);
  }
}
