/**
 `cJSON_Duplicate`: a copy made of new nodes that stands for the same value.
 */
module Duplicate {
  import opened SiblingList
  import opened HeapTree
  import opened TreeBuilding
  import opened Allocation
  import opened Delete

  /** The trees `hs`, made of the nodes `made` and owning the blocks `gained`, hang below `parent` so far. */
  ghost predicate Built(parent: Node, hs: seq<Shape>, made: set<Node>, gained: set<object>, last: Node?)
    reads parent`child, made
  {
    Grown(parent.child, last, hs, made, gained) && parent !in made
  }

  /** The first trees of `ks` have been copied as `hs`. */
  ghost predicate Copied(ks: seq<Shape>, i: nat, hs: seq<Shape>)
    requires i <= |ks|
    reads NodesOf(ks)`kind, NodesOf(ks)`valuestring, NodesOf(ks)`valuedouble, NodesOf(ks)`name
    reads NodesOf(hs)`kind, NodesOf(hs)`valuestring, NodesOf(hs)`valuedouble, NodesOf(hs)`name
  {
    Values(hs) == Values(ks)[..i] && MemberValues(hs) == MemberValues(ks)[..i]
  }

  /** Hangs a new tree behind the copies made so far. */
  method Attach(parent: Node, last: Node?, newchild: Node, ghost hs: seq<Shape>, ghost hc: Shape,
                ghost made: set<Node>, ghost more: set<Node>, ghost gained: set<object>, ghost gain: set<object>)
    requires Built(parent, hs, made, gained, last)
    requires Tree(hc) && Disjoint(hc) && more == Nodes(hc) && more !! made && parent !in more
    requires OwnedOnceBy(hc) && OwnedBy(hc) == gain && gain !! gained
    requires hc.node == newchild && newchild.next == null
    modifies parent`child, The(last)`next, newchild`prev
    ensures Built(parent, hs + [hc], made + more, gained + gain, newchild)
  {
    hide Disjoint, DisjointAll, Tree, Trees, Nodes, NodesOf, Below, Roots, Chain, Owned, OwnedBy, OwnedOnce,
         OwnedOnceBy;
    AttachApart(hs, hc);
    LinkLast(last, newchild, Roots(hs));
    if last == null {
      parent.child := newchild;
    }
    GrowingSnoc(parent.child, last, hs, made, hc);
    OwnedSnoc(hs, hc);
  }

  /** The fields that `cJSON_Duplicate` copies into the new item. */
  method CopyItem(item: Node, heap: Allocator) returns (newitem: Node)
    modifies heap
    ensures fresh(newitem)
    ensures newitem.next == null && newitem.prev == null && newitem.child == null
    ensures newitem.kind == item.kind && newitem.valuedouble == item.valuedouble
    ensures !newitem.isReference && newitem.stringIsConst == item.stringIsConst
    ensures TextOf(newitem.valuestring) == TextOf(item.valuestring) && TextOf(newitem.name) == TextOf(item.name)
    ensures item.stringIsConst ==> newitem.name == item.name
    ensures StringsApart(newitem) && fresh(OwnBlocks(newitem)) && heap.live == old(heap.live) + OwnBlocks(newitem)
  {
    newitem := heap.NewItem();
    newitem.kind, newitem.valuedouble := item.kind, item.valuedouble;
    newitem.stringIsConst := item.stringIsConst;
    newitem.valuestring := CopyString(item.valuestring, heap);
    if item.stringIsConst {
      newitem.name := item.name;
    } else {
      newitem.name := CopyString(item.name, heap);
    }
  }

  /** A string in a block of its own, unless it is NULL. */
  method CopyString(block: StringBlock?, heap: Allocator) returns (copy: StringBlock?)
    modifies heap
    ensures (copy == null <==> block == null) && TextOf(copy) == TextOf(block)
    ensures copy != null ==> fresh(copy)
    ensures heap.live == old(heap.live) + if copy == null then {} else {copy}
  {
    if block == null {
      return null;
    }
    copy := heap.NewString(block.text);
  }

  /**
   `used` is any set of existing nodes that holds the source: the copy, `made`, has none of them. Nor does it
   own a block that existed before: what it owns is `gained`.
   */
  method DuplicateTree(item: Node, heap: Allocator, ghost h: Shape, ghost used: set<Node>)
    returns (newitem: Node, ghost copy: Shape, ghost made: set<Node>, ghost gained: set<object>)
    requires Tree(h) && h.node == item && Nodes(h) <= used
    modifies heap
    ensures copy.node == newitem && newitem in made && newitem.next == null && newitem.prev == null
    ensures Tree(copy) && Disjoint(copy) && made == Nodes(copy) && fresh(made) && made !! used
    ensures OwnedOnceBy(copy) && OwnedBy(copy) == gained && fresh(gained) && heap.live == old(heap.live) + gained
    ensures Entry(copy) == Entry(h)
    decreases h, 1
  {
    hide Trees, DisjointAll, Below, Roots, Linked, NodesOf, Values, MemberValues, Owned, OwnedOnce, OwnBlocks;
    TreeParts(h);
    newitem := CopyItem(item, heap);
    ghost var own, hs := OwnBlocks(newitem), [];
    hs, made, gained := DuplicateChildren(item, newitem, heap, h, used);
    copy, made, gained := Shape(newitem, hs), made + {newitem}, own + gained;
  }

  /** The loop over the children. */
  method DuplicateChildren(item: Node, newitem: Node, heap: Allocator, ghost h: Shape, ghost used: set<Node>)
    returns (ghost hs: seq<Shape>, ghost made: set<Node>, ghost gained: set<object>)
    requires Tree(h) && h.node == item && Nodes(h) <= used && newitem !in used
    requires newitem.child == null
    modifies heap, newitem`child
    ensures Tree(Shape(newitem, hs)) && Disjoint(Shape(newitem, hs)) && Nodes(Shape(newitem, hs)) == made + {newitem}
    ensures fresh(made) && made !! used
    ensures OwnedOnce(hs) && Owned(hs) == gained && fresh(gained) && heap.live == old(heap.live) + gained
    ensures Values(hs) == Values(h.kids) && MemberValues(hs) == MemberValues(h.kids)
    decreases h, 0
  {
    hide Copied, Built, Tree, Disjoint, DisjointAll, Nodes, NodesOf, Linked, Roots, Values, MemberValues, Trees,
         Owned, OwnedOnce, Grown, Growing, Chain, Below, Children;
    hs, made, gained := [], {}, {};
    ghost var ks, xs := h.kids, Roots(h.kids);
    var child, next: Node? := item.child, null;
    ghost var i := 0;
    TreeParts(h);
    NothingBuilt(newitem, ks);
    while child != null
      invariant 0 <= i <= |ks| && child == (if i < |ks| then ks[i].node else null)
      invariant Trees(ks) && Linked(item.child, xs)
      invariant Built(newitem, hs, made, gained, next) && fresh(made) && made !! used && (next != null ==> next in made)
      invariant fresh(gained) && heap.live == old(heap.live) + gained
      invariant Copied(ks, i, hs)
      decreases |ks| - i
    {
      next, hs, made, gained := DuplicateNext(child, newitem, heap, next, ks, i, hs, made, gained, used);
      Neighbours(item.child, xs, i);
      child := child.next;
      i := i + 1;
    }
    BuiltAll(ks, hs, newitem, next, made, gained);
    CloseList(newitem, newitem.child, next, hs, made);
  }

  /** One round of the loop: a recursive copy, hung behind the previous one. */
  method DuplicateNext(child: Node, newitem: Node, heap: Allocator, last: Node?, ghost ks: seq<Shape>, ghost i: nat,
                       ghost hs: seq<Shape>, ghost made: set<Node>, ghost gained: set<object>, ghost used: set<Node>)
    returns (newchild: Node, ghost hs': seq<Shape>, ghost made': set<Node>, ghost gained': set<object>)
    requires i < |ks| && child == ks[i].node && Trees(ks) && NodesOf(ks) <= used && newitem !in used
    requires Built(newitem, hs, made, gained, last) && made !! used && (last != null ==> last in made)
    requires Copied(ks, i, hs)
    modifies heap, newitem`child, The(last)`next
    ensures Built(newitem, hs', made', gained', newchild) && newchild in made'
    ensures made <= made' && fresh(made' - made) && made' !! used
    ensures gained <= gained' && fresh(gained' - gained) && heap.live == old(heap.live) + (gained' - gained)
    ensures Copied(ks, i + 1, hs')
    decreases ks[i], 2
  {
    hide Copied, Built, Tree, Disjoint, Nodes, NodesOf, Linked, Roots, Values, MemberValues, Trees, OwnedBy,
         OwnedOnceBy;
    TreesAt(ks, i);
    BuiltNodes(newitem, hs, made, gained, last);
    ghost var hc, more, gain;
    newchild, hc, more, gain := DuplicateTree(child, heap, ks[i], used + made + {newitem});
    Attach(newitem, last, newchild, hs, hc, made, more, gained, gain);
    CopiedSnoc(ks, i, hs, hc);
    hs', made', gained' := hs + [hc], made + more, gained + gain;
  }

  lemma {:induction false} CopiedSnoc(ks: seq<Shape>, i: nat, hs: seq<Shape>, hc: Shape)
    requires i < |ks| && Copied(ks, i, hs) && Entry(hc) == Entry(ks[i])
    ensures Copied(ks, i + 1, hs + [hc])
  {
    ValuesSnoc(hs, hc);
    ValuesAt(ks, i);
    assert Values(ks)[..i + 1] == Values(ks)[..i] + [Values(ks)[i]];
    assert MemberValues(ks)[..i + 1] == MemberValues(ks)[..i] + [MemberValues(ks)[i]];
  }

  lemma {:induction false} BuiltNodes(parent: Node, hs: seq<Shape>, made: set<Node>, gained: set<object>, last: Node?)
    requires Built(parent, hs, made, gained, last)
    ensures made == NodesOf(hs) && parent !in made
  {
  }

  lemma NothingBuilt(parent: Node, ks: seq<Shape>)
    requires parent.child == null
    ensures Built(parent, [], {}, {}, null) && Copied(ks, 0, [])
  {
  }

  lemma {:induction false} BuiltAll(ks: seq<Shape>, hs: seq<Shape>, parent: Node, last: Node?,
                                              made: set<Node>, gained: set<object>)
    requires Built(parent, hs, made, gained, last) && Copied(ks, |ks|, hs)
    ensures Values(hs) == Values(ks) && MemberValues(hs) == MemberValues(ks)
    ensures Growing(parent.child, last, hs, made) && parent !in made && NodesOf(hs) == made
    ensures OwnedOnce(hs) && Owned(hs) == gained
    ensures parent.child != null ==> parent.child in made
  {
    assert Values(ks)[..|ks|] == Values(ks) && MemberValues(ks)[..|ks|] == MemberValues(ks);
    if hs != [] {
      assert Roots(hs)[0] in Roots(hs);
    }
  }

  /**
   `cJSON_Duplicate`. A recursive copy consists of new nodes only, owns new blocks only, forms a tree, and has
   the value and the name of its source; a flat copy has the source's own fields and no children.
   */
  method CJSONDuplicate(item: Node?, recurse: bool, heap: Allocator, ghost h: Shape, ghost used: set<Node>)
    returns (newitem: Node?, ghost copy: Shape, ghost made: set<Node>)
    requires item != null ==> Tree(h) && h.node == item && Nodes(h) <= used
    modifies heap
    ensures newitem == null <==> item == null
    ensures newitem == null ==> heap.live == old(heap.live)
    ensures newitem != null ==>
              && copy.node == newitem && newitem.next == null && newitem.prev == null
              && Tree(copy) && Disjoint(copy) && made == Nodes(copy) && fresh(made) && made !! used
              && OwnedOnceBy(copy) && fresh(OwnedBy(copy)) && heap.live == old(heap.live) + OwnedBy(copy)
              && TextOf(newitem.name) == TextOf(item.name) && newitem.kind == item.kind
    ensures newitem != null && recurse ==> Entry(copy) == Entry(h)
    ensures newitem != null && !recurse ==> copy.kids == [] && Value(copy) == Value(Shape(item, []))
  {
    hide Tree, Disjoint, Nodes, Value, Entry, OwnedBy, OwnedOnceBy, OwnBlocks;
    copy, made := h, {};
    if item == null {
      return null, copy, made;
    }
    if recurse {
      ghost var gained;
      newitem, copy, made, gained := DuplicateTree(item, heap, h, used);
      EntryFields(copy, h);
    } else {
      newitem := CopyItem(item, heap);
      copy, made := Shape(newitem, []), {newitem};
      FlatCopy(item, newitem);
    }
  }

  lemma FlatCopy(item: Node, newitem: Node)
    requires newitem.child == null && !newitem.isReference && StringsApart(newitem)
    requires newitem.kind == item.kind && newitem.valuedouble == item.valuedouble
    requires TextOf(newitem.valuestring) == TextOf(item.valuestring)
    ensures var copy := Shape(newitem, []);
            && Tree(copy) && Disjoint(copy) && Nodes(copy) == {newitem} && OwnedOnceBy(copy)
              && OwnedBy(copy) == OwnBlocks(newitem)
            && Value(copy) == Value(Shape(item, []))
  {
  }

  /** Equal entries come from nodes of equal kind and name. */
  lemma {:induction false} EntryFields(a: Shape, b: Shape)
    requires Entry(a) == Entry(b)
    ensures TextOf(a.node.name) == TextOf(b.node.name) && a.node.kind == b.node.kind
  {
    hide Values, MemberValues;
  }
}
