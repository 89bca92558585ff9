/**
 `cJSON_Delete` and the operations that use it: what is freed, and that it is freed once.
 */
module Delete {
  import opened SiblingList
  import opened Allocation
  import opened HeapTree

  /** The blocks of one item itself: the item, its value string and its name, as far as it owns them. */
  ghost function OwnBlocks(n: Node): set<object>
    reads n`isReference, n`stringIsConst, n`valuestring, n`name
  {
    {n}
    + (if n.isReference || n.valuestring == null then {} else {n.valuestring})
    + (if n.stringIsConst || n.name == null then {} else {n.name})
  }

  /** What `cJSON_Delete` has to free for a tree: a reference owns neither string nor children. */
  ghost function OwnedBy(h: Shape): set<object>
    reads Nodes(h)`isReference, Nodes(h)`stringIsConst, Nodes(h)`valuestring, Nodes(h)`name
  {
    OwnBlocks(h.node) + if h.node.isReference then {} else Owned(h.kids)
  }

  ghost function Owned(ks: seq<Shape>): set<object>
    reads NodesOf(ks)`isReference, NodesOf(ks)`stringIsConst, NodesOf(ks)`valuestring, NodesOf(ks)`name
  {
    if ks == [] then {} else OwnedBy(ks[0]) + Owned(ks[1..])
  }

  /** No block is owned twice. */
  ghost predicate OwnedOnceBy(h: Shape)
    reads Nodes(h)`isReference, Nodes(h)`stringIsConst, Nodes(h)`valuestring, Nodes(h)`name
  {
    && StringsApart(h.node)
    && (!h.node.isReference ==> OwnedOnce(h.kids) && OwnBlocks(h.node) !! Owned(h.kids))
  }

  ghost predicate StringsApart(n: Node)
    reads n`isReference, n`stringIsConst, n`valuestring, n`name
  {
    !n.isReference && n.valuestring != null && !n.stringIsConst && n.name != null ==> n.valuestring != n.name
  }

  ghost predicate OwnedOnce(ks: seq<Shape>)
    reads NodesOf(ks)`isReference, NodesOf(ks)`stringIsConst, NodesOf(ks)`valuestring, NodesOf(ks)`name
  {
    ks != [] ==> OwnedOnceBy(ks[0]) && OwnedBy(ks[0]) !! Owned(ks[1..]) && OwnedOnce(ks[1..])
  }

  /** The children of an owner are a list that can be followed, and so on below. */
  ghost predicate Followed(h: Shape)
    reads Nodes(h)`isReference, Nodes(h)`child, NodesOf(h.kids)`next
    decreases h
  {
    !h.node.isReference ==> StartsList(h.node.child, h.kids)
  }

  /** `item` starts the list of the trees `ks`, followed through `next`. */
  ghost predicate StartsList(item: Node?, ks: seq<Shape>)
    reads NodesOf(ks)`isReference, NodesOf(ks)`child, NodesOf(ks)`next
    decreases ks
  {
    if ks == [] then item == null
    else item == ks[0].node && Followed(ks[0]) && StartsList(ks[0].node.next, ks[1..])
  }

  /**
   `cJSON_Delete`: frees exactly what the list owns, each block once, and reads no field of a freed block.
   `used` is any set of nodes that holds those of the list.
   */
  method CJSONDelete(item: Node?, ghost ks: seq<Shape>, heap: Allocator, ghost used: set<Node>)
    requires StartsList(item, ks) && OwnedOnce(ks) && Owned(ks) <= heap.live && NodesOf(ks) <= used
    modifies heap
    ensures heap.live == old(heap.live) - Owned(ks)
    decreases ks
  {
    hide StartsList, OwnedOnce, Owned, NodesOf;
    var current := item;
    ghost var rest, i := ks, 0;
    StartsListParts(current, rest);
    while current != null
      invariant StartsList(current, rest) && OwnedOnce(rest) && Owned(rest) <= heap.live
      invariant NodesOf(rest) <= used && (current == null <==> rest == [])
      invariant heap.live - Owned(rest) == old(heap.live) - Owned(ks)
      invariant 0 <= i <= |ks| && rest == ks[i..]
      decreases |rest|
    {
      current, rest := DeleteFirst(current, rest, heap, used);
      i := i + 1;
      StartsListParts(current, rest);
    }
    StartsListParts(current, rest);
  }

  /** One round of the loop. */
  method DeleteFirst(item: Node, ghost ks: seq<Shape>, heap: Allocator, ghost used: set<Node>)
    returns (next: Node?, ghost rest: seq<Shape>)
    requires ks != [] && StartsList(item, ks) && OwnedOnce(ks) && Owned(ks) <= heap.live && NodesOf(ks) <= used
    modifies heap
    ensures rest == ks[1..] && StartsList(next, rest) && OwnedOnce(rest) && Owned(rest) <= heap.live
    ensures NodesOf(rest) <= used
    ensures heap.live - Owned(rest) == old(heap.live) - old(Owned(ks))
    decreases ks[0], 1
  {
    hide OwnedBy, OwnedOnceBy, Followed, Nodes;
    FirstParts(item, ks);
    rest := ks[1..];
    assert item in heap.live;
    next := item.next;
    DeleteChildren(item, ks[0], heap, used);
    FreeItem(item, heap);
  }

  lemma {:induction false} FirstParts(item: Node, ks: seq<Shape>)
    requires ks != [] && StartsList(item, ks) && OwnedOnce(ks)
    ensures item == ks[0].node && Followed(ks[0]) && StartsList(item.next, ks[1..])
    ensures OwnedOnceBy(ks[0])
            && OwnedBy(ks[0]) == OwnBlocks(item) + (if item.isReference then {} else Owned(ks[0].kids))
    ensures !item.isReference ==> OwnBlocks(item) !! Owned(ks[0].kids)
    ensures StringsApart(item) && OwnedBy(ks[0]) !! Owned(ks[1..]) && OwnedOnce(ks[1..])
    ensures Owned(ks) == OwnedBy(ks[0]) + Owned(ks[1..])
    ensures NodesOf(ks) == Nodes(ks[0]) + NodesOf(ks[1..]) && NodesOf(ks[0].kids) <= Nodes(ks[0])
  {
    hide Followed;
  }

  method DeleteChildren(item: Node, ghost h: Shape, heap: Allocator, ghost used: set<Node>)
    requires item == h.node && Followed(h) && OwnedOnceBy(h) && OwnedBy(h) <= heap.live && NodesOf(h.kids) <= used
    modifies heap
    ensures heap.live == if item.isReference then old(heap.live) else old(heap.live - Owned(h.kids))
    decreases h, 0
  {
    hide OwnedOnce, NodesOf, StartsList, Owned;
    if !item.isReference {
      StartsListParts(item.child, h.kids);
      if item.child != null {
        CJSONDelete(item.child, h.kids, heap, used);
      }
    }
  }

  lemma {:induction false} StartsListParts(item: Node?, ks: seq<Shape>)
    requires StartsList(item, ks)
    ensures item == null <==> ks == []
    ensures ks == [] ==> Owned(ks) == {}
    ensures ks != [] ==> item == ks[0].node && Owned(ks) == OwnedBy(ks[0]) + Owned(ks[1..])
  {
  }

  /** The blocks of one item. */
  method FreeItem(item: Node, heap: Allocator)
    requires OwnBlocks(item) <= heap.live
    requires StringsApart(item)
    modifies heap
    ensures heap.live == old(heap.live) - OwnBlocks(item)
  {
    if !item.isReference && item.valuestring != null {
      heap.Free(item.valuestring);
    }
    if !item.stringIsConst && item.name != null {
      heap.Free(item.name);
    }
    assert item in heap.live;
    heap.Free(item);
  }

  // ---------------------------------------------------------------- deleting one element

  /** A sibling list of trees can be followed from any of its positions. */
  lemma {:induction false} LinkedStarts(head: Node?, ks: seq<Shape>, i: nat)
    requires Linked(head, Roots(ks)) && Trees(ks) && i <= |ks|
    ensures StartsList(if i < |ks| then ks[i].node else null, ks[i..])
    decreases ks, |ks| - i
  {
    hide Linked, Trees;
    if i == |ks| {
    } else {
      Neighbours(head, Roots(ks), i);
      LinkedStarts(head, ks, i + 1);
      TreesAt(ks, i);
      TreeFollowed(ks[i]);
      assert ks[i..][1..] == ks[i + 1..];
    }
  }

  lemma {:induction false} TreeFollowed(h: Shape)
    requires Tree(h)
    ensures Followed(h)
    decreases h
  {
    hide Linked, Trees, StartsList;
    TreeParts(h);
    LinkedStarts(h.node.child, h.kids, 0);
    assert h.kids[0..] == h.kids;
  }

  lemma {:induction false} RemoveRoots(ks: seq<Shape>, k: nat)
    requires k < |ks|
    ensures Roots(Remove(ks, k)) == Remove(Roots(ks), k)
    decreases k
  {
    RemoveAhead(ks, k);
    RemoveAhead(Roots(ks), k);
    if k == 0 {
    } else {
      RemoveRoots(ks[1..], k - 1);
    }
  }

  lemma {:induction false} RemoveTree(ks: seq<Shape>, k: nat)
    requires k < |ks| && Trees(ks)
    ensures Trees(Remove(ks, k)) && Tree(ks[k])
    decreases k
  {
    hide Tree;
    RemoveAhead(ks, k);
    if k == 0 {
    } else {
      RemoveTree(ks[1..], k - 1);
    }
  }

  lemma RemoveAhead<T>(ks: seq<T>, k: nat)
    requires k < |ks|
    ensures if k == 0 then Remove(ks, k) == ks[1..]
            else Remove(ks, k) == [ks[0]] + Remove(ks[1..], k - 1) && Remove(ks, k)[1..] == Remove(ks[1..], k - 1)
  {
  }

  lemma {:induction false} RemoveNodes(ks: seq<Shape>, k: nat)
    requires k < |ks|
    ensures NodesOf(Remove(ks, k)) <= NodesOf(ks) && Below(Remove(ks, k)) <= NodesOf(Remove(ks, k))
    decreases k
  {
    hide Nodes;
    RemoveAhead(ks, k);
    if k == 0 {
    } else {
      RemoveNodes(ks[1..], k - 1);
    }
  }

  lemma {:induction false} RemoveDisjoint(ks: seq<Shape>, k: nat)
    requires k < |ks| && DisjointAll(ks)
    ensures DisjointAll(Remove(ks, k)) && NodesOf(Remove(ks, k)) <= NodesOf(ks)
    decreases k
  {
    hide Disjoint, Nodes;
    RemoveAhead(ks, k);
    if k == 0 {
    } else {
      RemoveDisjoint(ks[1..], k - 1);
    }
  }

  lemma {:induction false} RemoveValue(ks: seq<Shape>, k: nat)
    requires k < |ks|
    ensures Values(Remove(ks, k)) == Remove(Values(ks), k)
    ensures MemberValues(Remove(ks, k)) == Remove(MemberValues(ks), k)
    decreases k
  {
    hide Value;
    RemoveAhead(ks, k);
    RemoveAhead(Values(ks), k);
    RemoveAhead(MemberValues(ks), k);
    if k == 0 {
    } else {
      RemoveValue(ks[1..], k - 1);
    }
  }

  lemma {:induction false} RemoveOwned(ks: seq<Shape>, k: nat)
    requires k < |ks| && OwnedOnce(ks)
    ensures Owned(ks) == OwnedBy(ks[k]) + Owned(Remove(ks, k))
    ensures OwnedOnceBy(ks[k]) && OwnedBy(ks[k]) !! Owned(Remove(ks, k)) && OwnedOnce(Remove(ks, k))
    decreases k
  {
    hide OwnedBy, OwnedOnceBy;
    RemoveAhead(ks, k);
    if k == 0 {
    } else {
      RemoveOwned(ks[1..], k - 1);
    }
  }

  /** The item that detaching has cut out is a list of its own. */
  lemma {:induction false} CutOut(h: Shape)
    requires Tree(h) && OwnedOnceBy(h) && h.node.next == null
    ensures StartsList(h.node, [h]) && OwnedOnce([h]) && Owned([h]) == OwnedBy(h) && NodesOf([h]) == Nodes(h)
  {
    hide Tree, OwnedBy, OwnedOnceBy, Followed;
    TreeFollowed(h);
    assert [h][1..] == [];
  }

  /** What the list operations leave alone: everything below the roots, and what the nodes own. */
  lemma {:induction false} RootsNotBelow(h: Shape, k: nat)
    requires Tree(h) && Disjoint(h) && k < |h.kids|
    ensures h.node !in NodesOf(h.kids) && Below(h.kids) <= NodesOf(h.kids) <= Nodes(h)
    ensures forall x :: x in Roots(h.kids) ==> x in NodesOf(h.kids) && x !in Below(h.kids)
    ensures Children(h.node, Roots(h.kids)) && Trees(h.kids)
    ensures Nodes(h.kids[k]) <= NodesOf(h.kids) && Roots(h.kids)[k] == h.kids[k].node
  {
    hide Nodes;
    RootsApart(h.kids);
    TreesAt(h.kids, k);
    assert NodesOf(h.kids) <= Nodes(h) by { NodesParts(h); }
  }

  lemma {:induction false} NodesParts(h: Shape)
    ensures Nodes(h) == {h.node} + NodesOf(h.kids)
  {
  }

  /**
   `cJSON_DeleteItemFromArray`: the element is gone from the tree and its blocks are freed; the other
   elements keep their place, their trees, their values and their blocks.
   */
  method DeleteItemFromArray(parent: Node?, which: int, ghost h: Shape, heap: Allocator, ghost used: set<Node>)
    requires parent != null ==>
               && h.node == parent && Tree(h) && Disjoint(h) && Nodes(h) <= used
               && OwnedOnce(h.kids) && Owned(h.kids) <= heap.live
    modifies The(parent)`child, (if parent == null then [] else Roots(h.kids))`next,
             (if parent == null then [] else Roots(h.kids))`prev, heap
    ensures parent == null || which < 0 || which >= |h.kids| ==>
              heap.live == old(heap.live) && (parent != null ==> Tree(h))
    ensures parent != null && 0 <= which < |h.kids| ==>
              var left := Remove(h.kids, which);
              && Tree(Shape(parent, left)) && Disjoint(Shape(parent, left))
              && Values(left) == Remove(old(Values(h.kids)), which)
              && MemberValues(left) == Remove(old(MemberValues(h.kids)), which)
              && heap.live == old(heap.live - OwnedBy(h.kids[which]))
              && Owned(left) <= heap.live && OwnedOnce(left)
  {
    hide Tree, Trees, Disjoint, Nodes, NodesOf, Below, Owned, OwnedBy, OwnedOnce, OwnedOnceBy, Values, MemberValues,
         StartsList, Children;
    if parent == null || which < 0 {
      return;
    }
    TreeRoots(h);
    if which < |h.kids| {
      RootsNotBelow(h, which);
    }
    var item := GetArrayItem(parent, which, Roots(h.kids));
    if item != null {
      DeleteElement(parent, item, h, which, heap, used);
    }
  }

  method DeleteElement(parent: Node, item: Node, ghost h: Shape, ghost k: nat, heap: Allocator, ghost used: set<Node>)
    requires h.node == parent && Tree(h) && Disjoint(h) && Nodes(h) <= used
    requires OwnedOnce(h.kids) && Owned(h.kids) <= heap.live
    requires k < |h.kids| && item == h.kids[k].node
    modifies parent`child, Roots(h.kids)`next, Roots(h.kids)`prev, heap
    ensures var left := Remove(h.kids, k);
            && Tree(Shape(parent, left)) && Disjoint(Shape(parent, left))
            && Values(left) == Remove(old(Values(h.kids)), k)
            && MemberValues(left) == Remove(old(MemberValues(h.kids)), k)
            && heap.live == old(heap.live - OwnedBy(h.kids[k]))
            && Owned(left) <= heap.live && OwnedOnce(left)
  {
    hide Tree, Trees, Disjoint, Nodes, NodesOf, Below, Owned, OwnedBy, OwnedOnce, OwnedOnceBy, Values, MemberValues,
         StartsList, Children, Roots;
    RootsNotBelow(h, k);
    var detached := DetachItemViaPointer(parent, item, Roots(h.kids), k);
    RemoveTree(h.kids, k);
    RemoveOwned(h.kids, k);
    RemoveValue(h.kids, k);
    RemovedTree(h, k);
    RemoveNodes(h.kids, k);
    CutOut(h.kids[k]);
    FreeDetached(detached, h, k, heap, used);
  }

  method FreeDetached(detached: Node, ghost h: Shape, ghost k: nat, heap: Allocator, ghost used: set<Node>)
    requires k < |h.kids| && StartsList(detached, [h.kids[k]]) && OwnedOnce([h.kids[k]])
    requires Owned([h.kids[k]]) == OwnedBy(h.kids[k]) <= heap.live && NodesOf([h.kids[k]]) <= used
    modifies heap
    ensures heap.live == old(heap.live - OwnedBy(h.kids[k]))
  {
    CJSONDelete(detached, [h.kids[k]], heap, used);
  }

  lemma {:induction false} TreeRoots(h: Shape)
    requires Tree(h)
    ensures Children(h.node, Roots(h.kids)) && h.node in Nodes(h)
    ensures NodesOf(h.kids) <= Nodes(h) && Below(h.kids) <= NodesOf(h.kids)
  {
  }

  lemma {:induction false} RemovedTree(h: Shape, k: nat)
    requires k < |h.kids| && Trees(h.kids) && Children(h.node, Remove(Roots(h.kids), k)) && Disjoint(h)
    ensures Tree(Shape(h.node, Remove(h.kids, k))) && Disjoint(Shape(h.node, Remove(h.kids, k)))
  {
    hide Linked, Trees, DisjointAll;
    RemoveTree(h.kids, k);
    RemoveRoots(h.kids, k);
    RemoveDisjoint(h.kids, k);
  }

  // ---------------------------------------------------------------- replacing one element

  lemma UpdateAhead<T>(ks: seq<T>, k: nat, x: T)
    requires k < |ks|
    ensures if k == 0 then ks[k := x] == [x] + ks[1..] && ks[k := x][1..] == ks[1..]
            else ks[k := x] == [ks[0]] + ks[1..][k - 1 := x] && ks[k := x][1..] == ks[1..][k - 1 := x]
  {
  }

  lemma {:induction false} UpdateRoots(ks: seq<Shape>, k: nat, h: Shape)
    requires k < |ks|
    ensures Roots(ks[k := h]) == Roots(ks)[k := h.node]
  {
  }

  lemma {:induction false} UpdateTrees(ks: seq<Shape>, k: nat, h: Shape)
    requires k < |ks| && Trees(ks) && Tree(h)
    ensures Trees(ks[k := h])
    decreases k
  {
    hide Tree;
    UpdateAhead(ks, k, h);
    if k == 0 {
    } else {
      UpdateTrees(ks[1..], k - 1, h);
    }
  }

  lemma {:induction false} UpdateDisjoint(ks: seq<Shape>, k: nat, h: Shape)
    requires k < |ks| && DisjointAll(ks) && Disjoint(h) && Nodes(h) !! NodesOf(ks)
    ensures DisjointAll(ks[k := h]) && NodesOf(ks[k := h]) <= NodesOf(ks) + Nodes(h)
    decreases k
  {
    hide Disjoint, Nodes;
    UpdateAhead(ks, k, h);
    if k == 0 {
    } else {
      UpdateDisjoint(ks[1..], k - 1, h);
    }
  }

  lemma {:induction false} UpdateValues(ks: seq<Shape>, k: nat, h: Shape)
    requires k < |ks|
    ensures Values(ks[k := h]) == Values(ks)[k := Value(h)]
    ensures MemberValues(ks[k := h]) == MemberValues(ks)[k := Entry(h)]
    decreases k
  {
    hide Value, Entry;
    UpdateAhead(ks, k, h);
    UpdateAhead(Values(ks), k, Value(h));
    UpdateAhead(MemberValues(ks), k, Entry(h));
    if k == 0 {
    } else {
      UpdateValues(ks[1..], k - 1, h);
    }
  }

  lemma {:induction false} UpdateOwned(ks: seq<Shape>, k: nat, h: Shape)
    requires k < |ks| && OwnedOnce(ks) && OwnedOnceBy(h) && OwnedBy(h) !! Owned(ks)
    ensures OwnedOnce(ks[k := h]) && Owned(ks[k := h]) == Owned(ks) - OwnedBy(ks[k]) + OwnedBy(h)
    ensures OwnedOnceBy(ks[k]) && OwnedBy(ks[k]) <= Owned(ks)
    decreases k
  {
    hide OwnedBy, OwnedOnceBy;
    UpdateAhead(ks, k, h);
    if k == 0 {
    } else {
      UpdateOwned(ks[1..], k - 1, h);
    }
  }

  /** The tree with one child exchanged. */
  ghost function Exchanged(h: Shape, k: nat, hr: Shape): Shape
    requires k < |h.kids|
  {
    Shape(h.node, h.kids[k := hr])
  }

  /** A tree and, apart from it, one that can take the place of a child. */
  ghost predicate Apart(h: Shape, hr: Shape, used: set<Node>)
    reads used
  {
    && Nodes(h) <= used && Nodes(hr) <= used && Nodes(h) !! Nodes(hr)
    && Tree(h) && Disjoint(h) && Tree(hr) && Disjoint(hr)
    && OwnedOnce(h.kids) && OwnedOnceBy(hr) && OwnedBy(hr) !! Owned(h.kids)
  }

  /** What the pointer assignments need to know, and what they do not disturb. */
  lemma {:induction false} ApartParts(h: Shape, hr: Shape, used: set<Node>, k: nat)
    requires Apart(h, hr, used) && k < |h.kids|
    ensures var xs := Roots(h.kids);
            && Children(h.node, xs) && xs[k] == h.kids[k].node
            && hr.node !in xs && hr.node != h.node && h.node !in NodesOf(h.kids)
            && forall x :: x in xs ==> x !in Below(h.kids) && x !in Nodes(hr)
    ensures Trees(h.kids) && Nodes(hr) == {hr.node} + NodesOf(hr.kids) && hr.node !in NodesOf(hr.kids)
    ensures Tree(hr) && OwnedOnce(h.kids) && OwnedOnceBy(hr) && OwnedBy(hr) !! Owned(h.kids)
    ensures Nodes(hr) <= used && h.node !in Nodes(hr) && Disjoint(h) && Disjoint(hr) && Nodes(h) !! Nodes(hr)
    ensures Below(h.kids) <= NodesOf(h.kids) <= used && NodesOf(h.kids) !! Nodes(hr)
    ensures Nodes(h.kids[k]) <= used
  {
    hide Linked, Trees, DisjointAll;
    RootsApart(h.kids);
    TreesAt(h.kids, k);
  }

  lemma {:induction false} ExchangedTree(h: Shape, k: nat, hr: Shape)
    requires k < |h.kids| && Trees(h.kids) && Tree(hr) && Children(h.node, Roots(h.kids)[k := hr.node])
    requires Disjoint(h) && Disjoint(hr) && Nodes(h) !! Nodes(hr)
    ensures Tree(Exchanged(h, k, hr)) && Disjoint(Exchanged(h, k, hr)) && Tree(h.kids[k])
    ensures NodesOf(Exchanged(h, k, hr).kids) <= NodesOf(h.kids) + Nodes(hr)
  {
    hide Linked, DisjointAll, Trees;
    UpdateRoots(h.kids, k, hr);
    UpdateTrees(h.kids, k, hr);
    UpdateDisjoint(h.kids, k, hr);
    TreesAt(h.kids, k);
  }

  method ReplaceElement(parent: Node, item: Node, replacement: Node, ghost h: Shape, ghost k: nat, ghost hr: Shape,
                        heap: Allocator, ghost used: set<Node>)
    requires h.node == parent && k < |h.kids| && h.kids[k].node == item && replacement != item
    requires hr.node == replacement && Apart(h, hr, used) && OwnedBy(hr) + Owned(h.kids) <= heap.live
    modifies parent`child, replacement`next, replacement`prev, Roots(h.kids)`next, Roots(h.kids)`prev, heap
    ensures var kids := h.kids[k := hr];
            && Tree(Exchanged(h, k, hr)) && Disjoint(Exchanged(h, k, hr))
            && Values(kids) == old(Values(h.kids))[k := old(Value(hr))]
            && MemberValues(kids) == old(MemberValues(h.kids))[k := old(Entry(hr))]
            && heap.live == old(heap.live - OwnedBy(h.kids[k]))
            && Owned(kids) <= heap.live && OwnedOnce(kids)
  {
    hide Tree, Trees, Disjoint, DisjointAll, Nodes, NodesOf, Below, Owned, OwnedBy, OwnedOnce, OwnedOnceBy, Values,
         Value, Entry, MemberValues, StartsList, Children, Roots, Apart;
    ApartParts(h, hr, used, k);
    var ok := ReplaceItemViaPointer(parent, item, replacement, Roots(h.kids), k);
    ExchangedTree(h, k, hr);
    UpdateOwned(h.kids, k, hr);
    UpdateValues(h.kids, k, hr);
    CutOut(h.kids[k]);
    CJSONDelete(item, [h.kids[k]], heap, used);
  }

  /**
   `cJSON_ReplaceItemViaPointer` with its deletion: the replacement's tree stands in the place of the item's,
   whose blocks are freed; all other children keep their trees, values and blocks.
   */
  method ReplaceItem(parent: Node?, item: Node?, replacement: Node?, ghost h: Shape, ghost k: nat, ghost hr: Shape,
                     heap: Allocator, ghost used: set<Node>)
    returns (ok: bool)
    requires parent != null && item != null ==>
               h.node == parent && k < |h.kids| && h.kids[k].node == item && Children(parent, Roots(h.kids))
    requires parent != null && item != null && replacement != null && replacement != item ==>
               hr.node == replacement && Apart(h, hr, used) && OwnedBy(hr) + Owned(h.kids) <= heap.live
    modifies The(parent)`child, The(replacement)`next, The(replacement)`prev, heap,
             (if parent == null || item == null then [] else Roots(h.kids))`next,
             (if parent == null || item == null then [] else Roots(h.kids))`prev
    ensures ok <==> parent != null && replacement != null && item != null
    ensures !ok || replacement == item ==> heap.live == old(heap.live)
    ensures parent != null && item != null && (!ok || replacement == item) ==> Children(parent, Roots(h.kids))
    ensures ok && replacement != item ==>
              var kids := h.kids[k := hr];
              && Tree(Exchanged(h, k, hr)) && Disjoint(Exchanged(h, k, hr))
              && Values(kids) == old(Values(h.kids))[k := old(Value(hr))]
              && MemberValues(kids) == old(MemberValues(h.kids))[k := old(Entry(hr))]
              && heap.live == old(heap.live - OwnedBy(h.kids[k]))
              && Owned(kids) <= heap.live && OwnedOnce(kids)
  {
    hide Tree, Trees, Disjoint, DisjointAll, Nodes, NodesOf, Below, Owned, OwnedBy, OwnedOnce, OwnedOnceBy, Values,
         Value, Entry, MemberValues, StartsList, Children, Roots, Apart;
    if parent != null && item != null && replacement != null && replacement != item {
      ReplaceElement(parent, item, replacement, h, k, hr, heap, used);
      return true;
    }
    ghost var xs := if parent == null || item == null then [] else Roots(h.kids);
    ok := ReplaceItemViaPointer(parent, item, replacement, xs, k);
    assert ok ==> xs[k := item] == xs;
  }

  // ---------------------------------------------------------------- references

  /** `create_reference`: an item of its own that shows the value of another one. */
  method CreateReference(item: Node, heap: Allocator) returns (reference: Node)
    modifies heap
    ensures fresh(reference) && heap.live == old(heap.live) + {reference}
    ensures reference.isReference && reference.name == null && reference.next == null && reference.prev == null
    ensures reference.kind == item.kind && reference.valuestring == item.valuestring
    ensures reference.valuedouble == item.valuedouble && reference.child == item.child
    ensures reference.stringIsConst == item.stringIsConst
  {
    reference := heap.NewItem();
    reference.child, reference.kind := item.child, item.kind;
    reference.isReference, reference.stringIsConst := item.isReference, item.stringIsConst;
    reference.valuestring, reference.valuedouble, reference.name := item.valuestring, item.valuedouble, item.name;
    reference.name := null;
    reference.isReference := true;
    reference.next, reference.prev := null, null;
  }

  lemma {:induction false} AloneInList(h: Shape)
    requires h.kids == [] && h.node.isReference && h.node.name == null && h.node.next == null
    ensures StartsList(h.node, [h]) && OwnedOnce([h]) && Owned([h]) == {h.node} && NodesOf([h]) == {h.node}
  {
    var none: seq<Shape> := [];
    assert [h][1..] == none;
    assert OwnedOnce(none) && Owned(none) == {} && NodesOf(none) == {};
    assert OwnedBy(h) == {h.node} && Nodes(h) == {h.node};
  }

  /** Deleting a reference frees none of what it shows, whatever that is. */
  method ReferenceThenDelete(item: Node, heap: Allocator)
    modifies heap
    ensures heap.live == old(heap.live)
  {
    var reference := CreateReference(item, heap);
    ghost var h := Shape(reference, []);
    AloneInList(h);
    CJSONDelete(reference, [h], heap, {reference});
    assert old(heap.live) + {reference} - {reference} == old(heap.live);
  }
}
