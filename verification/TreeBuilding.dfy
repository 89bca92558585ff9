/**
 Growing a list of item trees at its end, as the parser and `cJSON_Duplicate` do: the head's `prev` is
 set only when the list is complete.
 */
module TreeBuilding {
  import opened SiblingList
  import opened HeapTree
  import opened Delete

  /** `xs` linked in both directions, but the head's `prev` not yet closed. */
  ghost predicate Chain(xs: seq<Node>)
    reads xs`next, xs`prev
  {
    && Distinct(xs)
    && (xs != [] ==> xs[|xs| - 1].next == null)
    && (forall i {:trigger xs[i].next} :: 0 <= i < |xs| - 1 ==> xs[i].next == xs[i + 1])
    && (forall i {:trigger xs[i].prev} :: 1 <= i < |xs| ==> xs[i].prev == xs[i - 1])
  }

  /** The trees `hs`, made of the nodes `made`, from `head` to `last`. */
  ghost predicate Growing(head: Node?, last: Node?, hs: seq<Shape>, made: set<Node>)
    reads made`child, made`next, made`prev
  {
    && made == NodesOf(hs) && Below(hs) <= made
    && DisjointAll(hs) && Trees(hs) && Chain(Roots(hs))
    && (if hs == [] then head == null && last == null else head == hs[0].node && last == hs[|hs| - 1].node)
  }

  /** A list under construction that owns the blocks `gained`. */
  ghost predicate Grown(head: Node?, last: Node?, hs: seq<Shape>, made: set<Node>, gained: set<object>)
    reads made
  {
    Growing(head, last, hs, made) && OwnedOnce(hs) && Owned(hs) == gained
  }

  /** Hangs a new node behind the last one of a chain that is not empty. */
  method LinkLast(last: Node?, item: Node, ghost xs: seq<Node>)
    requires Chain(xs) && item !in xs && item.next == null
    requires if xs == [] then last == null else last == xs[|xs| - 1]
    modifies The(last)`next, item`prev
    ensures Chain(xs + [item])
  {
    if last != null {
      last.next := item;
      item.prev := last;
    }
    ghost var ys := xs + [item];
    assert forall i :: 0 <= i < |xs| ==> ys[i] == xs[i];
  }

  lemma {:induction false} AttachApart(hs: seq<Shape>, hc: Shape)
    requires DisjointAll(hs) && Disjoint(hc) && Nodes(hc) !! NodesOf(hs)
    ensures DisjointAll(hs + [hc]) && Roots(hs + [hc]) == Roots(hs) + [hc.node]
    ensures NodesOf(hs + [hc]) == NodesOf(hs) + Nodes(hc) && Below(hs + [hc]) <= NodesOf(hs) + Nodes(hc)
    ensures hc.node in Nodes(hc) && hc.node !in Roots(hs) && hc.node !in Below(hs) && hc.node !in NodesOf(hc.kids)
    ensures NodesOf(hc.kids) <= Nodes(hc) && Distinct(Roots(hs + [hc]))
    ensures hs != [] ==> var last := hs[|hs| - 1].node;
                         last == Roots(hs)[|hs| - 1] && last in NodesOf(hs) && last !in Below(hs) && last !in Nodes(hc)
  {
    DisjointSnoc(hs, hc);
    RootsSnoc(hs, hc);
    RootsApart(hs + [hc]);
    RootsApart(hs);
    if hs != [] {
      assert Roots(hs)[|hs| - 1] in Roots(hs);
    }
  }

  /** With its tree complete, the node that has been hung on belongs to the list. */
  lemma {:induction false} GrowingSnoc(head: Node?, last: Node?, hs: seq<Shape>, made: set<Node>, hc: Shape)
    requires made == NodesOf(hs) && DisjointAll(hs) && Trees(hs) && Chain(Roots(hs) + [hc.node])
    requires if hs == [] then head == hc.node else head == hs[0].node
    requires Tree(hc) && Disjoint(hc) && Nodes(hc) !! made
    ensures Growing(head, hc.node, hs + [hc], made + Nodes(hc))
  {
    hide Disjoint, DisjointAll, Tree, Trees, Nodes, NodesOf, Below, Roots, Chain;
    AttachApart(hs, hc);
    TreesSnoc(hs, hc);
  }

  lemma {:induction false} OwnedSnoc(hs: seq<Shape>, h: Shape)
    ensures Owned(hs + [h]) == Owned(hs) + OwnedBy(h)
    ensures OwnedOnce(hs + [h]) <==> OwnedOnce(hs) && OwnedOnceBy(h) && Owned(hs) !! OwnedBy(h)
  {
    hide OwnedBy, OwnedOnceBy;
    if hs == [] {
      assert hs + [h] == [h] && [h][1..] == [];
    } else {
      OwnedSnoc(hs[1..], h);
      assert (hs + [h])[1..] == hs[1..] + [h];
    }
  }

  /** The last step: the head's `prev` points at the tail, and the list becomes that of its parent. */
  method CloseList(parent: Node, head: Node?, last: Node?, ghost hs: seq<Shape>, ghost made: set<Node>)
    requires Growing(head, last, hs, made) && parent !in made
    modifies The(head)`prev, parent`child
    ensures Tree(Shape(parent, hs)) && Disjoint(Shape(parent, hs)) && Nodes(Shape(parent, hs)) == made + {parent}
    ensures parent.child == head
  {
    hide Trees, DisjointAll, NodesOf, Below, Tree, Disjoint, Nodes;
    RootsApart(hs);
    if head != null {
      assert Roots(hs)[0] in Roots(hs);
      head.prev := last;
    }
    parent.child := head;
    Closed(parent, hs);
  }

  lemma {:induction false} Closed(parent: Node, hs: seq<Shape>)
    requires Linked(parent.child, Roots(hs)) && Trees(hs) && DisjointAll(hs) && parent !in NodesOf(hs)
             && parent !in Roots(hs)
    ensures Tree(Shape(parent, hs)) && Disjoint(Shape(parent, hs)) && Nodes(Shape(parent, hs)) == NodesOf(hs) + {parent}
  {
    hide Trees, DisjointAll, NodesOf, Roots, Linked;
  }
}
