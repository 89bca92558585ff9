/**
 Trees of cJSON items in the heap. A `Shape` names the nodes of a tree; predicates say that the
 links of those nodes form it, and `Value` reads off the tree value.
 */
module HeapTree {
  import opened Bytes
  import opened JsonTree
  import opened SiblingList

  datatype Shape = Shape(node: Node, kids: seq<Shape>)

  function Roots(ks: seq<Shape>): (xs: seq<Node>)
    ensures |xs| == |ks| && forall i :: 0 <= i < |ks| ==> xs[i] == ks[i].node
  {
    if ks == [] then [] else [ks[0].node] + Roots(ks[1..])
  }

  ghost function Nodes(h: Shape): set<Node> {
    {h.node} + NodesOf(h.kids)
  }

  ghost function NodesOf(ks: seq<Shape>): (s: set<Node>)
    ensures forall x :: x in Roots(ks) ==> x in s
  {
    if ks == [] then {} else Nodes(ks[0]) + NodesOf(ks[1..])
  }

  /** The nodes under the roots of `ks`. */
  ghost function Below(ks: seq<Shape>): (s: set<Node>)
    ensures s <= NodesOf(ks)
  {
    if ks == [] then {} else NodesOf(ks[0].kids) + Below(ks[1..])
  }

  /** The links make `h`: at every node the children are a sibling list. */
  ghost predicate Tree(h: Shape)
    reads h.node`child, NodesOf(h.kids)`child, NodesOf(h.kids)`next, NodesOf(h.kids)`prev
  {
    Children(h.node, Roots(h.kids)) && Trees(h.kids)
  }

  ghost predicate Trees(ks: seq<Shape>)
    reads NodesOf(ks)`child, Below(ks)`next, Below(ks)`prev
  {
    ks != [] ==> Tree(ks[0]) && Trees(ks[1..])
  }

  /** No node occurs twice. */
  ghost predicate Disjoint(h: Shape) {
    h.node !in NodesOf(h.kids) && DisjointAll(h.kids)
  }

  ghost predicate DisjointAll(ks: seq<Shape>) {
    ks != [] ==> Disjoint(ks[0]) && DisjointAll(ks[1..]) && Nodes(ks[0]) !! NodesOf(ks[1..])
  }

  // ---------------------------------------------------------------- values

  /** A `char *` field. */
  function TextOf(b: StringBlock?): CString {
    if b == null then NullPtr else Bytes.Chars(b.text)
  }

  ghost function Value(h: Shape): Json
    reads Nodes(h)`kind, Nodes(h)`valuestring, Nodes(h)`valuedouble, Nodes(h)`name
    decreases h, 0
  {
    match h.node.kind
    case KFalse => False
    case KTrue => True
    case KNull => Null
    case KNumber => Number(h.node.valuedouble)
    case KString => String(TextOf(h.node.valuestring))
    case KArray => Array(Values(h.kids))
    case KObject => Object(MemberValues(h.kids))
  }

  ghost function Values(ks: seq<Shape>): (vs: seq<Json>)
    reads NodesOf(ks)`kind, NodesOf(ks)`valuestring, NodesOf(ks)`valuedouble, NodesOf(ks)`name
    ensures |vs| == |ks|
    decreases ks, 2
  {
    if ks == [] then [] else [Value(ks[0])] + Values(ks[1..])
  }

  ghost function MemberValues(ks: seq<Shape>): (ms: seq<Member>)
    reads NodesOf(ks)`kind, NodesOf(ks)`valuestring, NodesOf(ks)`valuedouble, NodesOf(ks)`name
    ensures |ms| == |ks|
    decreases ks, 2
  {
    if ks == [] then [] else [Entry(ks[0])] + MemberValues(ks[1..])
  }

  /** A node as its parent sees it: its value with its name. */
  ghost function Entry(h: Shape): Member
    reads Nodes(h)`kind, Nodes(h)`valuestring, Nodes(h)`valuedouble, Nodes(h)`name
    decreases h, 1
  {
    Member(TextOf(h.node.name), Value(h))
  }

  // ---------------------------------------------------------------- adding a child at the end

  lemma {:induction false} RootsSnoc(ks: seq<Shape>, h: Shape)
    ensures Roots(ks + [h]) == Roots(ks) + [h.node]
    ensures NodesOf(ks + [h]) == NodesOf(ks) + Nodes(h)
    ensures Below(ks + [h]) == Below(ks) + NodesOf(h.kids)
  {
    if ks == [] {
      assert ks + [h] == [h] && [h][1..] == [];
    } else {
      RootsSnoc(ks[1..], h);
      assert (ks + [h])[1..] == ks[1..] + [h];
    }
  }

  lemma {:induction false} TreesSnoc(ks: seq<Shape>, h: Shape)
    ensures Trees(ks + [h]) <==> Trees(ks) && Tree(h)
  {
    if ks == [] {
      assert ks + [h] == [h] && [h][1..] == [];
    } else {
      TreesSnoc(ks[1..], h);
      assert (ks + [h])[1..] == ks[1..] + [h];
    }
  }

  lemma {:induction false} DisjointSnoc(ks: seq<Shape>, h: Shape)
    requires DisjointAll(ks) && Disjoint(h) && Nodes(h) !! NodesOf(ks)
    ensures DisjointAll(ks + [h])
  {
    if ks == [] {
      assert ks + [h] == [h] && [h][1..] == [];
    } else {
      DisjointSnoc(ks[1..], h);
      assert (ks + [h])[1..] == ks[1..] + [h];
      RootsSnoc(ks[1..], h);
    }
  }

  lemma {:induction false} ValuesSnoc(ks: seq<Shape>, h: Shape)
    ensures Values(ks + [h]) == Values(ks) + [Value(h)]
    ensures MemberValues(ks + [h]) == MemberValues(ks) + [Entry(h)]
  {
    if ks == [] {
      assert ks + [h] == [h] && [h][1..] == [];
    } else {
      ValuesSnoc(ks[1..], h);
      assert (ks + [h])[1..] == ks[1..] + [h];
    }
  }

  /** In a disjoint forest no root is under a root, and all roots differ. */
  lemma {:induction false} RootsApart(ks: seq<Shape>)
    requires DisjointAll(ks)
    ensures Distinct(Roots(ks))
    ensures forall x :: x in Roots(ks) ==> x !in Below(ks)
  {
    if ks == [] {
    } else {
      RootsApart(ks[1..]);
      var xs, rest := Roots(ks), Roots(ks[1..]);
      assert xs == [ks[0].node] + rest;
      forall x | x in xs ensures x !in Below(ks) {
        if x != ks[0].node {
          assert x in rest;
        }
      }
      forall i, j | 0 <= i < j < |xs| ensures xs[i] != xs[j] {
        assert xs[j] == rest[j - 1] && rest[j - 1] in rest;
        if i > 0 {
          assert xs[i] == rest[i - 1];
        }
      }
    }
  }

  lemma {:induction false} TreesAt(ks: seq<Shape>, i: nat)
    requires Trees(ks) && i < |ks|
    ensures Tree(ks[i])
    ensures Nodes(ks[i]) <= NodesOf(ks)
  {
    if i == 0 {
    } else {
      TreesAt(ks[1..], i - 1);
    }
  }

  lemma {:induction false} ValuesAt(ks: seq<Shape>, i: nat)
    requires i < |ks|
    ensures Values(ks)[i] == Value(ks[i]) && MemberValues(ks)[i] == Entry(ks[i])
  {
    if i == 0 {
    } else {
      ValuesAt(ks[1..], i - 1);
    }
  }

  /** What a tree says at its root. */
  lemma {:induction false} TreeParts(h: Shape)
    requires Tree(h)
    ensures Linked(h.node.child, Roots(h.kids)) && Trees(h.kids)
    ensures Nodes(h) == {h.node} + NodesOf(h.kids) && Below(h.kids) <= NodesOf(h.kids)
    ensures h.node.child == if h.kids == [] then null else h.kids[0].node
  {
  }
}
