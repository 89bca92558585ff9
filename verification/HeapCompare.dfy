/**
 `cJSON_Compare` and `get_object_item` over item trees in the heap.
 */
module HeapCompare {
  import opened Bytes
  import opened JsonTree
  import opened SiblingList
  import opened HeapTree
  import opened CompareSpec

  /** `case_insensitive_strcmp`; zero means equal, and NULL equals nothing. */
  method CaseInsensitiveStrcmp(s: CString, t: CString) returns (r: int)
    ensures r == 0 <==> s.Chars? && t.Chars? && Fold(s.text, false) == Fold(t.text, false)
  {
    if s.NullPtr? || t.NullPtr? {
      return 1;
    }
    var a, b := s.text, t.text;
    var i := 0;
    while i < |a| && i < |b| && ToLower(a[i]) == ToLower(b[i])
      invariant 0 <= i <= |a| && i <= |b|
      invariant forall k :: 0 <= k < i ==> ToLower(a[k]) == ToLower(b[k])
    {
      i := i + 1;
    }
    var f, g := Fold(a, false), Fold(b, false);
    assert i < |a| && i < |b| ==> f[i] != g[i];
    if i == |a| && i == |b| {
      return 0;
    }
    return (if i < |a| then ToLower(a[i]) else 0) - (if i < |b| then ToLower(b[i]) else 0);
  }

  method SameKey(s: CString, t: CString, caseSensitive: bool) returns (same: bool)
    ensures same <==> s.Chars? && t.Chars? && Fold(s.text, caseSensitive) == Fold(t.text, caseSensitive)
  {
    if caseSensitive {
      return s.Chars? && s == t;
    }
    var r := CaseInsensitiveStrcmp(s, t);
    return r == 0;
  }

  /** `get_object_item`; `used` is any set of nodes that holds those of the object. */
  method GetObjectItem(object_: Node?, name: CString, caseSensitive: bool, ghost h: Shape, ghost used: set<Node>)
    returns (item: Node?, ghost k: nat)
    requires object_ != null ==> Tree(h) && h.node == object_ && NodesOf(h.kids) <= used
    ensures object_ == null || name.NullPtr? ==> item == null
    ensures object_ != null && name.Chars? ==>
              && (item != null <==> Find(MemberValues(h.kids), name.text, caseSensitive).Some?)
              && (item != null ==>
                    Find(MemberValues(h.kids), name.text, caseSensitive) == Some(k) && item == h.kids[k].node)
  {
    hide Find, UndecidedBefore, MemberValues, Fold, Tree, Trees, Nodes, NodesOf, Value, Linked, Roots;
    k := 0;
    if object_ == null || name.NullPtr? {
      return null, k;
    }
    ghost var ks, ms := h.kids, MemberValues(h.kids);
    item := object_.child;
    TreeParts(h);
    SearchStart(ms, name.text, caseSensitive);
    while item != null
      invariant k <= |ks| && item == (if k < |ks| then ks[k].node else null)
      invariant MemberValues(ks) == ms && Linked(object_.child, Roots(ks))
      invariant UndecidedBefore(ms, k, name.text, caseSensitive)
      decreases |ks| - k
    {
      ValuesAt(ks, k);
      SearchStep(ms, k, name.text, caseSensitive);
      if caseSensitive && item.name == null {
        return null, k;
      }
      var same := SameKey(name, TextOf(item.name), caseSensitive);
      if same {
        return item, k;
      }
      Neighbours(object_.child, Roots(ks), k);
      item := item.next;
      k := k + 1;
    }
  }

  /** The members in front of `k` do not decide the search. */
  ghost predicate UndecidedBefore(ms: seq<Member>, k: nat, name: Text, caseSensitive: bool) {
    && k <= |ms|
    && var r := Find(ms[k..], name, caseSensitive);
       Find(ms, name, caseSensitive) == if r.Some? then Some(r.value + k) else None
  }

  lemma {:induction false} SearchStart(ms: seq<Member>, name: Text, caseSensitive: bool)
    ensures UndecidedBefore(ms, 0, name, caseSensitive)
    ensures UndecidedBefore(ms, |ms|, name, caseSensitive) ==> Find(ms, name, caseSensitive) == None
  {
    assert ms[0..] == ms && ms[|ms|..] == [];
  }

  lemma {:induction false} SearchStep(ms: seq<Member>, k: nat, name: Text, caseSensitive: bool)
    requires k < |ms| && UndecidedBefore(ms, k, name, caseSensitive)
    ensures var key := ms[k].key;
            if key.NullPtr? && caseSensitive then Find(ms, name, caseSensitive) == None
            else if key.Chars? && Fold(key.text, caseSensitive) == Fold(name, caseSensitive) then
              Find(ms, name, caseSensitive) == Some(k)
            else UndecidedBefore(ms, k + 1, name, caseSensitive)
  {
    hide Fold;
    assert ms[k..][1..] == ms[k + 1..];
  }

  // ---------------------------------------------------------------- verdicts

  /** Both trees are of the kind for which comparison means equality of meanings. */
  predicate Comparable(a: Json, b: Json, caseSensitive: bool) {
    Int32Numbers(a) && Int32Numbers(b) && Consistent(a, caseSensitive) && Consistent(b, caseSensitive)
  }

  /**
   The answer `r` is right for two trees: it is that of `Compare` if they share no node (`apart`);
   and it is equality of meanings whenever both are consistent, shared nodes or not.
   */
  ghost predicate Verdict(r: bool, a: Json, b: Json, caseSensitive: bool, apart: bool) {
    && (apart ==> r == Compare(a, b, caseSensitive))
    && (Comparable(a, b, caseSensitive) ==> r == (Mean(a, caseSensitive) == Mean(b, caseSensitive)))
  }

  ghost predicate MemberVerdict(r: bool, m: Member, ns: seq<Member>, caseSensitive: bool, apart: bool) {
    && (apart ==> r == HasMatch(m, ns, caseSensitive))
    && (m.key.Chars? && Comparable(m.value, Object(ns), caseSensitive) ==> r == Matched(m, ns, caseSensitive))
  }

  lemma ArrayAgrees(xs: seq<Json>, ys: seq<Json>, caseSensitive: bool, apart: bool)
    requires |xs| == |ys| && forall i :: 0 <= i < |xs| ==> Verdict(true, xs[i], ys[i], caseSensitive, apart)
    ensures Verdict(true, Array(xs), Array(ys), caseSensitive, apart)
  {
    hide IsInt32;
    if Comparable(Array(xs), Array(ys), caseSensitive) {
      forall i | 0 <= i < |xs| ensures Mean(xs[i], caseSensitive) == Mean(ys[i], caseSensitive) {
        assert Verdict(true, xs[i], ys[i], caseSensitive, apart) && Comparable(xs[i], ys[i], caseSensitive);
      }
      assert Mean(Array(xs), caseSensitive).items == Mean(Array(ys), caseSensitive).items;
    }
  }

  lemma ArrayDiffers(xs: seq<Json>, ys: seq<Json>, i: nat, caseSensitive: bool, apart: bool)
    requires |xs| != |ys| || (i < |xs| && Verdict(false, xs[i], ys[i], caseSensitive, apart))
    ensures Verdict(false, Array(xs), Array(ys), caseSensitive, apart)
  {
    hide IsInt32;
    var mx, my := Mean(Array(xs), caseSensitive).items, Mean(Array(ys), caseSensitive).items;
    if |xs| != |ys| {
      assert |mx| != |my|;
    } else if Comparable(Array(xs), Array(ys), caseSensitive) {
      assert Comparable(xs[i], ys[i], caseSensitive) && mx[i] != my[i];
    }
  }

  /** What comparing the values of a member and of its first match amounts to. */
  lemma {:induction false} MemberAgrees(r: bool, m: Member, ns: seq<Member>, j: nat, caseSensitive: bool, apart: bool)
    requires m.key.Chars? && Find(ns, m.key.text, caseSensitive) == Some(j)
    requires Verdict(r, m.value, ns[j].value, caseSensitive, apart)
    ensures MemberVerdict(r, m, ns, caseSensitive, apart)
  {
    hide Mean, IsInt32, Compare, Find;
    if Comparable(m.value, Object(ns), caseSensitive) {
      assert Comparable(m.value, ns[j].value, caseSensitive);
    }
  }

  lemma {:induction false} MemberMissing(m: Member, ns: seq<Member>, caseSensitive: bool, apart: bool)
    requires m.key.NullPtr? || Find(ns, m.key.text, caseSensitive).None?
    ensures MemberVerdict(false, m, ns, caseSensitive, apart)
  {
    hide Mean, Compare, Find;
  }

  ghost predicate AllFound(ms: seq<Member>, ns: seq<Member>, caseSensitive: bool, apart: bool) {
    forall i :: 0 <= i < |ms| ==> MemberVerdict(true, ms[i], ns, caseSensitive, apart)
  }

  lemma ObjectAgrees(ms: seq<Member>, ns: seq<Member>, caseSensitive: bool, apart: bool)
    requires AllFound(ms, ns, caseSensitive, apart) && AllFound(ns, ms, caseSensitive, apart)
    ensures Verdict(true, Object(ms), Object(ns), caseSensitive, apart)
  {
    hide MeanMembers, IsInt32, Compare, HasMatch, Matched;
    CompareObjectUnfold(ms, ns, caseSensitive);
    if Comparable(Object(ms), Object(ns), caseSensitive) {
      forall i | 0 <= i < |ms| ensures Matched(ms[i], ns, caseSensitive) {
        assert MemberVerdict(true, ms[i], ns, caseSensitive, apart);
      }
      forall j | 0 <= j < |ns| ensures Matched(ns[j], ms, caseSensitive) {
        assert MemberVerdict(true, ns[j], ms, caseSensitive, apart);
      }
      MatchedMaps(ms, ns, caseSensitive);
    }
  }

  lemma ObjectDiffers(ms: seq<Member>, ns: seq<Member>, i: nat, caseSensitive: bool, apart: bool)
    requires i < |ms| && MemberVerdict(false, ms[i], ns, caseSensitive, apart)
    ensures Verdict(false, Object(ms), Object(ns), caseSensitive, apart)
    ensures Verdict(false, Object(ns), Object(ms), caseSensitive, apart)
  {
    hide MeanMembers, IsInt32, Compare, HasMatch, Matched;
    CompareObjectUnfold(ms, ns, caseSensitive);
    CompareObjectUnfold(ns, ms, caseSensitive);
    if Comparable(Object(ms), Object(ns), caseSensitive) {
      if MeanMembers(ms, caseSensitive) == MeanMembers(ns, caseSensitive) {
        EqualMapsMatch(ms, ns, caseSensitive);
        assert false;
      }
    }
  }

  // ---------------------------------------------------------------- cJSON_Compare

  ghost function Height(h: Shape): nat {
    1 + HeightOf(h.kids)
  }

  ghost function HeightOf(ks: seq<Shape>): nat {
    if ks == [] then 0 else Max(Height(ks[0]), HeightOf(ks[1..]))
  }

  lemma {:induction false} KidHeight(ks: seq<Shape>, i: nat)
    requires i < |ks|
    ensures Height(ks[i]) <= HeightOf(ks)
  {
    if i == 0 {
    } else {
      KidHeight(ks[1..], i - 1);
    }
  }

  /** What holds of the trees handed to the comparison; `used` holds the nodes of both. */
  ghost predicate Given(ha: Shape, hb: Shape, used: set<Node>)
    reads Nodes(ha)`child, Nodes(ha)`next, Nodes(ha)`prev, Nodes(hb)`child, Nodes(hb)`next, Nodes(hb)`prev
  {
    Tree(ha) && Tree(hb) && Nodes(ha) <= used && Nodes(hb) <= used
  }

  lemma {:induction false} GivenKids(ha: Shape, hb: Shape, i: nat, j: nat, used: set<Node>)
    requires Given(ha, hb, used) && i < |ha.kids| && j < |hb.kids|
    ensures Given(ha.kids[i], hb.kids[j], used) && Given(hb.kids[j], ha.kids[i], used)
    ensures Nodes(ha) !! Nodes(hb) ==> Nodes(ha.kids[i]) !! Nodes(hb.kids[j])
    ensures Height(ha.kids[i]) < Height(ha) && Height(hb.kids[j]) < Height(hb)
  {
    hide Tree;
    TreeParts(ha);
    TreeParts(hb);
    TreesAt(ha.kids, i);
    TreesAt(hb.kids, j);
    KidHeight(ha.kids, i);
    KidHeight(hb.kids, j);
  }

  /** `cJSON_Compare` */
  method CJSONCompare(a: Node?, b: Node?, caseSensitive: bool, ghost ha: Shape, ghost hb: Shape, ghost used: set<Node>)
    returns (r: bool)
    requires a != null && b != null ==> Given(ha, hb, used) && ha.node == a && hb.node == b
    ensures a == null || b == null ==> !r
    ensures a != null && b != null ==> Verdict(r, Value(ha), Value(hb), caseSensitive, Nodes(ha) !! Nodes(hb))
    decreases Height(ha) + Height(hb), 4
  {
    hide Given, Verdict, Value;
    if a == null || b == null {
      return false;
    }
    if a.kind != b.kind {
      KindsDiffer(ha, hb, caseSensitive);
      return false;
    }
    if a == b {
      SameNode(ha, hb, used, caseSensitive);
      return true;
    }
    match a.kind {
      case KNumber =>
        NumberVerdict(ha, hb, caseSensitive);
        r := CompareDouble(a.valuedouble, b.valuedouble);
      case KString =>
        StringVerdict(ha, hb, caseSensitive);
        var s, t := TextOf(a.valuestring), TextOf(b.valuestring);
        r := s.Chars? && t.Chars? && s.text == t.text;
      case KArray =>
        r := CompareChildren(a, b, caseSensitive, ha, hb, used);
      case KObject =>
        r := CompareObjects(a, b, caseSensitive, ha, hb, used);
      case _ =>
        ConstantVerdict(ha, hb, caseSensitive);
        r := true;
    }
  }

  lemma {:induction false} KindsDiffer(ha: Shape, hb: Shape, caseSensitive: bool)
    requires ha.node.kind != hb.node.kind
    ensures Verdict(false, Value(ha), Value(hb), caseSensitive, Nodes(ha) !! Nodes(hb))
  {
    hide Values, MemberValues, Int32Numbers, Consistent, MeanMembers;
  }

  lemma {:induction false} ConstantVerdict(ha: Shape, hb: Shape, caseSensitive: bool)
    requires ha.node.kind == hb.node.kind && ha.node.kind in {KFalse, KTrue, KNull}
    ensures Verdict(true, Value(ha), Value(hb), caseSensitive, Nodes(ha) !! Nodes(hb))
  {
  }

  lemma {:induction false} NumberVerdict(ha: Shape, hb: Shape, caseSensitive: bool)
    requires ha.node.kind == hb.node.kind == KNumber
    ensures Verdict(CompareDouble(ha.node.valuedouble, hb.node.valuedouble), Value(ha), Value(hb),
                    caseSensitive, Nodes(ha) !! Nodes(hb))
  {
    hide CompareSpec.CompareDouble, IsInt32;
    var x, y := ha.node.valuedouble, hb.node.valuedouble;
    if IsInt32(x) && IsInt32(y) {
      CompareDoubleIsEquality(x, y);
    }
  }

  lemma {:induction false} StringVerdict(ha: Shape, hb: Shape, caseSensitive: bool)
    requires ha.node.kind == hb.node.kind == KString
    ensures var s, t := TextOf(ha.node.valuestring), TextOf(hb.node.valuestring);
            Verdict(s.Chars? && t.Chars? && s.text == t.text, Value(ha), Value(hb),
                    caseSensitive, Nodes(ha) !! Nodes(hb))
  {
  }

  /** The shortcut for one node on both sides. */
  lemma {:induction false} SameNode(ha: Shape, hb: Shape, used: set<Node>, caseSensitive: bool)
    requires Given(ha, hb, used) && ha.node == hb.node
    ensures Verdict(true, Value(ha), Value(hb), caseSensitive, Nodes(ha) !! Nodes(hb))
  {
    hide Value, Mean, Consistent, Int32Numbers, Compare;
    TreeUnique(ha, hb);
    assert ha.node in Nodes(ha) && ha.node in Nodes(hb);
  }

  lemma {:induction false} ArrayValue(h: Shape)
    requires h.node.kind == KArray
    ensures Value(h) == Array(Values(h.kids))
  {
    hide Values;
  }

  /** The loop over two arrays. */
  method CompareChildren(a: Node, b: Node, caseSensitive: bool, ghost ha: Shape, ghost hb: Shape, ghost used: set<Node>)
    returns (r: bool)
    requires Given(ha, hb, used) && ha.node == a && hb.node == b && a.kind == b.kind == KArray
    ensures Verdict(r, Value(ha), Value(hb), caseSensitive, Nodes(ha) !! Nodes(hb))
    decreases Height(ha) + Height(hb), 3
  {
    hide Given, Verdict, Nodes, NodesOf, Tree, Trees, Value, Values, MemberValues, Linked, Roots, Height;
    ghost var as_, bs, apart := ha.kids, hb.kids, Nodes(ha) !! Nodes(hb);
    ghost var xs, ys := Values(as_), Values(bs);
    GivenParts(ha, hb, used);
    ArrayValue(ha);
    ArrayValue(hb);
    var x, y := a.child, b.child;
    ghost var i := 0;
    while x != null && y != null
      invariant i <= |as_| && i <= |bs|
      invariant x == (if i < |as_| then as_[i].node else null) && y == (if i < |bs| then bs[i].node else null)
      invariant Given(ha, hb, used) && Linked(a.child, Roots(as_)) && Linked(b.child, Roots(bs))
      invariant Values(as_) == xs && Values(bs) == ys
      invariant forall k :: 0 <= k < i ==> Verdict(true, xs[k], ys[k], caseSensitive, apart)
      decreases |as_| - i
    {
      GivenKids(ha, hb, i, i, used);
      r := CJSONCompare(x, y, caseSensitive, as_[i], bs[i], used);
      ValuesAt(as_, i);
      ValuesAt(bs, i);
      VerdictWeaken(r, xs[i], ys[i], caseSensitive, Nodes(as_[i]) !! Nodes(bs[i]), apart);
      if !r {
        ArrayDiffers(xs, ys, i, caseSensitive, apart);
        return;
      }
      Neighbours(a.child, Roots(as_), i);
      Neighbours(b.child, Roots(bs), i);
      x, y := x.next, y.next;
      i := i + 1;
    }
    r := x == y;
    if r {
      ArrayAgrees(xs, ys, caseSensitive, apart);
    } else {
      ArrayDiffers(xs, ys, i, caseSensitive, apart);
    }
  }

  lemma VerdictWeaken(r: bool, a: Json, b: Json, caseSensitive: bool, apart: bool, apart': bool)
    requires Verdict(r, a, b, caseSensitive, apart) && (apart' ==> apart)
    ensures Verdict(r, a, b, caseSensitive, apart')
  {
    hide Compare, Mean, Comparable;
  }

  lemma {:induction false} GivenParts(ha: Shape, hb: Shape, used: set<Node>)
    requires Given(ha, hb, used)
    ensures Linked(ha.node.child, Roots(ha.kids)) && Linked(hb.node.child, Roots(hb.kids))
    ensures ha.node.child == if ha.kids == [] then null else ha.kids[0].node
    ensures hb.node.child == if hb.kids == [] then null else hb.kids[0].node
    ensures Tree(ha) && Tree(hb) && Nodes(ha) <= used && Nodes(hb) <= used
    ensures NodesOf(ha.kids) <= used && NodesOf(hb.kids) <= used
  {
    TreeParts(ha);
    TreeParts(hb);
  }

  /** The two loops over objects: each side is searched for the members of the other. */
  method CompareObjects(a: Node, b: Node, caseSensitive: bool, ghost ha: Shape, ghost hb: Shape, ghost used: set<Node>)
    returns (r: bool)
    requires Given(ha, hb, used) && ha.node == a && hb.node == b && a.kind == b.kind == KObject
    ensures Verdict(r, Value(ha), Value(hb), caseSensitive, Nodes(ha) !! Nodes(hb))
    decreases Height(ha) + Height(hb), 3
  {
    hide Given, Verdict, MemberVerdict, AllFound, Nodes, NodesOf, Tree, Trees, Values, MemberValues, Linked, Roots,
         Height;
    ghost var ms, ns, apart := MemberValues(ha.kids), MemberValues(hb.kids), Nodes(ha) !! Nodes(hb);
    GivenParts(ha, hb, used);
    ghost var i;
    r, i := MatchMembers(a, b, caseSensitive, ha, hb, used);
    if !r {
      ObjectDiffers(ms, ns, i, caseSensitive, apart);
      return;
    }
    GivenSwap(ha, hb, used);
    assert apart == (Nodes(hb) !! Nodes(ha));
    r, i := MatchMembers(b, a, caseSensitive, hb, ha, used);
    if !r {
      ObjectDiffers(ns, ms, i, caseSensitive, apart);
    } else {
      ObjectAgrees(ms, ns, caseSensitive, apart);
    }
  }

  lemma GivenSwap(ha: Shape, hb: Shape, used: set<Node>)
    requires Given(ha, hb, used)
    ensures Given(hb, ha, used)
  {
  }

  /** Every member of `a` is looked up in `b`; `at` is the first one that fails. */
  method MatchMembers(a: Node, b: Node, caseSensitive: bool, ghost ha: Shape, ghost hb: Shape, ghost used: set<Node>)
    returns (r: bool, ghost at: nat)
    requires Given(ha, hb, used) && ha.node == a && hb.node == b
    ensures var ms, ns, apart := MemberValues(ha.kids), MemberValues(hb.kids), Nodes(ha) !! Nodes(hb);
            && (r ==> AllFound(ms, ns, caseSensitive, apart))
            && (!r ==> at < |ms| && MemberVerdict(false, ms[at], ns, caseSensitive, apart))
    decreases Height(ha) + Height(hb), 2
  {
    hide Given, Verdict, MemberVerdict, Nodes, NodesOf, Tree, Trees, Value, Values, MemberValues, Linked, Roots,
         Height;
    ghost var as_, bs, apart := ha.kids, hb.kids, Nodes(ha) !! Nodes(hb);
    ghost var ms, ns := MemberValues(as_), MemberValues(bs);
    GivenParts(ha, hb, used);
    var x := a.child;
    at := 0;
    while x != null
      invariant at <= |as_| && x == (if at < |as_| then as_[at].node else null)
      invariant Given(ha, hb, used) && Linked(a.child, Roots(as_))
      invariant MemberValues(as_) == ms && MemberValues(bs) == ns
      invariant forall k :: 0 <= k < at ==> MemberVerdict(true, ms[k], ns, caseSensitive, apart)
      decreases |as_| - at
    {
      r := MatchMember(x, b, caseSensitive, ha, hb, at, used);
      if !r {
        return;
      }
      Neighbours(a.child, Roots(as_), at);
      x := x.next;
      at := at + 1;
    }
    r := true;
  }

  /** One round: the lookup and the comparison with what it finds. */
  method MatchMember(x: Node, b: Node, caseSensitive: bool, ghost ha: Shape, ghost hb: Shape, ghost i: nat,
                     ghost used: set<Node>)
    returns (r: bool)
    requires Given(ha, hb, used) && hb.node == b && i < |ha.kids| && x == ha.kids[i].node
    ensures MemberVerdict(r, MemberValues(ha.kids)[i], MemberValues(hb.kids), caseSensitive, Nodes(ha) !! Nodes(hb))
    decreases Height(ha) + Height(hb), 1
  {
    hide Given, Verdict, MemberVerdict, Nodes, NodesOf, Tree, Trees, Value, Values, MemberValues, Linked, Roots,
         Height;
    GivenParts(ha, hb, used);
    ValuesAt(ha.kids, i);
    ghost var ms, ns, apart := MemberValues(ha.kids), MemberValues(hb.kids), Nodes(ha) !! Nodes(hb);
    ghost var m := ms[i];
    var y;
    ghost var j;
    y, j := GetObjectItem(b, TextOf(x.name), caseSensitive, hb, used);
    if y == null {
      MemberMissing(m, ns, caseSensitive, apart);
      return false;
    }
    GivenKids(ha, hb, i, j, used);
    r := CJSONCompare(x, y, caseSensitive, ha.kids[i], hb.kids[j], used);
    assert MemberValues(ha.kids) == ms && MemberValues(hb.kids) == ns;
    ValuesAt(ha.kids, i);
    ValuesAt(hb.kids, j);
    VerdictWeaken(r, m.value, ns[j].value, caseSensitive, Nodes(ha.kids[i]) !! Nodes(hb.kids[j]), apart);
    MemberAgrees(r, m, ns, j, caseSensitive, apart);
  }

  /** The heap determines the tree below a node. */
  lemma {:induction false} TreeUnique(a: Shape, b: Shape)
    requires Tree(a) && Tree(b) && a.node == b.node
    ensures a == b
    decreases a, 0
  {
    LinksDetermineList(a.node.child, Roots(a.kids), Roots(b.kids), |Roots(a.kids)|);
    TreesUnique(a.kids, b.kids);
  }

  lemma {:induction false} TreesUnique(as_: seq<Shape>, bs: seq<Shape>)
    requires Trees(as_) && Trees(bs) && Roots(as_) == Roots(bs)
    ensures as_ == bs
    decreases as_, 1
  {
    if as_ == [] {
    } else {
      assert Roots(as_)[0] == as_[0].node && Roots(bs)[0] == bs[0].node;
      TreeUnique(as_[0], bs[0]);
      assert Roots(as_)[1..] == Roots(as_[1..]) && Roots(bs)[1..] == Roots(bs[1..]);
      TreesUnique(as_[1..], bs[1..]);
      assert as_ == [as_[0]] + as_[1..] && bs == [bs[0]] + bs[1..];
    }
  }
}
