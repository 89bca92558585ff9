/**
 Sibling lists of cJSON items: doubly linked through `next` and `prev`, with the head's `prev`
 pointing at the tail so that appending takes constant time.
 */
module SiblingList {

  import opened Bytes

  /** The types of item this model has; Invalid and Raw items are not among them. */
  datatype Kind = KFalse | KTrue | KNull | KNumber | KString | KArray | KObject

  /** A heap block that holds a C string. */
  class StringBlock {
    const text: Text

    constructor (text: Text)
      ensures this.text == text
    {
      this.text := text;
    }
  }

  /** A cJSON item; the two flag bits of `type` are fields of their own. */
  class Node {
    var next: Node?
    var prev: Node?
    var child: Node?
    var kind: Kind
    var isReference: bool
    var stringIsConst: bool
    var valuestring: StringBlock?
    var valuedouble: real
    var name: StringBlock?

    /** `cJSON_New_Item`: all fields zero. */
    constructor ()
      ensures next == null && prev == null && child == null
      ensures !isReference && !stringIsConst && valuestring == null && name == null
    {
      next, prev, child := null, null, null;
      isReference, stringIsConst, valuestring, valuedouble, name := false, false, null, 0.0, null;
    }
  }

  /** The object a pointer points at, for frames: none for NULL. */
  function The(x: Node?): set<Node> {
    if x == null then {} else {x}
  }

  predicate Distinct(xs: seq<Node>) {
    forall i, j :: 0 <= i < j < |xs| ==> xs[i] != xs[j]
  }

  /** Links of the nodes `xs` as the list of `head`: `next` ends in NULL, `prev` closes at the tail. */
  ghost predicate Linked(head: Node?, xs: seq<Node>)
    reads xs`next, xs`prev
  {
    && Distinct(xs)
    && (head == null <==> xs == [])
    && (head != null ==> head == xs[0] && xs[0].prev == xs[|xs| - 1] && xs[|xs| - 1].next == null)
    && (forall i {:trigger xs[i].next} :: 0 <= i < |xs| - 1 ==> xs[i].next == xs[i + 1])
    && (forall i {:trigger xs[i].prev} :: 1 <= i < |xs| ==> xs[i].prev == xs[i - 1])
  }

  /** `xs` are the children of `parent`. */
  ghost predicate Children(parent: Node, xs: seq<Node>)
    reads parent`child, xs`next, xs`prev
  {
    parent !in xs && Linked(parent.child, xs)
  }

  /** The neighbours of a node in a list, in the form the pointer surgery needs. */
  lemma Neighbours(head: Node?, xs: seq<Node>, k: nat)
    requires Linked(head, xs) && k < |xs|
    ensures xs[k] == head <==> k == 0
    ensures xs[k].prev == if k == 0 then xs[|xs| - 1] else xs[k - 1]
    ensures xs[k].next == if k + 1 < |xs| then xs[k + 1] else null
    ensures k + 1 < |xs| ==> xs[k + 1].prev == xs[k]
    ensures k > 0 ==> xs[k - 1].next == xs[k]
  {
  }

  function Insert<T>(xs: seq<T>, k: nat, x: T): seq<T>
    requires k <= |xs|
  {
    xs[..k] + [x] + xs[k..]
  }

  function Remove<T>(xs: seq<T>, k: nat): seq<T>
    requires k < |xs|
  {
    xs[..k] + xs[k + 1..]
  }

  /** `get_array_item` */
  method GetArrayItem(parent: Node?, which: nat, ghost xs: seq<Node>) returns (item: Node?)
    requires parent != null ==> Children(parent, xs)
    ensures item == if parent != null && which < |xs| then xs[which] else null
  {
    if parent == null {
      return null;
    }
    item := parent.child;
    var index := which;
    ghost var i := 0;
    while item != null && index > 0
      invariant 0 <= index && index + i == which && i <= |xs|
      invariant item == if i < |xs| then xs[i] else null
      decreases index
    {
      index := index - 1;
      item := item.next;
      i := i + 1;
    }
  }

  /** `suffix_object` */
  method SuffixObject(prev: Node, item: Node)
    modifies prev`next, item`prev
    ensures prev.next == item && item.prev == prev
  {
    prev.next := item;
    item.prev := prev;
  }

  /**
   `add_item_to_array`. On a non-empty list it leaves `item.next` alone, so the result is a list
   exactly when the item was detached: not in this list, where even the tail would come to follow
   itself, and with nothing behind it. Otherwise the children are no list at all any more.
   */
  method AddItemToArray(parent: Node?, item: Node?, ghost xs: seq<Node>) returns (ok: bool)
    requires parent != null ==> Children(parent, xs)
    modifies The(parent)`child, The(item)`next, The(item)`prev, xs`next, xs`prev
    ensures ok <==> parent != null && item != null && parent != item
    ensures ok ==> (Children(parent, xs + [item]) <==> xs == [] || (item !in xs && old(item.next) == null))
    ensures ok ==> (OpenEnded(parent) <==> xs != [] && (item in xs || old(item.next) != null))
    ensures ok && xs != [] ==> xs[|xs| - 1].next == item && xs[0].prev == item
    ensures !ok && parent != null ==> Children(parent, xs)
  {
    if item == null || parent == null || parent == item {
      return false;
    }
    var child := parent.child;
    if child == null {
      parent.child := item;
      item.prev := item;
      item.next := null;
    } else {
      if child.prev != null {
        SuffixObject(child.prev, item);
        parent.child.prev := item;
      }
      ghost var ys := xs + [item];
      assert ys[|ys| - 1] == item && ys[0] == xs[0];
      if item in xs {
        ghost var k :| 0 <= k < |xs| && xs[k] == item;
        assert ys[k] == ys[|ys| - 1];
      }
    }
    return true;
  }

  /** Two items appended to an empty array, pointer by pointer. */
  method AppendTwo(parent: Node, a: Node, b: Node)
    requires parent.child == null && a != b && a != parent && b != parent && b.next == null
    modifies parent`child, a`next, a`prev, b`next, b`prev
    ensures parent.child == a && a.next == b && b.next == null
    ensures a.prev == b && b.prev == a
  {
    var ok := AddItemToArray(parent, a, []);
    assert [] + [a] == [a];
    ok := AddItemToArray(parent, b, [a]);
    assert [a] + [b] == [a, b];
  }

  /** The head's `prev` is not a last node: what it points at has something behind it. */
  ghost predicate OpenEnded(parent: Node)
    reads parent`child, The(parent.child)`prev, (if parent.child == null then {} else The(parent.child.prev))`next
  {
    parent.child != null && parent.child.prev != null && parent.child.prev.next != null
  }

  /** Then no sequence of nodes is the list of children. */
  lemma OpenEndedIsNoList(parent: Node, ys: seq<Node>)
    requires OpenEnded(parent)
    ensures !Children(parent, ys)
  {
  }

  /** Appending the tail once more: its `next` was NULL, and now it points at itself. */
  method AppendTailAgain(parent: Node, ghost xs: seq<Node>)
    requires Children(parent, xs) && xs != []
    modifies parent`child, xs`next, xs`prev
    ensures var tail := xs[|xs| - 1];
            old(tail.next) == null && tail.next == tail && OpenEnded(parent) && !Children(parent, xs + [tail])
  {
    Neighbours(parent.child, xs, 0);
    Neighbours(parent.child, xs, |xs| - 1);
    var ok := AddItemToArray(parent, parent.child.prev, xs);
  }

  /** `cJSON_InsertItemInArray`; a NULL item is refused behind the end, and must not be given in front of it. */
  method InsertItemInArray(parent: Node?, which: int, newitem: Node?, ghost xs: seq<Node>) returns (ok: bool)
    requires parent != null ==> Children(parent, xs) && (0 <= which < |xs| ==> newitem != null)
    modifies The(parent)`child, The(newitem)`next, The(newitem)`prev, xs`next, xs`prev
    ensures ok <==> parent != null && which >= 0 && (which < |xs| || (newitem != null && newitem != parent))
    ensures ok && which < |xs| ==>
              (Children(parent, Insert(xs, which, newitem)) <==> newitem !in xs && newitem != parent)
    ensures ok && which >= |xs| ==>
              (Children(parent, xs + [newitem]) <==> xs == [] || (newitem !in xs && old(newitem.next) == null))
    ensures !ok && parent != null ==> Children(parent, xs)
  {
    if which < 0 {
      return false;
    }
    var after := GetArrayItem(parent, which, xs);
    if after == null {
      ok := AddItemToArray(parent, newitem, xs);
      return;
    }
    InsertBefore(parent, after, newitem, xs, which);
    return true;
  }

  /** The pointer assignments of `cJSON_InsertItemInArray`. */
  method InsertBefore(parent: Node, after: Node, newitem: Node, ghost xs: seq<Node>, ghost k: nat)
    requires Children(parent, xs) && k < |xs| && after == xs[k]
    modifies parent`child, newitem`next, newitem`prev, xs`next, xs`prev
    ensures Children(parent, Insert(xs, k, newitem)) <==> newitem !in xs && newitem != parent
  {
    Neighbours(parent.child, xs, k);
    newitem.next := after;
    newitem.prev := after.prev;
    after.prev := newitem;
    if after == parent.child {
      parent.child := newitem;
    } else {
      newitem.prev.next := newitem;
    }
    if newitem in xs {
      InsertTwice(xs, k, newitem);
    } else if newitem != parent {
      Inserted(parent, newitem, xs, k);
    }
  }

  /** What the pointer assignments amount to if the new item was not in the list. */
  lemma Inserted(parent: Node, newitem: Node, xs: seq<Node>, k: nat)
    requires Distinct(xs) && k < |xs| && newitem !in xs && newitem != parent && parent !in xs
    requires parent.child == (if k == 0 then newitem else xs[0]) && xs[|xs| - 1].next == null
    requires newitem.next == xs[k] && xs[k].prev == newitem
    requires newitem.prev == (if k == 0 then xs[|xs| - 1] else xs[k - 1])
    requires k > 0 ==> xs[k - 1].next == newitem && xs[0].prev == xs[|xs| - 1]
    requires forall i {:trigger xs[i].next} :: 0 <= i < |xs| - 1 && i != k - 1 ==> xs[i].next == xs[i + 1]
    requires forall i {:trigger xs[i].prev} :: 1 <= i < |xs| && i != k ==> xs[i].prev == xs[i - 1]
    ensures Children(parent, Insert(xs, k, newitem))
  {
    InsertAt(xs, k, newitem);
    InsertDistinct(xs, k, newitem);
    hide Insert, Distinct;
  }

  lemma InsertDistinct(xs: seq<Node>, k: nat, x: Node)
    requires k <= |xs| && x !in xs && Distinct(xs)
    ensures Distinct(Insert(xs, k, x)) && forall y :: y in Insert(xs, k, x) ==> y == x || y in xs
  {
  }

  lemma InsertTwice(xs: seq<Node>, k: nat, x: Node)
    requires k <= |xs| && x in xs
    ensures !Distinct(Insert(xs, k, x))
  {
    var j :| 0 <= j < |xs| && xs[j] == x;
    InsertAt(xs, k, x);
    var l := if j < k then j else j + 1;
    assert Insert(xs, k, x)[l] == Insert(xs, k, x)[k];
  }

  lemma InsertAt<T>(xs: seq<T>, k: nat, x: T)
    requires k <= |xs|
    ensures |Insert(xs, k, x)| == |xs| + 1
    ensures forall i {:trigger Insert(xs, k, x)[i]} :: 0 <= i <= |xs| ==>
              Insert(xs, k, x)[i] == if i < k then xs[i] else if i == k then x else xs[i - 1]
  {
  }

  /** `cJSON_DetachItemViaPointer` on a child of `parent`. */
  method DetachItemViaPointer(parent: Node?, item: Node?, ghost xs: seq<Node>, ghost k: nat) returns (detached: Node?)
    requires parent != null && item != null ==> Children(parent, xs) && k < |xs| && xs[k] == item
    modifies The(parent)`child, xs`next, xs`prev
    ensures detached == if parent == null then null else item
    ensures detached != null ==> Children(parent, Remove(xs, k)) && item.next == null && item.prev == null
  {
    if parent == null || item == null {
      return null;
    }
    Neighbours(parent.child, xs, k);
    if item != parent.child {
      item.prev.next := item.next;
    }
    if item.next != null {
      item.next.prev := item.prev;
    }
    if item == parent.child {
      parent.child := item.next;
    } else if item.next == null {
      parent.child.prev := item.prev;
    }
    item.prev := null;
    item.next := null;
    Detached(parent, xs, k);
    return item;
  }

  /** What the pointer assignments amount to. */
  lemma Detached(parent: Node, xs: seq<Node>, k: nat)
    requires Distinct(xs) && k < |xs| && parent !in xs
    requires var ys := Remove(xs, k);
             if ys == [] then parent.child == null
             else parent.child == ys[0] && ys[0].prev == ys[|ys| - 1] && ys[|ys| - 1].next == null
    requires 0 < k < |xs| - 1 ==> xs[k - 1].next == xs[k + 1] && xs[k + 1].prev == xs[k - 1]
    requires forall i {:trigger xs[i].next} :: 0 <= i < |xs| - 1 && i != k - 1 && i != k ==> xs[i].next == xs[i + 1]
    requires forall i {:trigger xs[i].prev} :: 1 <= i < |xs| && i != k && i != k + 1 ==> xs[i].prev == xs[i - 1]
    ensures Children(parent, Remove(xs, k))
  {
    RemoveAt(xs, k);
    hide Remove;
  }

  lemma RemoveAt<T>(xs: seq<T>, k: nat)
    requires k < |xs|
    ensures |Remove(xs, k)| == |xs| - 1
    ensures forall i {:trigger Remove(xs, k)[i]} :: 0 <= i < |xs| - 1 ==>
              Remove(xs, k)[i] == if i < k then xs[i] else xs[i + 1]
  {
  }

  /** `cJSON_ReplaceItemViaPointer`, up to the deletion of the item it takes out. */
  method ReplaceItemViaPointer(parent: Node?, item: Node?, replacement: Node?, ghost xs: seq<Node>, ghost k: nat)
    returns (ok: bool)
    requires parent != null && item != null ==> Children(parent, xs) && k < |xs| && xs[k] == item
    modifies The(parent)`child, The(replacement)`next, The(replacement)`prev, xs`next, xs`prev
    ensures ok <==> parent != null && replacement != null && item != null
    ensures ok ==>
              (Children(parent, xs[k := replacement])
               <==> replacement == item || (replacement !in xs && replacement != parent))
    ensures ok && replacement != item ==> item.next == null && item.prev == null
    ensures !ok && parent != null && item != null ==> Children(parent, xs)
  {
    if parent == null || replacement == null || item == null {
      return false;
    }
    if replacement == item {
      assert xs[k := replacement] == xs;
      return true;
    }
    Neighbours(parent.child, xs, k);
    replacement.next := item.next;
    replacement.prev := item.prev;
    if replacement.next != null {
      replacement.next.prev := replacement;
    }
    if parent.child == item {
      if parent.child.prev == parent.child {
        replacement.prev := replacement;
      }
      parent.child := replacement;
    } else {
      if replacement.prev != null {
        replacement.prev.next := replacement;
      }
      if replacement.next == null {
        parent.child.prev := replacement;
      }
    }
    item.next := null;
    item.prev := null;
    if replacement in xs {
      ReplaceTwice(xs, k, replacement);
    } else if replacement != parent {
      Replaced(parent, replacement, xs, k);
    } else {
      assert xs[k := replacement][k] == parent;
    }
    return true;
  }

  lemma ReplaceTwice(xs: seq<Node>, k: nat, x: Node)
    requires k < |xs| && Distinct(xs) && x in xs && x != xs[k]
    ensures !Distinct(xs[k := x])
  {
    var j :| 0 <= j < |xs| && xs[j] == x;
    assert xs[k := x][j] == xs[k := x][k];
  }

  /** What the pointer assignments amount to if the replacement was not in the list. */
  lemma Replaced(parent: Node, replacement: Node, xs: seq<Node>, k: nat)
    requires Distinct(xs) && k < |xs| && replacement !in xs && replacement != parent && parent !in xs
    requires var ys := xs[k := replacement];
             parent.child == ys[0] && ys[0].prev == ys[|ys| - 1] && ys[|ys| - 1].next == null
    requires k > 0 ==> replacement.prev == xs[k - 1] && xs[k - 1].next == replacement
    requires k < |xs| - 1 ==> replacement.next == xs[k + 1] && xs[k + 1].prev == replacement
    requires forall i {:trigger xs[i].next} :: 0 <= i < |xs| - 1 && i != k - 1 && i != k ==> xs[i].next == xs[i + 1]
    requires forall i {:trigger xs[i].prev} :: 1 <= i < |xs| && i != k && i != k + 1 ==> xs[i].prev == xs[i - 1]
    ensures Children(parent, xs[k := replacement])
  {
    var ys := xs[k := replacement];
    assert forall i :: 0 <= i < |xs| && i != k ==> ys[i] == xs[i];
  }

  /** The links determine the list: there is only one sequence of nodes that they can form. */
  lemma {:induction false} LinksDetermineList(head: Node?, xs: seq<Node>, ys: seq<Node>, k: nat)
    requires Linked(head, xs) && Linked(head, ys) && k <= |xs|
    ensures k <= |ys| && xs[..k] == ys[..k]
    ensures k == |xs| ==> xs == ys
  {
    if k == 0 {
    } else {
      LinksDetermineList(head, xs, ys, k - 1);
      if k > 1 {
        assert xs[k - 2] == xs[..k - 1][k - 2] == ys[..k - 1][k - 2] == ys[k - 2];
        Neighbours(head, xs, k - 2);
        Neighbours(head, ys, k - 2);
      }
      assert xs[..k] == xs[..k - 1] + [xs[k - 1]];
      assert ys[..k] == ys[..k - 1] + [ys[k - 1]];
      Neighbours(head, xs, k - 1);
      Neighbours(head, ys, k - 1);
    }
  }

  /** On sequences, removing undoes inserting, and inserting undoes removing. */
  lemma RemoveUndoesInsert<T>(xs: seq<T>, k: nat, x: T)
    requires k <= |xs|
    ensures Remove(Insert(xs, k, x), k) == xs
    ensures k < |xs| ==> Insert(Remove(xs, k), k, xs[k]) == xs
  {
  }

  lemma InsertLast<T>(xs: seq<T>, x: T)
    ensures Insert(xs, |xs|, x) == xs + [x] && |Insert(xs, |xs|, x)| == |xs| + 1 && Insert(xs, |xs|, x)[|xs|] == x
  {
  }

  lemma RemovedIsGone(parent: Node, xs: seq<Node>, k: nat)
    requires Children(parent, xs) && k < |xs|
    ensures xs[k] !in Remove(xs, k) && xs[k] != parent
    ensures |Remove(xs, k)| == |xs| - 1 && forall n :: n in Remove(xs, k) ==> n in xs
  {
  }

  /** Detaching undoes inserting: the children are as before, and the item is loose again. */
  method InsertThenDetach(parent: Node, which: int, newitem: Node, ghost xs: seq<Node>) returns (ok: bool)
    requires Children(parent, xs) && newitem !in xs && newitem != parent
    requires which < |xs| || newitem.next == null
    modifies parent`child, newitem`next, newitem`prev, xs`next, xs`prev
    ensures ok <==> which >= 0
    ensures Children(parent, xs) && (ok ==> newitem.next == null && newitem.prev == null)
  {
    hide Children, Linked;
    ok := InsertItemInArray(parent, which, newitem, xs);
    if !ok {
      return;
    }
    ghost var k := if which < |xs| then which else |xs|;
    InsertLast(xs, newitem);
    RemoveUndoesInsert(xs, k, newitem);
    var detached := DetachItemViaPointer(parent, newitem, Insert(xs, k, newitem), k);
  }

  /** Inserting undoes detaching, at every position. */
  method DetachThenInsert(parent: Node, which: nat, ghost xs: seq<Node>) returns (item: Node?)
    requires Children(parent, xs)
    modifies parent`child, xs`next, xs`prev
    ensures item == if which < |xs| then xs[which] else null
    ensures Children(parent, xs)
  {
    hide Linked, Children;
    item := GetArrayItem(parent, which, xs);
    if item == null {
      return;
    }
    RemovedIsGone(parent, xs, which);
    var detached := DetachItemViaPointer(parent, item, xs, which);
    ghost var rest := Remove(xs, which);
    InsertLast(rest, item);
    RemoveUndoesInsert(xs, which, item);
    var ok := InsertItemInArray(parent, which, item, rest);
  }
}
