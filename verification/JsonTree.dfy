/**
 The value a tree of cJSON items stands for.
 */
module JsonTree {
  import opened Bytes

  /** `String` carries `valuestring` and a member's key is `string`; either pointer may be NULL. */
  datatype Json =
    | Null
    | False
    | True
    | Number(value: real)
    | String(text: CString)
    | Array(items: seq<Json>)
    | Object(members: seq<Member>)

  datatype Member = Member(key: CString, value: Json)

  /** CJSON_NESTING_LIMIT */
  const NESTING_LIMIT := 1000

  function Max(a: nat, b: nat): nat { if a < b then b else a }

  /** How deeply arrays and objects are nested in `t`. */
  function Nesting(t: Json): nat {
    match t
    case Array(items) => 1 + ItemsNesting(items)
    case Object(members) => 1 + MembersNesting(members)
    case _ => 0
  }

  function ItemsNesting(items: seq<Json>): nat {
    if items == [] then 0 else Max(Nesting(items[0]), ItemsNesting(items[1..]))
  }

  function MembersNesting(members: seq<Member>): nat {
    if members == [] then 0
    else
      assert members[0].value < members[0];
      Max(Nesting(members[0].value), MembersNesting(members[1..]))
  }

  // ---------------------------------------------------------------- numbers

  /** `(int)number`, which drops the fraction. */
  function Truncate(d: real): int {
    if d >= 0.0 then d.Floor else -((-d).Floor)
  }

  /** `valueint` for a `valuedouble`: truncation that saturates at the ends of `int`. */
  function ValueInt(d: real): int {
    if d >= INT_MAX as real then INT_MAX
    else if d <= INT_MIN as real then INT_MIN
    else Truncate(d)
  }

  /** The guard of the `"%d"` branch of `print_number`. */
  predicate IsInt32(d: real) { d == ValueInt(d) as real }

  /** Every number of the tree takes the `"%d"` branch. */
  predicate Int32Numbers(t: Json) {
    match t
    case Number(d) => IsInt32(d)
    case Array(items) => forall i :: 0 <= i < |items| ==> Int32Numbers(items[i])
    case Object(members) => forall i :: 0 <= i < |members| ==> Int32Numbers(members[i].value)
    case _ => true
  }

  /** The guard selects exactly the integers that an `int` can hold. */
  lemma Int32Meaning(d: real)
    ensures IsInt32(d) <==> d == d.Floor as real && INT_MIN <= d.Floor <= INT_MAX
  {
    if d == d.Floor as real {
      assert ((-d.Floor) as real).Floor == -d.Floor;
    }
    if IsInt32(d) {
      assert INT_MIN <= ValueInt(d) <= INT_MAX;
    }
  }

  /** `valueint` is the integer part, without the fraction and with the sign, and the nearest `int` to one beyond. */
  lemma ValueIntMeaning(d: real)
    ensures -2147483648 <= ValueInt(d) <= 2147483647
    ensures d >= 2147483648.0 ==> ValueInt(d) == 2147483647
    ensures d <= -2147483649.0 ==> ValueInt(d) == -2147483648
    ensures 0.0 <= d < 2147483648.0 ==> 0 <= ValueInt(d) && ValueInt(d) as real <= d < ValueInt(d) as real + 1.0
    ensures -2147483649.0 < d <= 0.0 ==> ValueInt(d) <= 0 && ValueInt(d) as real - 1.0 < d <= ValueInt(d) as real
  {
  }

  // ---------------------------------------------------------------- NULL strings

  /** NULL prints like the empty string, so this is the most that printing can preserve. */
  function Filled(s: CString): CString {
    Chars(if s.NullPtr? then [] else s.text)
  }

  /** The tree with every NULL string replaced by an empty one. */
  function FillNulls(t: Json): Json {
    match t
    case String(s) => String(Filled(s))
    case Array(items) => Array(FillItems(items))
    case Object(members) => Object(FillMembers(members))
    case _ => t
  }

  function FillItems(items: seq<Json>): (r: seq<Json>)
    ensures |r| == |items|
  {
    if items == [] then [] else [FillNulls(items[0])] + FillItems(items[1..])
  }

  function FillMembers(members: seq<Member>): (r: seq<Member>)
    ensures |r| == |members|
  {
    if members == [] then []
    else
      assert members[0].value < members[0];
      [Member(Filled(members[0].key), FillNulls(members[0].value))] + FillMembers(members[1..])
  }

  /** No string and no key of the tree is NULL. */
  predicate NoNulls(t: Json) {
    match t
    case String(s) => s.Chars?
    case Array(items) => forall i :: 0 <= i < |items| ==> NoNulls(items[i])
    case Object(members) => forall i :: 0 <= i < |members| ==> members[i].key.Chars? && NoNulls(members[i].value)
    case _ => true
  }

  /** Filling changes exactly the trees that hold a NULL string. */
  lemma {:induction false} FillNullsIdentity(t: Json)
    ensures FillNulls(t) == t <==> NoNulls(t)
  {
    match t
    case Array(items) => FillItemsIdentity(items);
    case Object(members) => FillMembersIdentity(members);
    case _ =>
  }

  lemma {:induction false} FillItemsIdentity(items: seq<Json>)
    ensures FillItems(items) == items <==> forall i :: 0 <= i < |items| ==> NoNulls(items[i])
  {
    if items == [] {
    } else {
      FillNullsIdentity(items[0]);
      FillItemsIdentity(items[1..]);
      var r := FillItems(items);
      assert r[0] == FillNulls(items[0]) && r[1..] == FillItems(items[1..]);
      assert items == [items[0]] + items[1..];
      assert forall i :: 1 <= i < |items| ==> items[i] == items[1..][i - 1];
    }
  }

  lemma {:induction false} FillMembersIdentity(members: seq<Member>)
    ensures FillMembers(members) == members <==>
            forall i :: 0 <= i < |members| ==> members[i].key.Chars? && NoNulls(members[i].value)
  {
    if members == [] {
    } else {
      assert members[0].value < members[0];
      FillNullsIdentity(members[0].value);
      FillMembersIdentity(members[1..]);
      var r := FillMembers(members);
      assert r[0] == Member(Filled(members[0].key), FillNulls(members[0].value)) && r[1..] == FillMembers(members[1..]);
      assert members == [members[0]] + members[1..];
      assert forall i :: 1 <= i < |members| ==> members[i] == members[1..][i - 1];
    }
  }
}
