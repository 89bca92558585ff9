/**
 What `cJSON_Compare` decides: equality of meanings, with arrays as sequences and objects as maps.
 */
module CompareSpec {
  import opened Bytes
  import opened JsonTree

  /** DBL_EPSILON, 2 to the power -52. */
  const EPSILON: real := 1.0 / 4503599627370496.0

  function Abs(x: real): real { if x < 0.0 then -x else x }

  /** `compare_double` */
  predicate CompareDouble(a: real, b: real) {
    var maxVal := if Abs(a) > Abs(b) then Abs(a) else Abs(b);
    Abs(a - b) <= maxVal * EPSILON
  }

  function ToLower(b: nonzero): nonzero {
    if 65 <= b <= 90 then b + 32 else b
  }

  /** A key as the comparison of keys sees it. */
  function Fold(key: Text, caseSensitive: bool): Text {
    if caseSensitive then key else seq(|key|, i requires 0 <= i < |key| => ToLower(key[i]))
  }

  /**
   `get_object_item`: index of the first member with the key. The case-sensitive search gives up at
   a member without a key; the other one passes over it.
   */
  function Find(members: seq<Member>, key: Text, caseSensitive: bool): (r: Option<nat>)
    ensures r.Some? ==> r.value < |members|
  {
    if members == [] then None
    else if members[0].key.NullPtr? then
      if caseSensitive then None else Later(Find(members[1..], key, caseSensitive))
    else if Fold(members[0].key.text, caseSensitive) == Fold(key, caseSensitive) then Some(0)
    else Later(Find(members[1..], key, caseSensitive))
  }

  function Later(r: Option<nat>): Option<nat> {
    if r.Some? then Some(r.value + 1) else None
  }

  lemma {:induction false} ItemNesting(items: seq<Json>, i: nat)
    requires i < |items|
    ensures Nesting(items[i]) <= ItemsNesting(items)
  {
    if i == 0 {
    } else {
      ItemNesting(items[1..], i - 1);
    }
  }

  lemma {:induction false} MemberNesting(members: seq<Member>, i: nat)
    requires i < |members|
    ensures Nesting(members[i].value) <= MembersNesting(members)
  {
    if i == 0 {
    } else {
      MemberNesting(members[1..], i - 1);
    }
  }

  /** `cJSON_Compare` on trees that share no node. */
  predicate Compare(a: Json, b: Json, caseSensitive: bool)
    decreases Nesting(a) + Nesting(b), 0
  {
    match (a, b)
    case (Null, Null) => true
    case (False, False) => true
    case (True, True) => true
    case (Number(x), Number(y)) => CompareDouble(x, y)
    case (String(s), String(t)) => s.Chars? && s == t
    case (Array(xs), Array(ys)) =>
      && |xs| == |ys|
      && forall i :: 0 <= i < |xs| ==> (ItemNesting(xs, i); ItemNesting(ys, i); Compare(xs[i], ys[i], caseSensitive))
    case (Object(ms), Object(ns)) =>
      && (forall i :: 0 <= i < |ms| ==> (MemberNesting(ms, i); HasMatch(ms[i], ns, caseSensitive)))
      && (forall j :: 0 <= j < |ns| ==> (MemberNesting(ns, j); HasMatch(ns[j], ms, caseSensitive)))
    case _ => false
  }

  /** Some member, the first with the key of `m`, compares equal to it. */
  predicate HasMatch(m: Member, ns: seq<Member>, caseSensitive: bool)
    decreases Nesting(m.value) + MembersNesting(ns), 1
  {
    m.key.Chars? &&
    var j := Find(ns, m.key.text, caseSensitive);
    j.Some? && (MemberNesting(ns, j.value); Compare(m.value, ns[j.value].value, caseSensitive))
  }

  // ---------------------------------------------------------------- meanings

  datatype Meaning =
    | MNull
    | MFalse
    | MTrue
    | MNumber(value: real)
    | MString(text: CString)
    | MArray(items: seq<Meaning>)
    | MObject(members: map<Text, Meaning>)

  function Mean(t: Json, caseSensitive: bool): Meaning {
    match t
    case Null => MNull
    case False => MFalse
    case True => MTrue
    case Number(d) => MNumber(d)
    case String(s) => MString(s)
    case Array(items) => MArray(seq(|items|, i requires 0 <= i < |items| => Mean(items[i], caseSensitive)))
    case Object(members) => MObject(MeanMembers(members, caseSensitive))
  }

  /** An object as a map: of several members with one key, the first counts. */
  function MeanMembers(members: seq<Member>, caseSensitive: bool): map<Text, Meaning> {
    if members == [] then map[]
    else
      assert members[0].value < members[0];
      var rest := MeanMembers(members[1..], caseSensitive);
      if members[0].key.NullPtr? then rest
      else rest[Fold(members[0].key.text, caseSensitive) := Mean(members[0].value, caseSensitive)]
  }

  /**
   The trees that compare equal to themselves: no NULL string, no NULL key, and members that share a key
   have one meaning.
   */
  predicate Consistent(t: Json, caseSensitive: bool) {
    match t
    case String(s) => s.Chars?
    case Array(items) => forall i :: 0 <= i < |items| ==> Consistent(items[i], caseSensitive)
    case Object(members) =>
      forall i :: 0 <= i < |members| ==>
        && members[i].key.Chars?
        && Consistent(members[i].value, caseSensitive)
        && SoleMeaning(members, i, caseSensitive)
    case _ => true
  }

  predicate SoleMeaning(members: seq<Member>, i: nat, caseSensitive: bool)
    requires i < |members|
  {
    members[i].key.Chars? ==>
      var key := Fold(members[i].key.text, caseSensitive);
      key in MeanMembers(members, caseSensitive)
      && MeanMembers(members, caseSensitive)[key] == Mean(members[i].value, caseSensitive)
  }

  // ---------------------------------------------------------------- numbers

  /** On integers that an `int` can hold, the tolerance of `compare_double` never matters. */
  lemma CompareDoubleIsEquality(a: real, b: real)
    requires IsInt32(a) && IsInt32(b)
    ensures CompareDouble(a, b) <==> a == b
  {
    var m, n := ValueInt(a), ValueInt(b);
    if m != n {
      assert Abs(a - b) >= 1.0;
      assert Abs(a) <= 2147483648.0 && Abs(b) <= 2147483648.0;
      assert EPSILON * 2147483648.0 < 1.0;
    } else {
      assert Abs(a) * EPSILON >= 0.0;
    }
  }

  /** Beyond them it lets the next number in double precision pass, but not the one after it. */
  lemma OneStepIsTolerated()
    ensures CompareDouble(1.0, 1.0 + 1.0 / 4503599627370496.0) && CompareDouble(1.0 + 1.0 / 4503599627370496.0, 1.0)
    ensures !CompareDouble(1.0, 1.0 + 2.0 / 4503599627370496.0) && !CompareDouble(-1.0, 1.0)
    ensures !CompareDouble(0.0, 1.0 / 4503599627370496.0)
  {
  }

  // ---------------------------------------------------------------- keys

  /** The same letter, one of them a capital. */
  predicate SameLetter(a: nonzero, b: nonzero) {
    (65 <= a <= 90 && b == a + 32) || (65 <= b <= 90 && a == b + 32)
  }

  /** Two keys are one if they differ in capitals only, and for a case-sensitive comparison not even in those. */
  lemma FoldMeaning(s: Text, t: Text)
    ensures Fold(s, true) == Fold(t, true) <==> s == t
    ensures Fold(s, false) == Fold(t, false) <==>
              |s| == |t| && forall k :: 0 <= k < |s| ==> s[k] == t[k] || SameLetter(s[k], t[k])
  {
    var a, b := Fold(s, false), Fold(t, false);
    if a == b {
      forall k | 0 <= k < |s| ensures s[k] == t[k] || SameLetter(s[k], t[k]) {
        assert a[k] == b[k];
      }
    }
  }

  // ---------------------------------------------------------------- trees without objects

  predicate NoObjects(t: Json) {
    match t
    case Array(items) => forall i :: 0 <= i < |items| ==> NoObjects(items[i])
    case Object(_) => false
    case _ => true
  }

  /** A tree without objects is its own meaning. */
  lemma {:induction false} MeanOfNoObjects(a: Json, b: Json, caseSensitive: bool)
    requires NoObjects(a)
    ensures Mean(a, caseSensitive) == Mean(b, caseSensitive) <==> a == b
  {
    if a.Array? && b.Array? {
      var xs, ys := Mean(a, caseSensitive).items, Mean(b, caseSensitive).items;
      if xs == ys {
        forall i | 0 <= i < |xs| ensures a.items[i] == b.items[i] {
          assert xs[i] == ys[i];
          MeanOfNoObjects(a.items[i], b.items[i], caseSensitive);
        }
      }
    }
  }

  // ---------------------------------------------------------------- first matches

  predicate HasKey(m: Member, key: Text, caseSensitive: bool) {
    m.key.Chars? && Fold(m.key.text, caseSensitive) == Fold(key, caseSensitive)
  }

  predicate IsFirst(members: seq<Member>, key: Text, caseSensitive: bool, j: nat) {
    && j < |members| && HasKey(members[j], key, caseSensitive)
    && forall k :: 0 <= k < j ==> !HasKey(members[k], key, caseSensitive)
  }

  /** A member without a key stands in front of member `k`. */
  predicate Blocked(members: seq<Member>, k: nat) {
    exists j :: 0 <= j < k && j < |members| && members[j].key.NullPtr?
  }

  /**
   What is found is the first member with the key, and the one that counts in the map. Nothing is found only if
   no member has the key, save behind a member without one that a case-sensitive search does not pass.
   */
  lemma {:induction false} FindIsFirst(members: seq<Member>, key: Text, caseSensitive: bool)
    ensures var r := Find(members, key, caseSensitive);
            r.Some? ==>
              && IsFirst(members, key, caseSensitive, r.value)
              && Fold(key, caseSensitive) in MeanMembers(members, caseSensitive)
              && MeanMembers(members, caseSensitive)[Fold(key, caseSensitive)]
                == Mean(members[r.value].value, caseSensitive)
    ensures Find(members, key, caseSensitive).None? ==>
              forall k :: 0 <= k < |members| && HasKey(members[k], key, caseSensitive) ==>
                caseSensitive && Blocked(members, k)
  {
    hide Fold, Mean;
    if members == [] {
    } else {
      FindIsFirst(members[1..], key, caseSensitive);
      if Find(members, key, caseSensitive).None? {
        forall k | 0 <= k < |members| && HasKey(members[k], key, caseSensitive)
          ensures caseSensitive && Blocked(members, k)
        {
          if !(members[0].key.NullPtr? && caseSensitive) {
            assert members[1..][k - 1] == members[k] && Blocked(members[1..], k - 1);
            var j :| 0 <= j < k - 1 && j < |members[1..]| && members[1..][j].key.NullPtr?;
            assert members[j + 1].key.NullPtr?;
          }
        }
      }
    }
  }

  /** At a member without a key a case-sensitive search ends, and the other goes on. */
  lemma {:induction false} NamelessMember(v: Json, members: seq<Member>, key: Text)
    ensures Find([Member(NullPtr, v)] + members, key, true) == None
    ensures Find([Member(NullPtr, v)] + members, key, false) == Later(Find(members, key, false))
  {
    assert ([Member(NullPtr, v)] + members)[1..] == members;
  }

  /** Without NULL keys every key of the map is found. */
  lemma {:induction false} FindComplete(members: seq<Member>, key: Text, caseSensitive: bool)
    requires forall i :: 0 <= i < |members| ==> members[i].key.Chars?
    requires Fold(key, caseSensitive) in MeanMembers(members, caseSensitive)
    ensures Find(members, key, caseSensitive).Some?
  {
    hide Fold, Mean;
    if members == [] {
    } else {
      if Fold(members[0].key.text, caseSensitive) != Fold(key, caseSensitive) {
        FindComplete(members[1..], key, caseSensitive);
      }
    }
  }

  /** The keys of the map are the keys of the members. */
  lemma {:induction false} MeanMembersKeys(members: seq<Member>, caseSensitive: bool, key: Text)
    ensures key in MeanMembers(members, caseSensitive) ==>
              exists i :: 0 <= i < |members| && members[i].key.Chars? && Fold(members[i].key.text, caseSensitive) == key
  {
    hide Fold, Mean;
    if members != [] && key in MeanMembers(members, caseSensitive) {
      if members[0].key.Chars? && Fold(members[0].key.text, caseSensitive) == key {
      } else {
        MeanMembersKeys(members[1..], caseSensitive, key);
        var i :| 0 <= i < |members[1..]| && members[1..][i].key.Chars?
          && Fold(members[1..][i].key.text, caseSensitive) == key;
        assert members[i + 1] == members[1..][i];
      }
    }
  }

  lemma {:induction false} MemberInMap(members: seq<Member>, i: nat, caseSensitive: bool)
    requires i < |members| && members[i].key.Chars?
    ensures Fold(members[i].key.text, caseSensitive) in MeanMembers(members, caseSensitive)
  {
    hide Fold, Mean;
    if i == 0 {
    } else {
      MemberInMap(members[1..], i - 1, caseSensitive);
    }
  }

  // ---------------------------------------------------------------- the decision

  /** What a match amounts to, in terms of meanings. */
  predicate Matched(m: Member, ns: seq<Member>, caseSensitive: bool) {
    && m.key.Chars? && Consistent(m.value, caseSensitive)
    && var j := Find(ns, m.key.text, caseSensitive);
       j.Some? && Consistent(ns[j.value].value, caseSensitive)
       && Mean(m.value, caseSensitive) == Mean(ns[j.value].value, caseSensitive)
  }

  /** cJSON_Compare holds exactly of consistent trees with one meaning. */
  lemma {:induction false} CompareDecides(a: Json, b: Json, caseSensitive: bool)
    requires Int32Numbers(a) && Int32Numbers(b)
    ensures Compare(a, b, caseSensitive) <==>
            Consistent(a, caseSensitive) && Consistent(b, caseSensitive)
              && Mean(a, caseSensitive) == Mean(b, caseSensitive)
    decreases Nesting(a) + Nesting(b), 0
  {
    match (a, b)
    case (Number(x), Number(y)) => CompareDoubleIsEquality(x, y);
    case (Array(xs), Array(ys)) => CompareArrays(xs, ys, caseSensitive);
    case (Object(ms), Object(ns)) => CompareObjects(ms, ns, caseSensitive);
    case _ =>
  }

  lemma {:induction false} CompareArrays(xs: seq<Json>, ys: seq<Json>, caseSensitive: bool)
    requires Int32Numbers(Array(xs)) && Int32Numbers(Array(ys))
    ensures var a, b := Array(xs), Array(ys);
            Compare(a, b, caseSensitive) <==>
            Consistent(a, caseSensitive) && Consistent(b, caseSensitive)
              && Mean(a, caseSensitive) == Mean(b, caseSensitive)
    decreases ItemsNesting(xs) + ItemsNesting(ys), 1
  {
    hide IsInt32;
    var mx := Mean(Array(xs), caseSensitive).items;
    var my := Mean(Array(ys), caseSensitive).items;
    if |xs| == |ys| {
      forall i | 0 <= i < |xs|
        ensures Compare(xs[i], ys[i], caseSensitive) <==>
                Consistent(xs[i], caseSensitive) && Consistent(ys[i], caseSensitive) && mx[i] == my[i]
      {
        ItemNesting(xs, i);
        ItemNesting(ys, i);
        CompareDecides(xs[i], ys[i], caseSensitive);
      }
    } else {
      assert |mx| != |my|;
    }
  }

  lemma {:induction false} MatchDecides(m: Member, ns: seq<Member>, caseSensitive: bool)
    requires Int32Numbers(m.value) && forall j :: 0 <= j < |ns| ==> Int32Numbers(ns[j].value)
    ensures HasMatch(m, ns, caseSensitive) <==> Matched(m, ns, caseSensitive)
    decreases Nesting(m.value) + MembersNesting(ns), 1
  {
    hide Int32Numbers, Compare, Mean, Consistent;
    if m.key.Chars? {
      var j := Find(ns, m.key.text, caseSensitive);
      if j.Some? {
        MemberNesting(ns, j.value);
        CompareDecides(m.value, ns[j.value].value, caseSensitive);
      }
    }
  }

  /** All members of `ms` are matched in `ns`. */
  ghost predicate AllMatched(ms: seq<Member>, ns: seq<Member>, caseSensitive: bool) {
    forall i :: 0 <= i < |ms| ==> Matched(ms[i], ns, caseSensitive)
  }

  lemma {:induction false} CompareObjects(ms: seq<Member>, ns: seq<Member>, caseSensitive: bool)
    requires Int32Numbers(Object(ms)) && Int32Numbers(Object(ns))
    ensures var a, b := Object(ms), Object(ns);
            Compare(a, b, caseSensitive) <==>
            Consistent(a, caseSensitive) && Consistent(b, caseSensitive)
              && Mean(a, caseSensitive) == Mean(b, caseSensitive)
    decreases MembersNesting(ms) + MembersNesting(ns), 2
  {
    hide Matched, IsInt32, HasMatch, Compare, MeanMembers, Int32Numbers, Consistent;
    Int32Members(ms);
    Int32Members(ns);
    CompareObjectUnfold(ms, ns, caseSensitive);
    forall i | 0 <= i < |ms| ensures HasMatch(ms[i], ns, caseSensitive) <==> Matched(ms[i], ns, caseSensitive) {
      MemberNesting(ms, i);
      MatchDecides(ms[i], ns, caseSensitive);
    }
    forall j | 0 <= j < |ns| ensures HasMatch(ns[j], ms, caseSensitive) <==> Matched(ns[j], ms, caseSensitive) {
      MemberNesting(ns, j);
      MatchDecides(ns[j], ms, caseSensitive);
    }
    if AllMatched(ms, ns, caseSensitive) && AllMatched(ns, ms, caseSensitive) {
      MatchedMaps(ms, ns, caseSensitive);
      MatchedConsistent(ms, ns, caseSensitive);
      MatchedConsistent(ns, ms, caseSensitive);
    }
    if Consistent(Object(ms), caseSensitive) && Consistent(Object(ns), caseSensitive)
       && Mean(Object(ms), caseSensitive) == Mean(Object(ns), caseSensitive) {
      EqualMapsMatch(ms, ns, caseSensitive);
      EqualMapsMatch(ns, ms, caseSensitive);
    }
  }

  lemma Int32Members(ms: seq<Member>)
    requires Int32Numbers(Object(ms))
    ensures forall i :: 0 <= i < |ms| ==> Int32Numbers(ms[i].value)
  {
  }

  lemma {:induction false} CompareObjectUnfold(ms: seq<Member>, ns: seq<Member>, caseSensitive: bool)
    ensures Compare(Object(ms), Object(ns), caseSensitive) <==>
            && (forall i :: 0 <= i < |ms| ==> HasMatch(ms[i], ns, caseSensitive))
            && (forall j :: 0 <= j < |ns| ==> HasMatch(ns[j], ms, caseSensitive))
  {
    hide HasMatch;
  }

  /** A matched member finds its meaning in the other map. */
  lemma {:induction false} MatchedMeaning(ms: seq<Member>, ns: seq<Member>, i: nat, caseSensitive: bool)
    requires AllMatched(ms, ns, caseSensitive) && i < |ms|
    ensures ms[i].key.Chars? && Consistent(ms[i].value, caseSensitive)
    ensures var key := Fold(ms[i].key.text, caseSensitive);
            key in MeanMembers(ns, caseSensitive)
            && MeanMembers(ns, caseSensitive)[key] == Mean(ms[i].value, caseSensitive)
  {
    hide Fold, Mean, MeanMembers, Consistent;
    assert Matched(ms[i], ns, caseSensitive);
    FindIsFirst(ns, ms[i].key.text, caseSensitive);
  }

  /** Every key of the one map is in the other, with the same meaning. */
  lemma {:induction false} MatchedKey(ms: seq<Member>, ns: seq<Member>, key: Text, caseSensitive: bool)
    requires AllMatched(ms, ns, caseSensitive) && key in MeanMembers(ms, caseSensitive)
    ensures key in MeanMembers(ns, caseSensitive)
            && MeanMembers(ns, caseSensitive)[key] == MeanMembers(ms, caseSensitive)[key]
  {
    hide Fold, Mean, MeanMembers, Matched;
    MeanMembersKeys(ms, caseSensitive, key);
    var i :| 0 <= i < |ms| && ms[i].key.Chars? && Fold(ms[i].key.text, caseSensitive) == key;
    forall k | 0 <= k < |ms| ensures ms[k].key.Chars? {
      MatchedMeaning(ms, ns, k, caseSensitive);
    }
    FindComplete(ms, ms[i].key.text, caseSensitive);
    FindIsFirst(ms, ms[i].key.text, caseSensitive);
    MatchedMeaning(ms, ns, Find(ms, ms[i].key.text, caseSensitive).value, caseSensitive);
  }

  lemma {:induction false} MatchedMaps(ms: seq<Member>, ns: seq<Member>, caseSensitive: bool)
    requires AllMatched(ms, ns, caseSensitive) && AllMatched(ns, ms, caseSensitive)
    ensures MeanMembers(ms, caseSensitive) == MeanMembers(ns, caseSensitive)
  {
    hide Fold, Mean, MeanMembers, AllMatched;
    var f, g := MeanMembers(ms, caseSensitive), MeanMembers(ns, caseSensitive);
    forall key | key in f ensures key in g && g[key] == f[key] {
      MatchedKey(ms, ns, key, caseSensitive);
    }
    forall key | key in g ensures key in f {
      MatchedKey(ns, ms, key, caseSensitive);
    }
  }

  lemma {:induction false} MatchedConsistent(ms: seq<Member>, ns: seq<Member>, caseSensitive: bool)
    requires AllMatched(ms, ns, caseSensitive)
    requires MeanMembers(ms, caseSensitive) == MeanMembers(ns, caseSensitive)
    ensures Consistent(Object(ms), caseSensitive)
  {
    hide Fold, Mean, MeanMembers, AllMatched;
    forall i | 0 <= i < |ms|
      ensures ms[i].key.Chars? && Consistent(ms[i].value, caseSensitive) && SoleMeaning(ms, i, caseSensitive)
    {
      MatchedMeaning(ms, ns, i, caseSensitive);
    }
  }

  lemma {:induction false} EqualMapsMatch(ms: seq<Member>, ns: seq<Member>, caseSensitive: bool)
    requires Consistent(Object(ms), caseSensitive) && Consistent(Object(ns), caseSensitive)
    requires MeanMembers(ms, caseSensitive) == MeanMembers(ns, caseSensitive)
    ensures AllMatched(ms, ns, caseSensitive)
  {
    hide Fold, Mean, MeanMembers;
    forall i | 0 <= i < |ms| ensures Matched(ms[i], ns, caseSensitive) {
      var key := ms[i].key.text;
      assert SoleMeaning(ms, i, caseSensitive);
      FindComplete(ns, key, caseSensitive);
      FindIsFirst(ns, key, caseSensitive);
    }
  }

  // ---------------------------------------------------------------- consequences

  /** With distinct keys and no NULLs a tree is consistent. */
  predicate DistinctKeys(t: Json, caseSensitive: bool) {
    match t
    case Array(items) => forall i :: 0 <= i < |items| ==> DistinctKeys(items[i], caseSensitive)
    case Object(members) =>
      && (forall i :: 0 <= i < |members| ==> DistinctKeys(members[i].value, caseSensitive))
      && (forall i, j :: 0 <= i < j < |members| && members[i].key.Chars? && members[j].key.Chars? ==>
            Fold(members[i].key.text, caseSensitive) != Fold(members[j].key.text, caseSensitive))
    case _ => true
  }

  lemma {:induction false} DistinctKeysAreConsistent(t: Json, caseSensitive: bool)
    requires NoNulls(t) && DistinctKeys(t, caseSensitive)
    ensures Consistent(t, caseSensitive)
  {
    match t
    case Array(items) =>
      forall i | 0 <= i < |items| ensures Consistent(items[i], caseSensitive) {
        DistinctKeysAreConsistent(items[i], caseSensitive);
      }
    case Object(members) =>
      hide Fold, Mean, MeanMembers;
      forall i | 0 <= i < |members|
        ensures Consistent(members[i].value, caseSensitive) && SoleMeaning(members, i, caseSensitive)
      {
        DistinctKeysAreConsistent(members[i].value, caseSensitive);
        var key := members[i].key.text;
        MemberInMap(members, i, caseSensitive);
        FindComplete(members, key, caseSensitive);
        FindIsFirst(members, key, caseSensitive);
      }
    case _ =>
  }

  /** An object with one key for two values: null, then true. */
  const REPEATED_KEY := Object([Member(Chars([97]), Null), Member(Chars([97]), True)])

  /** It does not compare equal to a copy of itself, because each search for the key stops at the null. */
  lemma {:induction false} RepeatedKeyDiffers(caseSensitive: bool)
    ensures !Compare(REPEATED_KEY, REPEATED_KEY, caseSensitive) && !Consistent(REPEATED_KEY, caseSensitive)
  {
    var members := REPEATED_KEY.members;
    CompareDecides(REPEATED_KEY, REPEATED_KEY, caseSensitive);
    assert !SoleMeaning(members, 1, caseSensitive) by {
      assert Find(members, [97], caseSensitive) == Some(0);
      FindIsFirst(members, [97], caseSensitive);
    }
  }

  /** On consistent trees cJSON_Compare is an equivalence; and only those compare equal to a copy of themselves. */
  lemma {:induction false} CompareIsEquivalence(a: Json, b: Json, c: Json, caseSensitive: bool)
    requires Int32Numbers(a) && Int32Numbers(b) && Int32Numbers(c)
    ensures Compare(a, a, caseSensitive) <==> Consistent(a, caseSensitive)
    ensures Compare(a, b, caseSensitive) <==> Compare(b, a, caseSensitive)
    ensures Compare(a, b, caseSensitive) && Compare(b, c, caseSensitive) ==> Compare(a, c, caseSensitive)
  {
    CompareDecides(a, a, caseSensitive);
    CompareDecides(a, b, caseSensitive);
    CompareDecides(b, a, caseSensitive);
    CompareDecides(b, c, caseSensitive);
    CompareDecides(a, c, caseSensitive);
  }
}
