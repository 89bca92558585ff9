/**
 Minifying the formatted print of a tree: when it gives the unformatted print.
 */
module MinifyPrinted {
  import opened Bytes
  import opened StringLiteral
  import opened JsonTree
  import opened Rendering
  import opened Minify

  predicate EndsInBackslash(s: CString) {
    s.Chars? && s.text != [] && s.text[|s.text| - 1] == BACKSLASH
  }

  /** No string value and no key of the tree ends in a backslash. */
  predicate NoTrailingBackslash(t: Json) {
    match t
    case String(s) => !EndsInBackslash(s)
    case Array(items) => forall i :: 0 <= i < |items| ==> NoTrailingBackslash(items[i])
    case Object(members) =>
      forall i :: 0 <= i < |members| ==> !EndsInBackslash(members[i].key) && NoTrailingBackslash(members[i].value)
    case _ => true
  }

  /**
   A string may end in a backslash only if it is the very last value of the tree and every container
   around it is an array.
   */
  predicate BackslashOnlyAtEnd(t: Json) {
    match t
    case String(_) => true
    case Array(items) => ItemsBackslashOnlyAtEnd(items)
    case _ => NoTrailingBackslash(t)
  }

  predicate ItemsBackslashOnlyAtEnd(items: seq<Json>) {
    if items == [] then true
    else if |items| == 1 then BackslashOnlyAtEnd(items[0])
    else NoTrailingBackslash(items[0]) && ItemsBackslashOnlyAtEnd(items[1..])
  }

  predicate ItemsNoTrailing(items: seq<Json>) {
    forall i :: 0 <= i < |items| ==> NoTrailingBackslash(items[i])
  }

  predicate MembersNoTrailing(members: seq<Member>) {
    forall i :: 0 <= i < |members| ==> !EndsInBackslash(members[i].key) && NoTrailingBackslash(members[i].value)
  }

  // ---------------------------------------------------------------- texts that differ

  ghost predicate DivergesAt(m: seq<byte>, u: seq<byte>, k: nat) {
    k < |m| && k < |u| && m[..k] == u[..k] && m[k] != u[k]
  }

  /** Neither text is a prefix of the other. */
  ghost predicate Diverges(m: seq<byte>, u: seq<byte>) {
    exists k: nat :: DivergesAt(m, u, k)
  }

  lemma DivergesBehind(p: seq<byte>, m: seq<byte>, u: seq<byte>)
    requires Diverges(m, u)
    ensures Diverges(p + m, p + u)
  {
    var k: nat :| DivergesAt(m, u, k);
    assert (p + m)[..|p| + k] == p + m[..k] && (p + u)[..|p| + k] == p + u[..k];
    assert DivergesAt(p + m, p + u, |p| + k);
  }

  lemma DivergesLonger(m: seq<byte>, u: seq<byte>, v: seq<byte>)
    requires Diverges(m, u)
    ensures Diverges(m, u + v) && m != u
  {
    var k: nat :| DivergesAt(m, u, k);
    assert (u + v)[..k] == u[..k];
    assert DivergesAt(m, u + v, k);
  }

  lemma DivergesNow(p: seq<byte>, m: seq<byte>, u: seq<byte>)
    requires m != [] && u != [] && m[0] != u[0]
    ensures Diverges(p + m, p + u)
  {
    assert DivergesAt(m, u, 0);
    DivergesBehind(p, m, u);
  }

  // ---------------------------------------------------------------- pieces of text

  predicate IsPlain(b: byte) {
    !IsBlank(b) && b != SLASH && b != QUOTE
  }

  lemma {:induction false} MinifiedPlain(s: Text, tail: Text)
    requires forall k :: 0 <= k < |s| ==> IsPlain(s[k])
    ensures Minified(s + tail) == s + Minified(tail)
  {
    if s == [] {
      assert s + tail == tail;
    } else {
      MinifiedPlain(s[1..], tail);
      assert (s + tail)[1..] == s[1..] + tail;
      assert s == [s[0]] + s[1..];
    }
  }

  lemma {:induction false} MinifiedBlanks(s: Text, tail: Text)
    requires forall k :: 0 <= k < |s| ==> IsBlank(s[k])
    ensures Minified(s + tail) == Minified(tail)
  {
    if s == [] {
      assert s + tail == tail;
    } else {
      MinifiedBlanks(s[1..], tail);
      assert (s + tail)[1..] == s[1..] + tail;
    }
  }

  /** How the minifier goes on behind a literal: still inside it if the text ends in a backslash. */
  function Behind(s: CString, tail: Text): Text {
    if EndsInBackslash(s) then InString(tail) else Minified(tail)
  }

  lemma {:induction false} InStringEscaped(s: Text, tail: Text)
    ensures InString(Escape(s) + [QUOTE] + tail) == Escape(s) + [QUOTE] + Behind(Chars(s), tail)
    decreases |s|
  {
    hide Minified, InString, EscapeByte;
    if s == [] {
      assert Escape(s) + [QUOTE] + tail == [QUOTE] + tail;
      InStringClose(tail);
      assert Escape(s) + [QUOTE] + Behind(Chars(s), tail) == [QUOTE] + Behind(Chars(s), tail);
    } else {
      var rest := Escape(s[1..]) + [QUOTE] + tail;
      assert Escape(s) + [QUOTE] + tail == EscapeByte(s[0]) + rest;
      if |s| == 1 {
        assert rest == [QUOTE] + tail;
        InStringLastByte(s[0], tail);
        assert Escape(s) == EscapeByte(s[0]);
      } else {
        InStringEscaped(s[1..], tail);
        EscapeFirst(s[1..]);
        InStringByte(s[0], rest);
        assert Escape(s) + [QUOTE] + Behind(Chars(s), tail)
               == EscapeByte(s[0]) + (Escape(s[1..]) + [QUOTE] + Behind(Chars(s), tail));
      }
    }
  }

  lemma {:induction false} EscapeFirst(s: Text)
    requires s != []
    ensures Escape(s) != [] && Escape(s)[0] != QUOTE
  {
  }

  lemma {:induction false} InStringByte(b: nonzero, rest: Text)
    requires rest != [] && rest[0] != QUOTE
    ensures InString(EscapeByte(b) + rest) == EscapeByte(b) + InString(rest)
  {
    hide InString, Utf16.HexDigit;
    if b == BACKSLASH {
      assert EscapeByte(b) + rest == [BACKSLASH] + ([BACKSLASH] + rest);
      InStringOne(BACKSLASH, [BACKSLASH] + rest);
      InStringOne(BACKSLASH, rest);
      assert EscapeByte(b) + InString(rest) == [BACKSLASH] + ([BACKSLASH] + InString(rest));
    } else {
      InStringByteAnywhere(b, rest);
    }
  }

  lemma {:induction false} InStringOne(b: nonzero, rest: Text)
    requires b != QUOTE && (b == BACKSLASH ==> rest == [] || rest[0] != QUOTE)
    ensures InString([b] + rest) == [b] + InString(rest)
  {
    hide Minified;
    assert ([b] + rest)[1..] == rest;
  }

  lemma {:induction false} InStringPair(rest: Text)
    ensures InString([BACKSLASH, QUOTE] + rest) == [BACKSLASH, QUOTE] + InString(rest)
  {
    hide Minified;
    assert ([BACKSLASH, QUOTE] + rest)[2..] == rest;
  }

  lemma {:induction false} InStringRun(s: Text, rest: Text)
    requires forall k :: 0 <= k < |s| ==> s[k] != QUOTE && s[k] != BACKSLASH
    ensures InString(s + rest) == s + InString(rest)
  {
    hide InString;
    if s == [] {
      assert s + rest == rest && s + InString(rest) == InString(rest);
    } else {
      InStringRun(s[1..], rest);
      InStringOne(s[0], s[1..] + rest);
      assert s + rest == [s[0]] + (s[1..] + rest);
      assert s + InString(rest) == [s[0]] + (s[1..] + InString(rest));
    }
  }

  /** A byte that is not a backslash is copied in its escaped form, whatever follows. */
  lemma {:induction false} InStringByteAnywhere(b: nonzero, rest: Text)
    requires b != BACKSLASH
    ensures InString(EscapeByte(b) + rest) == EscapeByte(b) + InString(rest)
  {
    hide InString, Utf16.HexDigit;
    var e := EscapeByte(b);
    if b == QUOTE {
      assert e == [BACKSLASH, QUOTE];
      InStringPair(rest);
    } else if |e| == 1 {
      InStringOne(b, rest);
    } else {
      assert e == [BACKSLASH] + e[1..];
      EscapeLetters(b);
      InStringRun(e[1..], rest);
      InStringOne(BACKSLASH, e[1..] + rest);
      assert e + rest == [BACKSLASH] + (e[1..] + rest);
      assert e + InString(rest) == [BACKSLASH] + (e[1..] + InString(rest));
    }
  }

  /** Behind its backslash an escape has only letters and digits, unless it escapes a quote or a backslash. */
  lemma EscapeLetters(b: nonzero)
    requires b != QUOTE && b != BACKSLASH
    ensures forall k :: 1 <= k < |EscapeByte(b)| ==> EscapeByte(b)[k] != QUOTE && EscapeByte(b)[k] != BACKSLASH
  {
  }

  lemma {:induction false} InStringLastByte(b: nonzero, tail: Text)
    ensures InString(EscapeByte(b) + ([QUOTE] + tail)) == EscapeByte(b) + [QUOTE] + Behind(Chars([b]), tail)
  {
    hide InString, Minified, Utf16.HexDigit;
    if b == BACKSLASH {
      assert EscapeByte(b) + ([QUOTE] + tail) == [BACKSLASH] + ([BACKSLASH, QUOTE] + tail);
      InStringOne(BACKSLASH, [BACKSLASH, QUOTE] + tail);
      InStringPair(tail);
      assert EscapeByte(b) + [QUOTE] + InString(tail) == [BACKSLASH] + ([BACKSLASH, QUOTE] + InString(tail));
    } else {
      InStringByteAnywhere(b, [QUOTE] + tail);
      InStringClose(tail);
      assert EscapeByte(b) + [QUOTE] + Minified(tail) == EscapeByte(b) + ([QUOTE] + Minified(tail));
    }
  }

  lemma {:induction false} InStringClose(tail: Text)
    ensures InString([QUOTE] + tail) == [QUOTE] + Minified(tail)
    ensures Minified([QUOTE] + tail) == [QUOTE] + InString(tail)
  {
    assert ([QUOTE] + tail)[1..] == tail;
  }

  /** A printed string is copied; a text that ends in a backslash leaves the minifier inside it. */
  lemma {:induction false} MinifiedString(s: CString, tail: Text)
    ensures Minified(RenderString(s) + tail) == RenderString(s) + Behind(s, tail)
  {
    hide Minified, InString, Escape;
    var text: Text := if s.NullPtr? then [] else s.text;
    var e := Escape(text);
    assert RenderString(s) + tail == [QUOTE] + (e + [QUOTE] + tail);
    InStringClose(e + [QUOTE] + tail);
    InStringEscaped(text, tail);
    assert RenderString(s) + Behind(s, tail) == [QUOTE] + (e + [QUOTE] + Behind(s, tail));
  }

  // ---------------------------------------------------------------- trees

  /**
   The minifier on the formatted print of `t`, against the unformatted print: it reproduces it and is
   outside any string, or reproduces it but is still inside the last string, or departs from it.
   */
  ghost predicate MinifiesTo(m: Text, u: Text, tail: Text, clean: bool, tolerable: bool) {
    if clean then m == u + Minified(tail)
    else if tolerable then m == u + InString(tail)
    else Diverges(m, u)
  }

  lemma {:induction false} MinifiedValue(t: Json, d: nat, tail: Text)
    ensures MinifiesTo(Minified(Render(t, true, d) + tail), Render(t, false, d), tail,
                       NoTrailingBackslash(t), BackslashOnlyAtEnd(t))
    decreases t, 0
  {
    hide Minified, InString, RenderString, RenderItems, RenderMembers;
    match t
    case String(s) => MinifiedString(s, tail);
    case Array(items) => MinifiedArray(items, d, tail);
    case Object(members) => MinifiedObject(members, d, tail);
    case _ =>
      ScalarIsPlain(t, d);
      MinifiedPlain(Render(t, true, d), tail);
  }

  lemma {:induction false} ScalarIsPlain(t: Json, d: nat)
    requires !t.String? && !t.Array? && !t.Object?
    ensures Render(t, true, d) == Render(t, false, d)
    ensures forall k :: 0 <= k < |Render(t, true, d)| ==> IsPlain(Render(t, true, d)[k])
  {
  }

  lemma {:induction false} MinifiedArray(items: seq<Json>, d: nat, tail: Text)
    ensures MinifiesTo(Minified(Render(Array(items), true, d) + tail), Render(Array(items), false, d), tail,
                       ItemsNoTrailing(items), ItemsBackslashOnlyAtEnd(items))
    decreases items, 2
  {
    hide Minified, InString, RenderItems, Diverges, ItemsNoTrailing, ItemsBackslashOnlyAtEnd;
    var f, u := RenderItems(items, true, d + 1), RenderItems(items, false, d + 1);
    var rest := [RBRACKET] + tail;
    assert Render(Array(items), true, d) + tail == [LBRACKET] + (f + rest);
    MinifiedPlain([LBRACKET], f + rest);
    MinifiedItems(items, d + 1, rest);
    MinifiedPlain([RBRACKET], tail);
    InStringOne(RBRACKET, tail);
    var m := Minified(f + rest);
    var whole := Render(Array(items), false, d);
    if ItemsNoTrailing(items) {
      assert [LBRACKET] + (u + ([RBRACKET] + Minified(tail))) == whole + Minified(tail);
    } else if ItemsBackslashOnlyAtEnd(items) {
      assert [LBRACKET] + (u + ([RBRACKET] + InString(tail))) == whole + InString(tail);
    } else {
      DivergesBehind([LBRACKET], m, u);
      DivergesLonger([LBRACKET] + m, [LBRACKET] + u, [RBRACKET]);
    }
  }

  lemma {:induction false} MinifiedItems(items: seq<Json>, d: nat, tail: Text)
    ensures MinifiesTo(Minified(RenderItems(items, true, d) + tail), RenderItems(items, false, d), tail,
                       ItemsNoTrailing(items), ItemsBackslashOnlyAtEnd(items))
    decreases items, 1
  {
    hide Minified, InString, Render, Diverges, NoTrailingBackslash, BackslashOnlyAtEnd;
    if items == [] {
      assert [] + tail == tail && [] + Minified(tail) == Minified(tail);
    } else if |items| == 1 {
      OneItem(items, d);
      MinifiedValue(items[0], d, tail);
    } else {
      MinifiedItemsFirst(items, d, tail);
    }
  }

  lemma {:induction false} OneItem(items: seq<Json>, d: nat)
    requires |items| == 1
    ensures RenderItems(items, true, d) == Render(items[0], true, d)
    ensures RenderItems(items, false, d) == Render(items[0], false, d)
  {
    hide Render;
  }

  lemma {:induction false} TwoItems(items: seq<Json>, format: bool, d: nat, tail: Text)
    requires |items| > 1
    ensures RenderItems(items, format, d) + tail
            == Render(items[0], format, d) + (Separator(format) + (RenderItems(items[1..], format, d) + tail))
    ensures RenderItems(items[1..], format, d) != [] && RenderItems(items[1..], format, d)[0] > 32
  {
    hide Render;
    RenderStart(items[1], format, d);
  }

  lemma ItemsNoTrailingSplit(items: seq<Json>)
    requires items != []
    ensures ItemsNoTrailing(items) <==> NoTrailingBackslash(items[0]) && ItemsNoTrailing(items[1..])
  {
    hide NoTrailingBackslash;
    assert forall i :: 1 <= i < |items| ==> items[i] == items[1..][i - 1];
  }

  lemma {:induction false} CleanIsTolerable(t: Json)
    ensures NoTrailingBackslash(t) ==> BackslashOnlyAtEnd(t)
    decreases t, 0
  {
    match t
    case Array(items) => if ItemsNoTrailing(items) { CleanItemsAreTolerable(items); }
    case _ =>
  }

  lemma {:induction false} CleanItemsAreTolerable(items: seq<Json>)
    requires ItemsNoTrailing(items)
    ensures ItemsBackslashOnlyAtEnd(items)
    decreases items, 0
  {
    if items == [] {
    } else {
      CleanIsTolerable(items[0]);
      CleanItemsAreTolerable(items[1..]);
    }
  }

  lemma {:induction false} MinifiedItemsFirst(items: seq<Json>, d: nat, tail: Text)
    requires |items| > 1
    ensures MinifiesTo(Minified(RenderItems(items, true, d) + tail), RenderItems(items, false, d), tail,
                       ItemsNoTrailing(items), ItemsBackslashOnlyAtEnd(items))
    decreases items, 0
  {
    hide Minified, InString, Render, RenderItems, Diverges, NoTrailingBackslash, BackslashOnlyAtEnd, ItemsNoTrailing;
    var t, rest := items[0], items[1..];
    var f := RenderItems(rest, true, d) + tail;
    var u1, u2 := Render(t, false, d), RenderItems(rest, false, d);
    TwoItems(items, true, d, tail);
    TwoItems(items, false, d, []);
    ItemsNoTrailingSplit(items);
    var u := RenderItems(items, false, d);
    assert u == u1 + ([COMMA] + u2) by {
      assert u + [] == u && u2 + [] == u2;
    }
    MinifiedValue(t, d, Separator(true) + f);
    if NoTrailingBackslash(t) {
      assert Separator(true) + f == [COMMA] + ([SPACE] + f);
      MinifiedPlain([COMMA], [SPACE] + f);
      MinifiedBlanks([SPACE], f);
      MinifiedItems(rest, d, tail);
      AfterCleanItem(u1, u2, Minified(f), tail, ItemsNoTrailing(rest), ItemsBackslashOnlyAtEnd(rest));
    } else {
      DirtyItem(t, u1, u2, f);
    }
  }

  lemma AfterCleanItem(u1: Text, u2: Text, m: Text, tail: Text, clean: bool, tolerable: bool)
    requires MinifiesTo(m, u2, tail, clean, tolerable)
    ensures MinifiesTo(u1 + ([COMMA] + m), u1 + ([COMMA] + u2), tail, clean, tolerable)
  {
    hide Minified, InString, Diverges;
    if clean {
      assert u1 + ([COMMA] + (u2 + Minified(tail))) == u1 + ([COMMA] + u2) + Minified(tail);
    } else if tolerable {
      assert u1 + ([COMMA] + (u2 + InString(tail))) == u1 + ([COMMA] + u2) + InString(tail);
    } else {
      DivergesBehind([COMMA], m, u2);
      DivergesBehind(u1, [COMMA] + m, [COMMA] + u2);
    }
  }

  /** An item that leaves the minifier inside a string: the blank behind the comma gets copied. */
  lemma {:induction false} DirtyItem(t: Json, u1: Text, u2: Text, f: Text)
    requires u2 != [] && u2[0] > 32
    ensures Diverges(u1 + InString(Separator(true) + f), u1 + ([COMMA] + u2))
    ensures forall m: Text :: Diverges(m, u1) ==> Diverges(m, u1 + ([COMMA] + u2))
  {
    hide Minified, InString, Diverges;
    assert Separator(true) + f == [COMMA] + ([SPACE] + f);
    InStringOne(COMMA, [SPACE] + f);
    InStringOne(SPACE, f);
    DivergesNow([COMMA], [SPACE] + InString(f), u2);
    DivergesBehind(u1, [COMMA] + ([SPACE] + InString(f)), [COMMA] + u2);
    forall m: Text | Diverges(m, u1) ensures Diverges(m, u1 + ([COMMA] + u2)) {
      DivergesLonger(m, u1, [COMMA] + u2);
    }
  }

  // ---------------------------------------------------------------- objects

  lemma {:induction false} MinifiedObject(members: seq<Member>, d: nat, tail: Text)
    ensures MinifiesTo(Minified(Render(Object(members), true, d) + tail), Render(Object(members), false, d), tail,
                       MembersNoTrailing(members), MembersNoTrailing(members))
    decreases members, 3
  {
    hide Minified, InString, RenderMembers, Diverges, MembersNoTrailing;
    var f, u := RenderMembers(members, true, d + 1), RenderMembers(members, false, d + 1);
    var rest := f + (ObjectClosing(true, d) + tail);
    assert Render(Object(members), true, d) + tail == [LBRACE] + ([NEWLINE] + rest);
    MinifiedPlain([LBRACE], [NEWLINE] + rest);
    MinifiedBlanks([NEWLINE], rest);
    MinifiedMembers(members, d + 1, tail);
    if MembersNoTrailing(members) {
      assert [LBRACE] + (u + [RBRACE] + Minified(tail)) == Render(Object(members), false, d) + Minified(tail);
    } else {
      DivergesBehind([LBRACE], Minified(rest), u + [RBRACE]);
      assert [LBRACE] + (u + [RBRACE]) == Render(Object(members), false, d);
    }
  }

  /** The members with the closing brace behind them. */
  lemma {:induction false} MinifiedMembers(members: seq<Member>, d: nat, tail: Text)
    requires d > 0
    ensures var m, u := Minified(RenderMembers(members, true, d) + (ObjectClosing(true, d - 1) + tail)),
                        RenderMembers(members, false, d) + [RBRACE];
            MinifiesTo(m, u, tail, MembersNoTrailing(members), false)
    decreases members, 2
  {
    hide Minified, InString, RenderMember, Diverges, NoTrailingBackslash, EndsInBackslash;
    if members == [] {
      assert [] + (ObjectClosing(true, d - 1) + tail) == Tabs(d - 1) + ([RBRACE] + tail);
      MinifiedBlanks(Tabs(d - 1), [RBRACE] + tail);
      MinifiedPlain([RBRACE], tail);
      assert [] + [RBRACE] + Minified(tail) == [RBRACE] + Minified(tail);
    } else {
      MinifiedMembersFirst(members, d, tail);
    }
  }

  /** What the unformatted print has behind the value of the first member. */
  function BehindMember(members: seq<Member>, d: nat): Text
    requires members != []
  {
    MemberEnd(false, |members| == 1) + (RenderMembers(members[1..], false, d) + [RBRACE])
  }

  lemma BehindMemberStart(members: seq<Member>, d: nat)
    requires members != []
    ensures var b := BehindMember(members, d);
            if |members| == 1 then b[0] == RBRACE else b[0] == COMMA && |b| > 1 && b[1] == QUOTE
  {
    hide Render, Escape;
    if |members| > 1 {
      var k, rest := RenderString(members[1].key), members[1..];
      assert k[0] == QUOTE;
      assert RenderMember(rest[0], false, d)[0] == QUOTE by {
        assert RenderMember(rest[0], false, d) == k + (Colon(false) + Render(rest[0].value, false, d));
      }
      assert RenderMembers(rest, false, d)[0] == QUOTE;
      assert BehindMember(members, d) == [COMMA] + (RenderMembers(rest, false, d) + [RBRACE]);
    }
  }

  lemma MembersNoTrailingSplit(members: seq<Member>)
    requires members != []
    ensures MembersNoTrailing(members) <==>
            !EndsInBackslash(members[0].key) && NoTrailingBackslash(members[0].value) && MembersNoTrailing(members[1..])
  {
    hide NoTrailingBackslash, EndsInBackslash;
    assert forall i :: 1 <= i < |members| ==> members[i] == members[1..][i - 1];
  }

  lemma {:induction false} MinifiedMembersFirst(members: seq<Member>, d: nat, tail: Text)
    requires d > 0 && members != []
    ensures var m, u := Minified(RenderMembers(members, true, d) + (ObjectClosing(true, d - 1) + tail)),
                        RenderMembers(members, false, d) + [RBRACE];
            MinifiesTo(m, u, tail, MembersNoTrailing(members), false)
    decreases members, 1
  {
    hide Minified, InString, Render, RenderMember, RenderMembers, Diverges, NoTrailingBackslash, EndsInBackslash,
         MembersNoTrailing, ObjectClosing;
    var m, last, rest := members[0], |members| == 1, members[1..];
    var g := RenderMembers(rest, true, d) + (ObjectClosing(true, d - 1) + tail);
    var end := MemberEnd(true, last);
    MembersPieces(members, true, d, ObjectClosing(true, d - 1) + tail);
    MembersPieces(members, false, d, [RBRACE]);
    MembersNoTrailingSplit(members);
    BehindMemberStart(members, d);
    var b := BehindMember(members, d);
    MinifiedMember(m, d, end + g, b);
    if !EndsInBackslash(m.key) && NoTrailingBackslash(m.value) {
      MinifiedMemberEnd(last, g);
      MinifiedMembers(rest, d, tail);
      AfterCleanMember(RenderMember(m, false, d), MemberEnd(false, last), RenderMembers(rest, false, d) + [RBRACE],
                       Minified(g), tail, MembersNoTrailing(rest));
    } else if !EndsInBackslash(m.key) && BackslashOnlyAtEnd(m.value) {
      DirtyMember(RenderMember(m, false, d), last, g, b);
    }
  }

  lemma {:induction false} MembersPieces(members: seq<Member>, format: bool, d: nat, tail: Text)
    requires members != []
    ensures RenderMembers(members, format, d) + tail
            == RenderMember(members[0], format, d)
               + (MemberEnd(format, |members| == 1) + (RenderMembers(members[1..], format, d) + tail))
  {
    hide RenderMember, MemberEnd;
  }

  lemma {:induction false} MinifiedMemberEnd(last: bool, g: Text)
    ensures Minified(MemberEnd(true, last) + g) == MemberEnd(false, last) + Minified(g)
  {
    hide Minified;
    MinifiedBlanks([NEWLINE], g);
    if last {
      assert MemberEnd(true, last) == [NEWLINE];
      assert [] + Minified(g) == Minified(g);
    } else {
      assert MemberEnd(true, last) + g == [COMMA] + ([NEWLINE] + g);
      MinifiedPlain([COMMA], [NEWLINE] + g);
    }
  }

  lemma AfterCleanMember(u1: Text, comma: Text, u2: Text, m: Text, tail: Text, clean: bool)
    requires MinifiesTo(m, u2, tail, clean, false)
    ensures MinifiesTo(u1 + (comma + m), u1 + (comma + u2), tail, clean, false)
  {
    hide Minified, InString, Diverges;
    if clean {
      assert u1 + (comma + (u2 + Minified(tail))) == u1 + (comma + u2) + Minified(tail);
    } else {
      DivergesBehind(comma, m, u2);
      DivergesBehind(u1, comma + m, comma + u2);
    }
  }

  /** A member that leaves the minifier inside a string: the new line behind it gets copied. */
  lemma {:induction false} DirtyMember(u1: Text, last: bool, g: Text, b: Text)
    requires b != [] && if last then b[0] == RBRACE else b[0] == COMMA && |b| > 1 && b[1] == QUOTE
    ensures Diverges(u1 + InString(MemberEnd(true, last) + g), u1 + b)
  {
    hide Minified, InString, Diverges;
    InStringOne(NEWLINE, g);
    if last {
      assert MemberEnd(true, last) == [NEWLINE];
      DivergesNow(u1, [NEWLINE] + InString(g), b);
    } else {
      assert MemberEnd(true, last) + g == [COMMA] + ([NEWLINE] + g);
      InStringOne(COMMA, [NEWLINE] + g);
      DivergesNow([COMMA], [NEWLINE] + InString(g), b[1..]);
      assert [COMMA] + b[1..] == b;
      DivergesBehind(u1, [COMMA] + ([NEWLINE] + InString(g)), b);
    }
  }

  /** One member, with `tail` behind it in the formatted text and `b` in the unformatted one. */
  lemma {:induction false} MinifiedMember(m: Member, d: nat, tail: Text, b: Text)
    ensures var out, u := Minified(RenderMember(m, true, d) + tail), RenderMember(m, false, d);
            if !EndsInBackslash(m.key) && NoTrailingBackslash(m.value) then out == u + Minified(tail)
            else if !EndsInBackslash(m.key) && BackslashOnlyAtEnd(m.value) then out == u + InString(tail)
            else Diverges(out, u + b)
    decreases m, 1
  {
    hide Minified, InString, Render, RenderString, Diverges, NoTrailingBackslash, BackslashOnlyAtEnd, EndsInBackslash;
    var k, f, v := RenderString(m.key), Render(m.value, true, d), Render(m.value, false, d);
    var rest := Colon(true) + (f + tail);
    assert RenderMember(m, true, d) + tail == Tabs(d) + (k + rest);
    MinifiedBlanks(Tabs(d), k + rest);
    MinifiedString(m.key, rest);
    var u := RenderMember(m, false, d);
    assert u == k + ([COLON] + v);
    assert rest == [COLON] + ([TAB] + (f + tail));
    if EndsInBackslash(m.key) {
      DirtyKey(m.value, d, k, f + tail, b);
    } else {
      MinifiedPlain([COLON], [TAB] + (f + tail));
      MinifiedBlanks([TAB], f + tail);
      MinifiedValue(m.value, d, tail);
      AfterKey(k, v, Minified(f + tail), tail, b, NoTrailingBackslash(m.value), BackslashOnlyAtEnd(m.value));
    }
  }

  lemma {:induction false} AfterKey(k: Text, v: Text, m: Text, tail: Text, b: Text, clean: bool, tolerable: bool)
    requires MinifiesTo(m, v, tail, clean, tolerable)
    ensures var out, u := k + ([COLON] + m), k + ([COLON] + v);
            if clean then out == u + Minified(tail)
            else if tolerable then out == u + InString(tail)
            else Diverges(out, u + b)
  {
    hide Minified, InString, Diverges;
    if clean {
      assert k + ([COLON] + (v + Minified(tail))) == k + ([COLON] + v) + Minified(tail);
    } else if tolerable {
      assert k + ([COLON] + (v + InString(tail))) == k + ([COLON] + v) + InString(tail);
    } else {
      DivergesBehind([COLON], m, v);
      DivergesBehind(k, [COLON] + m, [COLON] + v);
      DivergesLonger(k + ([COLON] + m), k + ([COLON] + v), b);
    }
  }

  /** A key that leaves the minifier inside a string: the tab behind the colon gets copied. */
  lemma {:induction false} DirtyKey(t: Json, d: nat, k: Text, f: Text, b: Text)
    ensures Diverges(k + InString([COLON] + ([TAB] + f)), k + ([COLON] + Render(t, false, d)) + b)
  {
    hide Minified, InString, Diverges;
    var v := Render(t, false, d);
    RenderStart(t, false, d);
    InStringOne(COLON, [TAB] + f);
    InStringOne(TAB, f);
    DivergesNow([COLON], [TAB] + InString(f), v);
    DivergesBehind(k, [COLON] + ([TAB] + InString(f)), [COLON] + v);
    DivergesLonger(k + ([COLON] + ([TAB] + InString(f))), k + ([COLON] + v), b);
  }

  // ---------------------------------------------------------------- main result

  /**
   Minifying the formatted print gives the unformatted print exactly when no string ends in a
   backslash, save possibly the very last value inside arrays only.
   */
  lemma {:induction false} MinifyPrintedExactly(t: Json)
    ensures Minified(Render(t, true, 0)) == Render(t, false, 0) <==> BackslashOnlyAtEnd(t)
    ensures NoTrailingBackslash(t) ==> BackslashOnlyAtEnd(t)
  {
    hide Render, BackslashOnlyAtEnd, NoTrailingBackslash, Diverges;
    CleanIsTolerable(t);
    var f, u := Render(t, true, 0), Render(t, false, 0);
    MinifiedValue(t, 0, []);
    assert f + [] == f && u + [] == u;
    if !NoTrailingBackslash(t) && !BackslashOnlyAtEnd(t) {
      DivergesLonger(Minified(f), u, []);
    }
  }

  /** The array `["\\", null]`, whose first string is one backslash, keeps its blank when minified. */
  lemma MinifyFailsOnTrailingBackslash()
    ensures var t := Array([String(Chars([BACKSLASH])), Null]);
            && !NoTrailingBackslash(t)
            && Minified(Render(t, true, 0)) != Render(t, false, 0)
  {
    var t := Array([String(Chars([BACKSLASH])), Null]);
    assert EndsInBackslash(Chars([BACKSLASH]));
    assert !NoTrailingBackslash(t.items[0]);
    MinifyPrintedExactly(t);
  }
}
