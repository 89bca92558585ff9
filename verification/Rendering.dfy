/**
 The text cJSON prints for a tree, as a function of the tree.
 */
module Rendering {
  import opened Bytes
  import opened StringLiteral
  import opened JsonTree
  import Decimal

  function Tabs(n: nat): (s: Text)
    ensures |s| == n && forall k :: 0 <= k < n ==> s[k] == TAB
  {
    seq(n, _ => TAB)
  }

  /** The indentation inside `depth` containers. */
  function Indent(format: bool, depth: nat): (s: Text)
    ensures |s| == (if format then depth else 0) && forall k :: 0 <= k < |s| ==> s[k] <= 32
  {
    if format then Tabs(depth) else []
  }

  /** A string value or key; NULL prints as the empty literal. */
  function RenderString(s: CString): Text {
    Quoted(if s.NullPtr? then [] else s.text)
  }

  /**
   The text of `t` inside `depth` containers. `format` selects cJSON_Print (true) or
   cJSON_PrintUnformatted (false).
   */
  function Render(t: Json, format: bool, depth: nat): Text {
    match t
    case Null => NULL_TEXT
    case False => FALSE_TEXT
    case True => TRUE_TEXT
    case Number(d) => Decimal.IntText(ValueInt(d))
    case String(s) => RenderString(s)
    case Array(items) => [LBRACKET] + RenderItems(items, format, depth + 1) + [RBRACKET]
    case Object(members) =>
      ObjectOpening(format) + RenderMembers(members, format, depth + 1) + ObjectClosing(format, depth)
  }

  function Separator(format: bool): Text {
    if format then [COMMA, SPACE] else [COMMA]
  }

  function ObjectOpening(format: bool): Text {
    if format then [LBRACE, NEWLINE] else [LBRACE]
  }

  function ObjectClosing(format: bool, depth: nat): Text {
    Indent(format, depth) + [RBRACE]
  }

  /** The items with separators between them. */
  function RenderItems(items: seq<Json>, format: bool, depth: nat): Text {
    if items == [] then []
    else
      Render(items[0], format, depth)
      + (if |items| == 1 then [] else Separator(format))
      + RenderItems(items[1..], format, depth)
  }

  function Colon(format: bool): Text {
    if format then [COLON, TAB] else [COLON]
  }

  /** What follows a member: a comma unless it is the last, and a new line if formatted. */
  function MemberEnd(format: bool, last: bool): Text {
    (if last then [] else [COMMA]) + (if format then [NEWLINE] else [])
  }

  function RenderMember(m: Member, format: bool, depth: nat): Text {
    Indent(format, depth) + RenderString(m.key) + Colon(format) + Render(m.value, format, depth)
  }

  function RenderMembers(members: seq<Member>, format: bool, depth: nat): Text {
    if members == [] then []
    else
      RenderMember(members[0], format, depth)
      + MemberEnd(format, |members| == 1)
      + RenderMembers(members[1..], format, depth)
  }

  /** The first byte tells the kind of value; in particular it is neither blank nor a closing bracket. */
  lemma {:induction false} RenderStart(t: Json, format: bool, depth: nat)
    ensures |Render(t, format, depth)| > 0
    ensures var b := Render(t, format, depth)[0];
            match t
            case Null => b == 110
            case False => b == 102
            case True => b == 116
            case Number(_) => b == MINUS || Decimal.IsDigit(b)
            case String(_) => b == QUOTE
            case Array(_) => b == LBRACKET
            case Object(_) => b == LBRACE
  {
  }

  // ---------------------------------------------------------------- the layout

  lemma {:induction false} TwoItems(a: Json, b: Json, format: bool, depth: nat)
    ensures RenderItems([], format, depth) == []
    ensures RenderItems([a, b], format, depth)
            == Render(a, format, depth) + Separator(format) + Render(b, format, depth)
  {
    hide Render, Separator;
    assert [a, b][1..] == [b] && [b][1..] == [];
    assert RenderItems([b], format, depth) == Render(b, format, depth) + [] + RenderItems([], format, depth);
  }

  lemma {:induction false} TwoMembers(m: Member, n: Member, format: bool, depth: nat)
    ensures RenderMembers([], format, depth) == []
    ensures RenderMembers([m, n], format, depth)
            == RenderMember(m, format, depth) + MemberEnd(format, false)
               + (RenderMember(n, format, depth) + MemberEnd(format, true))
  {
    hide RenderMember, MemberEnd;
    assert [m, n][1..] == [n] && [n][1..] == [];
    assert RenderMembers([n], format, depth)
        == RenderMember(n, format, depth) + MemberEnd(format, true) + RenderMembers([], format, depth);
  }

  /** Arrays stand on one line, with a space behind each comma if formatted. */
  lemma {:induction false} ArrayLayout(a: Json, b: Json, depth: nat)
    ensures Render(Array([]), true, depth) == Render(Array([]), false, depth) == [91, 93]
    ensures var x, y := Render(a, true, depth + 1), Render(b, true, depth + 1);
            Render(Array([a, b]), true, depth) == [91] + (x + [44, 32] + y) + [93]
    ensures var x, y := Render(a, false, depth + 1), Render(b, false, depth + 1);
            Render(Array([a, b]), false, depth) == [91] + (x + [44] + y) + [93]
  {
    hide RenderItems;
    TwoItems(a, b, true, depth + 1);
    TwoItems(a, b, false, depth + 1);
  }

  /** The literals of NULL, of the empty string and of one letter. */
  lemma {:induction false} StringLayout()
    ensures RenderString(NullPtr) == RenderString(Chars([])) == [34, 34] && RenderString(Chars([97])) == [34, 97, 34]
  {
    assert Escape([97]) == [97] + Escape([]);
  }

  /** A member is indented by tabs and has a tab behind its colon if formatted. */
  lemma {:induction false} MemberLayout(m: Member, depth: nat)
    ensures RenderMember(m, true, depth)
            == seq(depth, _ => 9) + RenderString(m.key) + [58, 9] + Render(m.value, true, depth)
    ensures RenderMember(m, false, depth) == RenderString(m.key) + [58] + Render(m.value, false, depth)
  {
    hide Render, RenderString;
    assert Tabs(depth) == seq(depth, _ => 9);
  }

  /** Each member of a formatted object stands on a line of its own, and so does the closing brace. */
  lemma {:induction false} ObjectLayout(m: Member, n: Member, depth: nat)
    ensures Render(Object([]), false, depth) == [123, 125]
    ensures Render(Object([]), true, depth) == [123, 10] + (seq(depth, _ => 9) + [125])
    ensures var x, y := RenderMember(m, true, depth + 1), RenderMember(n, true, depth + 1);
            Render(Object([m, n]), true, depth)
            == [123, 10] + (x + [44, 10] + (y + [10])) + (seq(depth, _ => 9) + [125])
    ensures var x, y := RenderMember(m, false, depth + 1), RenderMember(n, false, depth + 1);
            Render(Object([m, n]), false, depth) == [123] + (x + [44] + y) + [125]
  {
    hide RenderMembers, RenderMember;
    TwoMembers(m, n, true, depth + 1);
    TwoMembers(m, n, false, depth + 1);
    assert Tabs(depth) == seq(depth, _ => 9);
  }
}
