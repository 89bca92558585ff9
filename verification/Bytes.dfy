/**
 Bytes, NUL-terminated buffers and C strings, as the C sources use them.
 */
module Bytes {
  type byte = b: int | 0 <= b < 256

  /** A byte that may occur inside a C string. */
  type nonzero = b: int | 0 < b < 256 witness 1

  /** The bytes of a C string, without the final NUL. */
  type Text = seq<nonzero>

  datatype Option<+T> = None | Some(value: T)

  /** A `char *`: NULL, or a pointer to a NUL-terminated text. */
  datatype CString = NullPtr | Chars(text: Text)

  /** Outcome of parsing a `T`: the offset where reading stopped and, on success, the value. */
  datatype Parsed<+T> = Fail(offset: nat) | Ok(value: T, offset: nat)

  const NUL: byte := 0
  const TAB: nonzero := 9
  const NEWLINE: nonzero := 10
  const RETURN: nonzero := 13
  const SPACE: nonzero := 32
  const QUOTE: nonzero := 34
  const STAR: nonzero := 42
  const COMMA: nonzero := 44
  const MINUS: nonzero := 45
  const SLASH: nonzero := 47
  const ZERO: nonzero := 48
  const NINE: nonzero := 57
  const COLON: nonzero := 58
  const LBRACKET: nonzero := 91
  const BACKSLASH: nonzero := 92
  const RBRACKET: nonzero := 93
  const LBRACE: nonzero := 123
  const RBRACE: nonzero := 125

  const NULL_TEXT: Text := [110, 117, 108, 108]
  const TRUE_TEXT: Text := [116, 114, 117, 101]
  const FALSE_TEXT: Text := [102, 97, 108, 115, 101]

  const INT_MAX := 0x7FFF_FFFF
  const INT_MIN := -0x8000_0000

  /** The blanks of section 2 of RFC 8259. */
  predicate IsBlank(b: byte) {
    b == SPACE || b == TAB || b == RETURN || b == NEWLINE
  }

  /** The text `s` stands in `c` at index `i`. */
  predicate At(c: seq<byte>, i: nat, s: seq<byte>) {
    i + |s| <= |c| && c[i..i + |s|] == s
  }

  lemma AtConcat(c: seq<byte>, i: nat, a: seq<byte>, b: seq<byte>)
    ensures At(c, i, a + b) <==> At(c, i, a) && At(c, i + |a|, b)
    ensures At(c, i, a + b) ==> i + |a| + |b| <= |c|
  {
    if i + |a| + |b| <= |c| {
      var whole := c[i..i + |a| + |b|];
      assert whole[..|a|] == c[i..i + |a|];
      assert whole[|a|..] == c[i + |a|..i + |a| + |b|];
      assert whole == whole[..|a|] + whole[|a|..];
      assert (a + b)[..|a|] == a && (a + b)[|a|..] == b;
    }
  }

  /** Three pieces in a row. */
  lemma AtConcat3(c: seq<byte>, i: nat, a: seq<byte>, b: seq<byte>, e: seq<byte>)
    requires At(c, i, a + b + e)
    ensures At(c, i, a) && At(c, i + |a|, b) && At(c, i + |a| + |b|, e)
    ensures i + |a| + |b| + |e| <= |c|
  {
    hide At;
    AtConcat(c, i, a + b, e);
    AtConcat(c, i, a, b);
  }

  /** What a reader knows about the single bytes when `s` stands at `i`. */
  lemma AtIndex(c: seq<byte>, i: nat, s: seq<byte>, k: nat)
    requires At(c, i, s) && k < |s|
    ensures i + k < |c| && c[i + k] == s[k]
  {
    assert c[i..i + |s|][k] == c[i + k];
  }

  /** Prefix of `s` up to, not including, its first NUL: what a C string reader sees. */
  function UpToNul(s: seq<byte>): (t: Text)
    ensures |t| <= |s| && t == s[..|t|]
    ensures |t| < |s| ==> s[|t|] == NUL
  {
    if s == [] || s[0] == NUL then [] else [s[0] as nonzero] + UpToNul(s[1..])
  }

  lemma {:induction false} UpToNulOfText(s: Text)
    ensures UpToNul(s) == s
  {
    if s == [] {
    } else {
      UpToNulOfText(s[1..]);
    }
  }
}
