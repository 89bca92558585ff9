/**
 JSON string literals: the escaping of `print_string_ptr` and the two passes of `parse_string`.
 */
module StringLiteral {
  import opened Bytes
  import opened Utf16

  // ---------------------------------------------------------------- escaping

  /** The letter after the backslash in a two-byte escape of `b`, if it has one. */
  function ShortEscape(b: byte): Option<nonzero> {
    if b == QUOTE then Some(QUOTE)
    else if b == BACKSLASH then Some(BACKSLASH)
    else if b == 8 then Some(98)
    else if b == 12 then Some(102)
    else if b == NEWLINE then Some(110)
    else if b == RETURN then Some(114)
    else if b == TAB then Some(116)
    else None
  }

  function EscapeByte(b: nonzero): (e: Text)
    ensures 1 <= |e| <= 6
  {
    if ShortEscape(b).Some? then [BACKSLASH, ShortEscape(b).value]
    else if b < 32 then Group(b)
    else [b]
  }

  function Escape(s: Text): (e: Text)
    ensures |s| <= |e|
  {
    if s == [] then [] else EscapeByte(s[0]) + Escape(s[1..])
  }

  /** A whole literal: the escaped text between quotes. */
  function Quoted(s: Text): Text {
    [QUOTE] + Escape(s) + [QUOTE]
  }

  lemma {:induction false} EscapeSnoc(s: Text, b: nonzero)
    ensures Escape(s + [b]) == Escape(s) + EscapeByte(b)
  {
    if s == [] {
      assert Escape([b]) == EscapeByte(b) + Escape([]);
    } else {
      assert (s + [b])[1..] == s[1..] + [b];
      EscapeSnoc(s[1..], b);
      assert Escape(s + [b]) == EscapeByte(s[0]) + (Escape(s[1..]) + EscapeByte(b));
    }
  }

  lemma {:induction false} EscapeSplit(s: Text, i: nat)
    requires i <= |s|
    ensures Escape(s) == Escape(s[..i]) + Escape(s[i..])
    decreases i
  {
    if i > 0 {
      EscapeSplit(s[1..], i - 1);
      assert s[1..][..i - 1] == s[..i][1..] && s[1..][i - 1..] == s[i..];
    } else {
      assert s[..0] == [] && s[0..] == s;
    }
  }

  /** A text whose escaped form is no longer has nothing to escape. */
  lemma {:induction false} EscapeNothing(s: Text)
    requires |Escape(s)| == |s|
    ensures Escape(s) == s
  {
    if s == [] {
    } else {
      EscapeNothing(s[1..]);
      assert s == [s[0]] + s[1..];
    }
  }

  // ---------------------------------------------------------------- first pass: find the closing quote

  /** `i` is not the second byte of a two-byte step of the first pass. */
  predicate Aligned(c: seq<byte>, start: nat, i: nat)
    requires start <= i <= |c|
  {
    i == start || !Aligned(c, start, i - 1) || c[i - 1] != BACKSLASH
  }

  /** Number of escapes the first pass skips over that begin before `i`. */
  function Skipped(c: seq<byte>, start: nat, i: nat): (n: nat)
    requires start <= i <= |c|
    ensures n <= i - start
  {
    if i == start then 0
    else Skipped(c, start, i - 1) + if Aligned(c, start, i - 1) && c[i - 1] == BACKSLASH then 1 else 0
  }

  /** Position of the first quote from `i` on that no backslash shields. */
  function ClosingQuote(c: seq<byte>, i: nat): (r: Option<nat>)
    ensures r.Some? ==> i <= r.value < |c| && c[r.value] == QUOTE
    decreases |c| - i
  {
    if i >= |c| then None
    else if c[i] == QUOTE then Some(i)
    else if c[i] == BACKSLASH then (if i + 1 < |c| then ClosingQuote(c, i + 2) else None)
    else ClosingQuote(c, i + 1)
  }

  /** At most one byte in two begins an escape. */
  lemma {:induction false} SkippedWindow(c: seq<byte>, start: nat, i: nat, j: nat)
    requires start <= i <= j <= |c|
    ensures Skipped(c, start, i) <= Skipped(c, start, j)
    ensures Skipped(c, start, j) - Skipped(c, start, i) <= (j - i + (if Aligned(c, start, j) then 0 else 1) + 1) / 2
    ensures Skipped(c, start, j) - Skipped(c, start, i) <= (j - i + 1) / 2
    decreases j
  {
    if i == j {
    } else {
      SkippedWindow(c, start, i, j - 1);
      if i < j - 1 {
        SkippedWindow(c, start, i, j - 2);
      }
    }
  }

  // ---------------------------------------------------------------- second pass: decode

  datatype Decoded = Bad(at: nat) | Good(bytes: seq<byte>)

  function Prepend(s: seq<byte>, d: Decoded): Decoded {
    match d
    case Bad(at) => d
    case Good(bytes) => Good(s + bytes)
  }

  /** The byte that a two-byte escape with letter `b` stands for. */
  function Unescaped(b: byte): Option<nonzero> {
    if b == 98 then Some(8)
    else if b == 102 then Some(12)
    else if b == 110 then Some(NEWLINE)
    else if b == 114 then Some(RETURN)
    else if b == 116 then Some(TAB)
    else if b == QUOTE || b == BACKSLASH || b == SLASH then Some(b as nonzero)
    else None
  }

  /** The bytes the decoding loop stores from `p` to `end`, or where it gives up. */
  function Decode(c: seq<byte>, p: nat, end: nat): Decoded
    requires p <= end + 1 && end < |c|
    decreases end + 1 - p
  {
    if p >= end then Good([])
    else if c[p] != BACKSLASH then Prepend([c[p]], Decode(c, p + 1, end))
    else if Unescaped(c[p + 1]).Some? then Prepend([Unescaped(c[p + 1]).value], Decode(c, p + 2, end))
    else if c[p + 1] == LETTER_U then
      match ReadLiteral(c, p, end)
      case None => Bad(p)
      case Some(l) => Prepend(Utf8(l.codepoint), Decode(c, p + l.length, end))
    else Bad(p)
  }

  /** What reading the literal at `off` gives: the C string and the offset after it. */
  function ParseStringSpec(c: seq<byte>, off: nat): (r: Parsed<Text>)
    requires off < |c|
    ensures r.Ok? ==> off < r.offset <= |c| && c[r.offset - 1] == QUOTE
  {
    if c[off] != QUOTE then Fail(off + 1)
    else
      match ClosingQuote(c, off + 1)
      case None => Fail(off + 1)
      case Some(end) =>
        match Decode(c, off + 1, end)
        case Bad(at) => Fail(at)
        case Good(bytes) => Ok(UpToNul(bytes), end + 1)
  }
}
