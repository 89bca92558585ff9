/**
 `cJSON_Minify`: removal of blanks and comments from a JSON text, in place.
 */
module Minify {
  import opened Bytes

  // ---------------------------------------------------------------- the filter

  /** What is left behind a `//` comment whose text is `s`. */
  function AfterLine(s: Text): (r: Text)
    ensures |r| <= |s|
  {
    if s == [] then [] else if s[0] == NEWLINE then s[1..] else AfterLine(s[1..])
  }

  /** What is left behind a block comment whose text is `s`. */
  function AfterBlock(s: Text): (r: Text)
    ensures |r| <= |s|
  {
    if s == [] then []
    else if s[0] == STAR && |s| > 1 && s[1] == SLASH then s[2..]
    else AfterBlock(s[1..])
  }

  /** The minified form of `s`, read from outside any string. */
  function Minified(s: Text): (r: Text)
    ensures |r| <= |s|
    decreases |s|
  {
    if s == [] then []
    else if IsBlank(s[0]) then Minified(s[1..])
    else if s[0] == SLASH then
      if |s| > 1 && s[1] == SLASH then Minified(AfterLine(s[2..]))
      else if |s| > 1 && s[1] == STAR then Minified(AfterBlock(s[2..]))
      else Minified(s[1..])
    else if s[0] == QUOTE then [QUOTE] + InString(s[1..])
    else [s[0]] + Minified(s[1..])
  }

  /**
   The minified form of `s`, read from inside a string. A quote is taken as escaped when the byte
   in front of it is a backslash, whether or not that backslash is itself escaped.
   */
  function InString(s: Text): (r: Text)
    ensures |r| <= |s|
    decreases |s|
  {
    if s == [] then []
    else if s[0] == QUOTE then [QUOTE] + Minified(s[1..])
    else if s[0] == BACKSLASH && |s| > 1 && s[1] == QUOTE then [BACKSLASH, QUOTE] + InString(s[2..])
    else [s[0]] + InString(s[1..])
  }

  // ---------------------------------------------------------------- what is left out

  lemma {:induction false} LineEnds(t: Text, s: Text)
    requires 10 !in t
    ensures AfterLine(t + [10] + s) == s && AfterLine(t) == []
  {
    if t == [] {
      assert (t + [10] + s)[1..] == s;
    } else {
      LineEnds(t[1..], s);
      assert (t + [10] + s)[1..] == t[1..] + [10] + s;
    }
  }

  /** A line comment goes up to its line feed, and without one up to the end. */
  lemma {:induction false} LineCommentGoes(t: Text, s: Text)
    requires 10 !in t
    ensures Minified([47, 47] + t + [10] + s) == Minified(s)
    ensures Minified([47, 47] + t) == []
  {
    hide AfterLine;
    LineEnds(t, s);
    var whole := [47, 47] + t + [10] + s;
    assert whole[2..] == t + [10] + s && ([47, 47] + t)[2..] == t;
    assert Minified([]) == [];
  }

  /** A star with a slash behind it stands nowhere in the text. */
  predicate NeverCloses(t: Text) {
    forall k :: 0 <= k < |t| - 1 ==> !(t[k] == 42 && t[k + 1] == 47)
  }

  lemma {:induction false} BlockEnds(t: Text, s: Text)
    requires NeverCloses(t)
    ensures AfterBlock(t + [42, 47] + s) == s && AfterBlock(t) == []
  {
    var whole := t + [42, 47] + s;
    if t == [] {
      assert whole[2..] == s;
    } else {
      BlockEnds(t[1..], s);
      assert whole[1..] == t[1..] + [42, 47] + s;
      assert whole[0] == t[0] && whole[1] == if |t| > 1 then t[1] else 42;
    }
  }

  /** A block comment goes up to the first star with a slash behind it, and without one up to the end. */
  lemma {:induction false} BlockCommentGoes(t: Text, s: Text)
    requires NeverCloses(t)
    ensures Minified([47, 42] + t + [42, 47] + s) == Minified(s)
    ensures Minified([47, 42] + t) == []
  {
    hide AfterBlock, NeverCloses;
    BlockEnds(t, s);
    var whole := [47, 42] + t + [42, 47] + s;
    assert whole[2..] == t + [42, 47] + s && ([47, 42] + t)[2..] == t;
    assert Minified([]) == [];
  }

  /** Outside strings and comments four blanks go, so does a slash, and all other bytes but quotes stay. */
  lemma {:induction false} OutsideByte(b: nonzero, s: Text)
    ensures b == 32 || b == 9 || b == 10 || b == 13 ==> Minified([b] + s) == Minified(s)
    ensures b == 47 && (s == [] || (s[0] != 47 && s[0] != 42)) ==> Minified([b] + s) == Minified(s)
    ensures b != 32 && b != 9 && b != 10 && b != 13 && b != 47 && b != 34 ==> Minified([b] + s) == [b] + Minified(s)
  {
    assert ([b] + s)[1..] == s;
  }

  // ---------------------------------------------------------------- minifying twice

  /** Minifying a minified text changes nothing. */
  lemma {:induction false} MinifyTwice(s: Text)
    ensures Minified(Minified(s)) == Minified(s)
    decreases |s|
  {
    if s == [] {
    } else if IsBlank(s[0]) {
      MinifyTwice(s[1..]);
    } else if s[0] == SLASH {
      if |s| > 1 && s[1] == SLASH {
        MinifyTwice(AfterLine(s[2..]));
      } else if |s| > 1 && s[1] == STAR {
        MinifyTwice(AfterBlock(s[2..]));
      } else {
        MinifyTwice(s[1..]);
      }
    } else if s[0] == QUOTE {
      InStringTwice(s[1..]);
      assert Minified(s)[1..] == InString(s[1..]);
    } else {
      MinifyTwice(s[1..]);
      assert Minified(s)[1..] == Minified(s[1..]);
    }
  }

  lemma {:induction false} InStringFirst(s: Text)
    ensures s != [] ==> InString(s) != [] && InString(s)[0] == s[0]
  {
  }

  lemma {:induction false} InStringTwice(s: Text)
    ensures InString(InString(s)) == InString(s)
    decreases |s|
  {
    if s == [] {
    } else if s[0] == QUOTE {
      MinifyTwice(s[1..]);
      assert InString(s)[1..] == Minified(s[1..]);
    } else if s[0] == BACKSLASH && |s| > 1 && s[1] == QUOTE {
      InStringTwice(s[2..]);
      assert InString(s)[2..] == InString(s[2..]);
    } else {
      InStringTwice(s[1..]);
      InStringFirst(s[1..]);
      assert InString(s)[1..] == InString(s[1..]);
    }
  }

  // ---------------------------------------------------------------- in place

  /** The buffer `a` holds the C string `s` from index `i` on. */
  ghost predicate Holds(a: array<byte>, i: nat, s: Text)
    reads a
  {
    i + |s| < a.Length && a[i..i + |s|] == s && a[i + |s|] == NUL
  }

  lemma HoldsFirst(a: array<byte>, i: nat, s: Text)
    requires Holds(a, i, s)
    ensures i + |s| < a.Length && a[i] == if s == [] then NUL else s[0]
    ensures s != [] ==> Holds(a, i + 1, s[1..])
  {
    if s != [] {
      assert a[i] == a[i..i + |s|][0];
      assert a[i + 1..i + 1 + |s[1..]|] == a[i..i + |s|][1..];
    }
  }

  lemma HoldsSecond(a: array<byte>, i: nat, s: Text)
    requires Holds(a, i, s) && s != []
    ensures i + 1 < a.Length && a[i + 1] == if |s| == 1 then NUL else s[1]
    ensures |s| > 1 ==> Holds(a, i + 2, s[2..])
  {
    hide Holds;
    HoldsFirst(a, i, s);
    HoldsFirst(a, i + 1, s[1..]);
    if |s| > 1 {
      assert s[1..][1..] == s[2..];
    }
  }

  method SkipOnelineComment(a: array<byte>, json: nat, ghost s: Text) returns (next: nat, ghost rest: Text)
    requires Holds(a, json, s) && |s| >= 2
    ensures rest == AfterLine(s[2..]) && json < next && next + |rest| == json + |s| && Holds(a, next, rest)
  {
    hide Holds;
    HoldsFirst(a, json, s);
    HoldsSecond(a, json, s);
    next, rest := json + 2, s[2..];
    while a[next] != NUL
      invariant json + 2 <= next && next + |rest| == json + |s| < a.Length && Holds(a, next, rest)
      invariant AfterLine(rest) == AfterLine(s[2..])
      decreases |rest|
    {
      HoldsFirst(a, next, rest);
      next := next + 1;
      if a[next - 1] == NEWLINE {
        rest := rest[1..];
        return;
      }
      rest := rest[1..];
    }
    HoldsFirst(a, next, rest);
  }

  lemma {:induction false} AfterBlockStep(s: Text)
    ensures AfterBlock([]) == []
    ensures s != [] ==>
              AfterBlock(s) == if s[0] == STAR && |s| > 1 && s[1] == SLASH then s[2..] else AfterBlock(s[1..])
  {
  }

  method SkipMultilineComment(a: array<byte>, json: nat, ghost s: Text) returns (next: nat, ghost rest: Text)
    requires Holds(a, json, s) && |s| >= 2
    ensures rest == AfterBlock(s[2..]) && json < next && next + |rest| == json + |s| && Holds(a, next, rest)
  {
    hide Holds, AfterBlock;
    HoldsFirst(a, json, s);
    HoldsSecond(a, json, s);
    next, rest := json + 2, s[2..];
    while a[next] != NUL
      invariant json + 2 <= next && next + |rest| == json + |s| < a.Length && Holds(a, next, rest)
      invariant AfterBlock(rest) == AfterBlock(s[2..])
      decreases |rest|
    {
      HoldsFirst(a, next, rest);
      HoldsSecond(a, next, rest);
      AfterBlockStep(rest);
      if a[next] == STAR && a[next + 1] == SLASH {
        next, rest := next + 2, rest[2..];
        return;
      }
      next, rest := next + 1, rest[1..];
    }
    HoldsFirst(a, next, rest);
    AfterBlockStep(rest);
  }

  /** Writing at or before the read position leaves the unread text alone. */
  method Write(a: array<byte>, into: nat, b: nonzero, json: nat, ghost s: Text)
    requires into < json && Holds(a, json, s)
    modifies a
    ensures Holds(a, json, s) && a[..into + 1] == old(a[..into]) + [b]
  {
    a[into] := b;
    assert a[json..json + |s|] == old(a[json..json + |s|]);
  }

  /** Copies a string up to its closing quote; both positions move, the write position never ahead. */
  method MinifyString(a: array<byte>, json: nat, into: nat, ghost s: Text) returns (next: nat, into': nat,
                      ghost rest: Text)
    requires into <= json && Holds(a, json, s) && s != [] && s[0] == QUOTE
    modifies a
    ensures into < into' <= next && json < next && next + |rest| == json + |s| && Holds(a, next, rest)
    ensures a[..into'] + Minified(rest) == old(a[..into]) + Minified(s)
  {
    hide Holds, Minified, InString;
    HoldsFirst(a, json, s);
    ghost var whole := a[..into] + Minified(s);
    next, into', rest := json + 1, into + 1, s[1..];
    OpeningQuote(a[..into], s);
    Write(a, into, QUOTE, next, rest);
    while a[next] != NUL
      invariant into < into' <= next && json < next && next + |rest| == json + |s| < a.Length && Holds(a, next, rest)
      invariant a[..into'] + InString(rest) == whole
      decreases |rest|
    {
      HoldsFirst(a, next, rest);
      if a[next] == QUOTE {
        ClosingQuote(a[..into'], rest);
        Write(a, into', QUOTE, next + 1, rest[1..]);
        next, into', rest := next + 1, into' + 1, rest[1..];
        return;
      }
      next, into', rest := CopyInString(a, next, into', rest);
    }
    HoldsFirst(a, next, rest);
    EndInString();
  }

  /** One round of the loop of `minify_string`, at a byte other than a quote. */
  method CopyInString(a: array<byte>, json: nat, into: nat, ghost s: Text) returns (next: nat, into': nat,
                      ghost rest: Text)
    requires into <= json && Holds(a, json, s) && s != [] && s[0] != QUOTE
    modifies a
    ensures into < into' <= next && json < next && next + |rest| == json + |s| && Holds(a, next, rest)
    ensures a[..into'] + InString(rest) == old(a[..into]) + InString(s)
  {
    hide Holds, InString;
    HoldsFirst(a, json, s);
    HoldsSecond(a, json, s);
    var b: nonzero := a[json];
    if b == BACKSLASH && a[json + 1] == QUOTE {
      QuoteInString(a[..into], s);
      Write(a, into, BACKSLASH, json + 2, s[2..]);
      Write(a, into + 1, QUOTE, json + 2, s[2..]);
      next, into', rest := json + 2, into + 2, s[2..];
    } else {
      ByteInString(a[..into], s);
      Write(a, into, b, json + 1, s[1..]);
      next, into', rest := json + 1, into + 1, s[1..];
    }
  }

  predicate EscapedQuote(s: Text) {
    |s| > 1 && s[0] == BACKSLASH && s[1] == QUOTE
  }

  lemma {:induction false} QuoteInString(done: seq<byte>, s: Text)
    requires EscapedQuote(s)
    ensures done + InString(s) == done + [BACKSLASH] + [QUOTE] + InString(s[2..])
  {
    var rest := InString(s[2..]);
    assert InString(s) == [BACKSLASH, QUOTE] + rest;
    PairApart(done, BACKSLASH, QUOTE, rest);
  }

  lemma PairApart(done: seq<byte>, a: byte, b: byte, rest: seq<byte>)
    ensures done + ([a, b] + rest) == done + [a] + [b] + rest
  {
  }

  lemma {:induction false} ByteInString(done: seq<byte>, s: Text)
    requires s != [] && s[0] != QUOTE && !EscapedQuote(s)
    ensures done + InString(s) == done + [s[0]] + InString(s[1..])
  {
    Associative(done, [s[0]], InString(s[1..]));
  }

  lemma Associative(a: seq<byte>, b: seq<byte>, c: seq<byte>)
    ensures a + (b + c) == a + b + c
  {
  }

  lemma {:induction false} OpeningQuote(done: seq<byte>, s: Text)
    requires s != [] && s[0] == QUOTE
    ensures done + Minified(s) == done + [QUOTE] + InString(s[1..])
  {
    hide InString;
    Associative(done, [QUOTE], InString(s[1..]));
  }

  lemma {:induction false} PlainByte(done: seq<byte>, s: Text)
    requires s != [] && !IsBlank(s[0]) && s[0] != SLASH && s[0] != QUOTE
    ensures done + Minified(s) == done + [s[0]] + Minified(s[1..])
  {
    hide InString;
    Associative(done, [s[0]], Minified(s[1..]));
  }

  lemma {:induction false} ClosingQuote(done: seq<byte>, s: Text)
    requires s != [] && s[0] == QUOTE
    ensures done + InString(s) == done + [QUOTE] + Minified(s[1..])
  {
    hide Minified;
    Associative(done, [QUOTE], Minified(s[1..]));
  }

  lemma EndInString()
    ensures InString([]) == Minified([]) == []
  {
  }

  /** One round of the loop of `cJSON_Minify`. */
  method MinifyStep(a: array<byte>, json: nat, into: nat, ghost s: Text) returns (next: nat, into': nat,
                    ghost rest: Text)
    requires into <= json && Holds(a, json, s) && s != []
    modifies a
    ensures into <= into' <= next && json < next && next + |rest| == json + |s| && Holds(a, next, rest)
    ensures a[..into'] + Minified(rest) == old(a[..into]) + Minified(s)
  {
    hide Holds, InString, AfterLine, AfterBlock, IsBlank;
    HoldsFirst(a, json, s);
    into' := into;
    if IsBlank(a[json]) {
      next, rest := json + 1, s[1..];
    } else if a[json] == SLASH {
      HoldsSecond(a, json, s);
      if a[json + 1] == SLASH {
        next, rest := SkipOnelineComment(a, json, s);
      } else if a[json + 1] == STAR {
        next, rest := SkipMultilineComment(a, json, s);
      } else {
        next, rest := json + 1, s[1..];
      }
    } else if a[json] == QUOTE {
      next, into', rest := MinifyString(a, json, into, s);
    } else {
      PlainByte(a[..into], s);
      Write(a, into, a[json], json + 1, s[1..]);
      next, into', rest := json + 1, into + 1, s[1..];
    }
  }

  /** `cJSON_Minify`: the buffer ends up holding exactly the filtered text. */
  method MinifyInPlace(a: array<byte>, ghost s: Text)
    requires Holds(a, 0, s)
    modifies a
    ensures Holds(a, 0, Minified(s))
  {
    var json, into := 0, 0;
    ghost var rest := s;
    while a[json] != NUL
      invariant into <= json && json + |rest| == |s| && Holds(a, json, rest)
      invariant a[..into] + Minified(rest) == Minified(s)
      decreases |rest|
    {
      HoldsFirst(a, json, rest);
      json, into, rest := MinifyStep(a, json, into, rest);
    }
    HoldsFirst(a, json, rest);
    a[into] := NUL;
    assert a[0..into] == a[..into];
  }
}
