/**
 The two loops of `parse_string` over an input buffer: size the output, then decode into it.
 */
module StringParser {
  import opened Bytes
  import opened Utf16
  import opened StringLiteral
  import opened Allocation

  /** First pass: walks to the closing quote and counts the bytes that escaping adds. */
  method ScanLiteral(c: seq<byte>, start: nat) returns (found: bool, end: nat, skipped: nat)
    requires start <= |c|
    ensures found <==> ClosingQuote(c, start).Some?
    ensures found ==> ClosingQuote(c, start) == Some(end) && start <= end
    ensures found ==> Aligned(c, start, end) && skipped == Skipped(c, start, end)
  {
    end, skipped := start, 0;
    while end < |c| && c[end] != QUOTE
      invariant start <= end <= |c|
      invariant Aligned(c, start, end) && skipped == Skipped(c, start, end)
      invariant ClosingQuote(c, start) == ClosingQuote(c, end)
      decreases |c| - end
    {
      if c[end] == BACKSLASH {
        if end + 1 >= |c| {
          return false, end, skipped;
        }
        skipped := skipped + 1;
        end := end + 1;
      }
      end := end + 1;
    }
    found := end < |c|;
  }

  /** Bytes allocated for the decoded text and its NUL. */
  function AllocationSize(off: nat, end: nat, skipped: nat): nat
    requires off + skipped <= end
  {
    end - off - skipped + 1
  }

  /** Bytes the decoding loop has room for at `p`: what the first pass counted up to there. */
  function Budget(c: seq<byte>, start: nat, end: nat, p: nat): nat
    requires start <= p <= end + 1 && start <= end <= |c|
  {
    var q := if p <= end then p else end;
    q - start - Skipped(c, start, q)
  }

  /**
   No step of the decoder stores more than the first pass allowed for the bytes it reads,
   even where the two split the input into escapes differently.
   */
  lemma {:induction false} BudgetGrows(c: seq<byte>, start: nat, end: nat, p: nat, step: nat, stored: nat)
    requires start <= p < end < |c| && c[end] == QUOTE && Aligned(c, start, end)
    requires || (step == 1 && stored == 1 && c[p] != BACKSLASH)
             || (step == 2 && stored == 1 && c[p] == BACKSLASH)
             || (step == 6 && stored <= 3 && p + 6 <= end)
             || (step == 12 && stored <= 4 && p + 12 <= end)
    ensures p + step <= end + 1
    ensures Budget(c, start, end, p) + stored <= Budget(c, start, end, p + step)
  {
    if step == 2 && p + 1 == end {
      assert Skipped(c, start, end) == Skipped(c, start, p);
    } else {
      SkippedWindow(c, start, p, p + step);
    }
  }

  /** Second pass: decodes into a block whose size only the first pass has justified, and frees it on a bad escape. */
  method DecodeLiteral(c: seq<byte>, start: nat, end: nat, skipped: nat, heap: Allocator)
    returns (ok: bool, p: nat, output: array<byte>, length: nat)
    requires 1 <= start <= end < |c| && c[end] == QUOTE
    requires Aligned(c, start, end) && skipped == Skipped(c, start, end)
    modifies heap
    ensures heap.live == old(heap.live) + if ok then {output} else {}
    ensures fresh(output) && output.Length == AllocationSize(start - 1, end, skipped)
    ensures ok <==> Decode(c, start, end).Good?
    ensures ok ==> length < output.Length && output[length] == NUL && end <= p <= end + 1
    ensures ok ==> Decode(c, start, end) == Good(output[..length])
    ensures !ok ==> Decode(c, start, end) == Bad(p)
  {
    output := heap.NewBytes(AllocationSize(start - 1, end, skipped));
    p, length := start, 0;
    BudgetBound(c, start, end, start);
    while p < end
      invariant start <= p <= end + 1 && heap.live == old(heap.live) + {output}
      invariant length <= Budget(c, start, end, p) <= output.Length - 2
      invariant Decode(c, start, end) == Prepend(output[..length], Decode(c, p, end))
      decreases end + 1 - p
    {
      ghost var done, n := output[..length], length;
      ok, p, length := DecodeStep(c, start, end, p, output, length);
      if !ok {
        heap.Free(output);
        return;
      }
      BudgetBound(c, start, end, p);
      PrependTwice(done, output[n..length], Decode(c, p, end));
      assert output[..length] == done + output[n..length];
    }
    output[length] := NUL;
    ok := true;
  }

  lemma PrependTwice(a: seq<byte>, b: seq<byte>, d: Decoded)
    ensures Prepend(a, Prepend(b, d)) == Prepend(a + b, d)
  {
    if d.Good? {
      assert a + (b + d.bytes) == a + b + d.bytes;
    }
  }

  /** One round of the decoding loop. */
  method DecodeStep(c: seq<byte>, ghost start: nat, end: nat, p: nat, output: array<byte>, length: nat)
    returns (ok: bool, p': nat, length': nat)
    requires start <= p < end < |c| && c[end] == QUOTE && Aligned(c, start, end)
    requires length <= Budget(c, start, end, p)
    requires Budget(c, start, end, end) + 2 <= output.Length
    modifies output
    ensures !ok ==> p' == p && length' == length && Decode(c, p, end) == Bad(p)
    ensures ok ==> p < p' <= end + 1 && length' <= Budget(c, start, end, p')
    ensures ok ==> length <= length' <= output.Length && output[..length] == old(output[..length])
    ensures ok ==> Decode(c, p, end) == Prepend(output[length..length'], Decode(c, p', end))
  {
    hide Budget, Aligned, Utf8, ReadLiteral, Unescaped;
    if c[p] != BACKSLASH {
      BudgetGrows(c, start, end, p, 1, 1);
      BudgetBound(c, start, end, p + 1);
      output[length] := c[p];
      return true, p + 1, length + 1;
    }
    var u := Unescaped(c[p + 1]);
    if u.Some? {
      BudgetGrows(c, start, end, p, 2, 1);
      BudgetBound(c, start, end, p + 2);
      output[length] := u.value;
      return true, p + 2, length + 1;
    }
    if c[p + 1] != LETTER_U {
      return false, p, length;
    }
    ghost var l := ReadLiteral(c, p, end);
    if l.Some? {
      BudgetGrows(c, start, end, p, l.value.length, Utf8Length(l.value.codepoint));
      BudgetBound(c, start, end, p + l.value.length);
    } else {
      BudgetBound(c, start, end, p);
    }
    var n, o := Utf16LiteralToUtf8(c, p, end, output, length);
    return n != 0, p + n, o;
  }

  lemma BudgetBound(c: seq<byte>, start: nat, end: nat, p: nat)
    requires start <= p <= end + 1 && start <= end <= |c|
    ensures Budget(c, start, end, p) <= Budget(c, start, end, end)
  {
    var q := if p <= end then p else end;
    SkippedWindow(c, start, q, end);
  }
}
