/**
 The growing output buffer of the printer (`printbuffer`, `ensure`, `update_offset`)
 and the printing of numbers and strings into it.
 */
module PrintBuffer {
  import opened Bytes
  import opened Utf16
  import opened StringLiteral
  import opened JsonTree
  import opened Rendering
  import opened Allocation
  import Decimal

  class Output {
    var buffer: array<byte>
    var offset: nat
    var depth: nat
    const noalloc: bool
    const format: bool
    const hasRealloc: bool
    const heap: Allocator

    /** `length` of the source is `buffer.Length`; it is an `int` at every call. A buffer that may grow is allocated. */
    ghost predicate Valid()
      reads this, heap
    {
      (offset == 0 || offset < buffer.Length) && buffer.Length <= INT_MAX && (noalloc || buffer in heap.live)
    }

    /** The buffer is the old one or has taken its place; nothing else is allocated or freed. */
    twostate predicate Kept()
      reads this, heap
    {
      && Limit() == old(Limit()) && (buffer == old(buffer) || (fresh(buffer) && !noalloc))
      && heap.live - {buffer} == old(heap.live - {buffer}) && (buffer in heap.live <==> old(buffer in heap.live))
    }

    /** The size the buffer can reach. */
    ghost function Limit(): nat
      reads this
    {
      if noalloc then buffer.Length else INT_MAX
    }

    /** `text` is complete: it fills the buffer up to `offset`. */
    ghost predicate Complete(text: seq<byte>)
      reads this, buffer, heap
    {
      Valid() && offset == |text| <= buffer.Length && buffer[..offset] == text
    }

    /**
     `text` is in the buffer with a NUL behind it, but `offset` may lag behind its end:
     the convention that `update_offset` repairs.
     */
    ghost predicate Shows(text: seq<byte>)
      reads this, buffer, heap
    {
      && Valid()
      && offset <= |text| < buffer.Length
      && buffer[..|text|] == text && buffer[|text|] == NUL
      && forall k :: offset <= k < |text| ==> text[k] != NUL
    }

    constructor (buffer: array<byte>, noalloc: bool, format: bool, hasRealloc: bool, heap: Allocator)
      requires buffer.Length <= INT_MAX && (noalloc || buffer in heap.live)
      ensures Complete([]) && depth == 0 && this.buffer == buffer && this.heap == heap
      ensures this.noalloc == noalloc && this.format == format && this.hasRealloc == hasRealloc
    {
      this.heap := heap;
      this.buffer, offset, depth := buffer, 0, 0;
      this.noalloc, this.format, this.hasRealloc := noalloc, format, hasRealloc;
    }

    /**
     Makes room for `needed` more bytes and one more; what is in front of `offset` survives. A buffer that is too
     short is replaced by one of twice the size that is needed, or of the greatest size.
     */
    method Ensure(needed: nat) returns (ok: bool)
      requires Valid()
      modifies this`buffer, heap
      ensures Valid() && Kept()
      ensures ok <==> offset + needed + 1 <= Limit()
      ensures ok ==> offset + needed + 1 <= buffer.Length
      ensures ok ==> buffer[..offset] == old(buffer[..offset])
      ensures ok && offset + needed < old(buffer.Length) ==> buffer == old(buffer)
      ensures ok && offset + needed >= old(buffer.Length) ==>
                var total := offset + needed + 1;
                fresh(buffer) && buffer.Length == if total <= 1073741823 then 2 * total else 2147483647
    {
      if buffer.Length > 0 && offset >= buffer.Length {
        return false;
      }
      if needed > INT_MAX {
        return false;
      }
      var total := needed + offset + 1;
      if total <= buffer.Length {
        return true;
      }
      if noalloc {
        return false;
      }
      var newsize;
      if total > INT_MAX / 2 {
        if total > INT_MAX {
          return false;
        }
        newsize := INT_MAX;
      } else {
        newsize := total * 2;
      }
      var count := if hasRealloc || buffer.Length == 0 then buffer.Length else offset + 1;
      var newbuffer := Copied(buffer, count, newsize, heap);
      heap.Free(buffer);
      buffer := newbuffer;
      return true;
    }

    /** strlen from `offset` on. */
    method UpdateOffset(ghost text: seq<byte>)
      requires Shows(text)
      modifies this`offset
      ensures Complete(text) && offset < buffer.Length && buffer[offset] == NUL
    {
      var n := 0;
      assert forall k :: 0 <= k < |text| ==> buffer[k] == text[k];
      while buffer[offset + n] != NUL
        invariant offset + n <= |text|
        decreases |text| - n
      {
        n := n + 1;
      }
      offset := offset + n;
    }

    /** `strcpy(output, s)` at `offset`. */
    method CopyText(s: Text)
      requires Valid() && offset + |s| < buffer.Length
      modifies buffer
      ensures Shows(old(buffer[..offset]) + s)
    {
      ghost var prefix := buffer[..offset];
      var i := 0;
      while i < |s|
        invariant 0 <= i <= |s|
        invariant buffer[..offset + i] == prefix + s[..i]
      {
        buffer[offset + i] := s[i];
        i := i + 1;
      }
      buffer[offset + i] := NUL;
      assert buffer[..|prefix + s|] == prefix + s;
    }

    /** `ensure`, then a text with its NUL at `offset`, which stays where it is. */
    method Finish(needed: nat, s: Text) returns (ok: bool)
      requires Valid() && |s| <= needed
      modifies this`buffer, buffer, heap
      ensures ok <==> old(offset) + needed + 1 <= old(Limit())
      ensures ok ==> Shows(old(buffer[..offset]) + s)
      ensures Kept()
    {
      ok := Ensure(needed);
      if ok {
        CopyText(s);
      }
    }

    /** `ensure`, then some bytes, and `offset` moves behind them. */
    method Emit(needed: nat, s: Text) returns (ok: bool)
      requires Valid() && |s| <= needed
      modifies this`buffer, this`offset, buffer, heap
      ensures ok <==> old(offset) + needed + 1 <= old(Limit())
      ensures ok ==> Complete(old(buffer[..offset]) + s)
      ensures Kept()
    {
      ok := Ensure(needed);
      if ok {
        ghost var prefix := buffer[..offset];
        CopyBytes(offset, s);
        offset := offset + |s|;
      }
    }

    /** The `"%d"` branch of `print_number`; unlike the others it moves `offset` itself. */
    method PrintNumber(d: real) returns (ok: bool)
      requires Valid() && IsInt32(d)
      modifies this`buffer, this`offset, buffer, heap
      ensures var s := Decimal.IntText(ValueInt(d));
              && (ok <==> old(offset) + |s| + 2 <= old(Limit()))
              && (ok ==> Shows(old(buffer[..offset]) + s) && offset == old(offset) + |s|)
      ensures Kept()
    {
      var s := Decimal.IntText(ValueInt(d));
      Decimal.IntTextLength(ValueInt(d));
      ok := Ensure(|s| + 1);
      if ok {
        CopyText(s);
        offset := offset + |s|;
      }
    }

    /** `print_string_ptr`: the quoted and escaped form of a C string. */
    method PrintString(s: CString) returns (ok: bool)
      requires Valid()
      modifies this`buffer, buffer, heap
      ensures ok <==> old(offset) + |RenderString(s)| + 2 <= old(Limit())
      ensures ok ==> Shows(old(buffer[..offset]) + RenderString(s))
      ensures Kept()
    {
      if s.NullPtr? {
        assert RenderString(s) == [QUOTE, QUOTE];
        ok := Ensure(3);
        if ok {
          CopyText([QUOTE, QUOTE]);
        }
        return;
      }
      hide Shows, Escape;
      var extra := CountEscapes(s.text);
      ok := Ensure(|s.text| + extra + 3);
      if ok {
        StoreQuoted(s.text, extra);
      }
    }

    /** The part of `print_string_ptr` behind `ensure`: the fast and the slow path. */
    method StoreQuoted(text: Text, extra: nat)
      requires Valid() && |text| + extra == |Escape(text)| && offset + |text| + extra + 3 <= buffer.Length
      modifies buffer
      ensures Shows(old(buffer[..offset]) + Quoted(text))
    {
      hide Escape;
      ghost var prefix := buffer[..offset];
      buffer[offset] := QUOTE;
      assert buffer[..offset + 1] == prefix + [QUOTE];
      StoreBody(offset + 1, text, extra);
      var end := offset + 1 + |text| + extra;
      ghost var sofar := buffer[..end];
      buffer[end] := QUOTE;
      assert buffer[..end + 1] == sofar + [QUOTE];
      buffer[end + 1] := NUL;
      assert buffer[..end + 1] == prefix + Quoted(text);
    }

    method StoreBody(at: nat, text: Text, extra: nat)
      requires |text| + extra == |Escape(text)| && at + |text| + extra < buffer.Length
      modifies buffer
      ensures buffer[..at + |text| + extra] == old(buffer[..at]) + Escape(text)
    {
      hide Escape;
      if extra == 0 {
        EscapeNothing(text);
        CopyBytes(at, text);
      } else {
        EscapeInto(at, text);
      }
    }

    /** `memcpy(output + 1, input, output_length)`. */
    method CopyBytes(at: nat, s: Text)
      requires at + |s| <= buffer.Length
      modifies buffer
      ensures buffer[..at + |s|] == old(buffer[..at]) + s
    {
      ghost var prefix := buffer[..at];
      var i := 0;
      while i < |s|
        invariant 0 <= i <= |s|
        invariant buffer[..at + i] == prefix + s[..i]
      {
        buffer[at + i] := s[i];
        i := i + 1;
      }
    }

    /** The copying loop of the slow path; `sprintf` puts a NUL behind each `uXXXX` it prints. */
    method EscapeInto(at: nat, s: Text)
      requires at + |Escape(s)| < buffer.Length
      modifies buffer
      ensures buffer[..at + |Escape(s)|] == old(buffer[..at]) + Escape(s)
    {
      hide Escape, EscapeByte;
      var i, pos := 0, at;
      ghost var prefix := buffer[..at];
      EscapeSplit(s, 0);
      while i < |s|
        invariant 0 <= i <= |s| && pos == at + |Escape(s[..i])| <= at + |Escape(s)|
        invariant buffer[..pos] == prefix + Escape(s[..i])
      {
        assert s[..i + 1] == s[..i] + [s[i]];
        EscapeSnoc(s[..i], s[i]);
        EscapeSplit(s, i + 1);
        ghost var done := buffer[..pos];
        pos := StoreEscaped(pos, s[i]);
        assert buffer[..pos] == done + EscapeByte(s[i]) == prefix + (Escape(s[..i]) + EscapeByte(s[i]));
        i := i + 1;
      }
      assert s[..|s|] == s;
    }

    method StoreEscaped(pos: nat, b: nonzero) returns (pos': nat)
      requires pos + |EscapeByte(b)| < buffer.Length
      modifies buffer
      ensures pos' == pos + |EscapeByte(b)| < buffer.Length
      ensures buffer[..pos] == old(buffer[..pos]) && buffer[pos..pos'] == EscapeByte(b)
    {
      if b > 31 && b != QUOTE && b != BACKSLASH {
        buffer[pos] := b;
        return pos + 1;
      }
      buffer[pos] := BACKSLASH;
      if ShortEscape(b).Some? {
        buffer[pos + 1] := ShortEscape(b).value;
        return pos + 2;
      }
      StoreGroup(pos, b);
      return pos + 6;
    }

    /** `sprintf(output_pointer, "u%04x", b)` behind the backslash: five characters and a NUL. */
    method StoreGroup(pos: nat, b: nonzero)
      requires b < 32 && pos + 6 < buffer.Length && buffer[pos] == BACKSLASH
      modifies buffer
      ensures buffer[..pos] == old(buffer[..pos]) && buffer[pos..pos + 6] == Group(b)
    {
      hide HexDigit;
      ghost var g := Group(b);
      buffer[pos + 1] := LETTER_U;
      buffer[pos + 2] := HexDigit(b / 0x1000);
      buffer[pos + 3] := HexDigit(b / 0x100 % 0x10);
      buffer[pos + 4] := HexDigit(b / 0x10 % 0x10);
      buffer[pos + 5] := HexDigit(b % 0x10);
      buffer[pos + 6] := NUL;
      assert buffer[pos..pos + 6] == g;
    }
  }

  /** Counts the bytes that escaping adds: the computation of `output_length`. */
  method CountEscapes(s: Text) returns (extra: nat)
    ensures |s| + extra == |Escape(s)|
  {
    extra := 0;
    var i := 0;
    while i < |s|
      invariant 0 <= i <= |s|
      invariant i + extra == |Escape(s[..i])|
    {
      assert s[..i + 1] == s[..i] + [s[i]];
      EscapeSnoc(s[..i], s[i]);
      if ShortEscape(s[i]).Some? {
        extra := extra + 1;
      } else if s[i] < 32 {
        extra := extra + 5;
      }
      i := i + 1;
    }
    assert s[..|s|] == s;
  }

  /** A new block of `newsize` bytes that starts with the first `count` bytes of another. */
  method Copied(source: array<byte>, count: nat, newsize: nat, heap: Allocator) returns (block: array<byte>)
    requires count <= source.Length && count <= newsize
    modifies heap
    ensures heap.live == old(heap.live) + {block}
    ensures fresh(block) && block.Length == newsize && block[..count] == source[..count]
  {
    block := heap.NewBytes(newsize);
    var i := 0;
    while i < count
      invariant 0 <= i <= count
      invariant block[..i] == source[..i] && heap.live == old(heap.live) + {block}
    {
      block[i] := source[i];
      i := i + 1;
    }
  }
}
