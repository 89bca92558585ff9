/**
 The memory of the C library as far as it is accounted for: which blocks are allocated.
 */
module Allocation {
  import opened Bytes
  import opened SiblingList

  /** The blocks that have been allocated and not yet freed. */
  class Allocator {
    ghost var live: set<object>

    constructor ()
      ensures live == {}
    {
      live := {};
    }

    /** `cJSON_New_Item` */
    method NewItem() returns (item: Node)
      modifies this
      ensures fresh(item) && live == old(live) + {item}
      ensures item.next == null && item.prev == null && item.child == null
      ensures !item.isReference && !item.stringIsConst && item.valuestring == null && item.name == null
    {
      item := new Node();
      live := live + {item};
    }

    method NewString(text: Text) returns (block: StringBlock)
      modifies this
      ensures fresh(block) && block.text == text && live == old(live) + {block}
    {
      block := new StringBlock(text);
      live := live + {block};
    }

    /** A block of bytes, whatever they are. */
    method NewBytes(size: nat) returns (block: array<byte>)
      modifies this
      ensures fresh(block) && block.Length == size && live == old(live) + {block}
    {
      block := new byte[size];
      live := live + {block};
    }

    /** A finished block of bytes becomes the string it holds up to its first NUL. */
    method ToString(block: array<byte>, length: nat) returns (string_: StringBlock)
      requires block in live && length <= block.Length
      modifies this
      ensures fresh(string_) && string_.text == UpToNul(block[..length]) && live == old(live) - {block} + {string_}
    {
      string_ := new StringBlock(UpToNul(block[..length]));
      live := live - {block} + {string_};
    }

    /** `deallocate`: a block must be freed at most once. */
    method Free(block: object)
      requires block in live
      modifies this
      ensures live == old(live) - {block}
    {
      live := live - {block};
    }
  }
}
