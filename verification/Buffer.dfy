/** The growable NUL-terminated byte buffer of src/buffer.cpp. */
module Buffers {
  import opened Words

  /** The largest request that rounding up to a multiple of 64 does not wrap. */
  const MAX_ALIGNED: Uint32 := TWO_TO_THE_32 - 64

  function AlignSize(sizes: Uint32): Uint32 {
    Wrap(sizes + 64 - 1) / 64 * 64
  }

  /** Rounding covers the request exactly when the 32-bit sum inside does not wrap. */
  lemma AlignSizeCovers(sizes: Uint32)
    ensures AlignSize(sizes) >= sizes <==> sizes <= MAX_ALIGNED
    ensures sizes <= MAX_ALIGNED ==> AlignSize(sizes) < sizes + 64 && AlignSize(sizes) % 64 == 0
    ensures sizes > MAX_ALIGNED ==> AlignSize(sizes) == 0
  {
    if sizes > MAX_ALIGNED {
      assert Wrap(sizes + 63) == sizes + 63 - TWO_TO_THE_32;
    } else {
      assert Wrap(sizes + 63) == sizes + 63;
    }
  }

  /** Nothing is left of a rounded block exactly for a multiple of 64. */
  lemma AlignSizeFits(sizes: Uint32)
    requires 0 < sizes <= MAX_ALIGNED
    ensures Max(sizes, 1) == sizes
    ensures AlignSize(sizes) >= sizes && (AlignSize(sizes) == sizes <==> sizes % 64 == 0)
  {
    AlignSizeCovers(sizes);
  }

  class Buffer {
    var ptr: array?<char>
    var usedBytes: Uint32  // counts the closing NUL; 0 when nothing was stored yet
    var size: Uint32
    ghost var owner: object?  // the structure the buffer is a part of

    constructor ()
      ensures Valid() && ptr == null && usedBytes == 0
    {
      ptr, usedBytes, size := null, 0, 0;
    }

    /** The size fields agree with the block; says nothing about the bytes in it. */
    ghost predicate Shape()
      reads this
    {
      && (ptr == null ==> size == 0)
      && (ptr != null ==> ptr.Length == size && size > 0)
      && usedBytes <= size
      && size % 64 == 0
    }

    ghost predicate Valid()
      reads this, ptr
    {
      Shape() && (usedBytes > 0 ==> ptr[usedBytes - 1] == '\0')
    }

    /** The stored bytes, without the closing NUL. */
    ghost function Contents(): (s: seq<char>)
      requires Shape()
      reads this, ptr
    {
      if usedBytes == 0 then [] else ptr[..usedBytes - 1]
    }

    ghost function Repr(): set<object>
      reads this
    {
      if ptr == null then {this} else {this, ptr}
    }

    /** Forgets the block. */
    method Reset()
      modifies this
      ensures Valid() && ptr == null && usedBytes == 0 && Contents() == [] && owner == old(owner)
    {
      ptr, usedBytes, size := null, 0, 0;
    }

    function StringLength(): (n: Uint32)
      requires Shape()
      reads this
      ensures n == |Contents()|
    {
      if usedBytes > 0 then usedBytes - 1 else 0
    }

    function RemainingBytes(): (n: Uint32)
      requires Shape()
      reads this
      ensures n + usedBytes == size
    {
      if usedBytes > 0 then size - usedBytes else size
    }

    /** The stored bytes as a value. */
    method ToString() returns (s: seq<char>)
      requires Valid()
      ensures s == Contents()
    {
      s := if ptr == null then [] else ptr[..StringLength()];
    }

    predicate IsEmpty()
      reads this
    {
      usedBytes == 0
    }

    /** Makes the block hold `sizes` bytes; a block that is too small is dropped, bytes and all. */
    method AllocSize(sizes: Uint32)
      requires Valid() && sizes <= MAX_ALIGNED
      modifies this
      ensures owner == old(owner)
      ensures Valid()
      ensures size >= sizes && size > 0 && (ptr == old(ptr) || fresh(ptr))
      ensures old(size) >= Max(sizes, 1) ==> unchanged(this)
      ensures old(size) < Max(sizes, 1) ==>
                fresh(ptr) && usedBytes == 0 && size == AlignSize(Max(sizes, 1))
    {
      var need: Uint32 := if sizes == 0 then 1 else sizes;
      if size >= need {
        return;
      }
      AlignSizeCovers(need);
      var aligned := AlignSize(need);
      ptr := new char[aligned];
      usedBytes := 0;
      size := aligned;
    }

    /** realloc: a block of `newSize` bytes that starts with the old bytes. */
    method Realloc(newSize: Uint32)
      requires Valid() && newSize > 0 && newSize >= usedBytes && newSize % 64 == 0
      modifies this
      ensures owner == old(owner)
      ensures Valid() && fresh(ptr) && size == newSize && usedBytes == old(usedBytes)
      ensures Contents() == old(Contents())
    {
      var block := new char[newSize];
      if ptr != null {
        var keep := if size < newSize then size else newSize;
        forall i | 0 <= i < keep {
          block[i] := ptr[i];
        }
      }
      assert usedBytes > 0 ==> block[..usedBytes] == ptr[..usedBytes];
      ptr := block;
      size := newSize;
    }

    method CopyStringLength(src: seq<char>)
      requires Valid() && |src| + 1 <= MAX_ALIGNED
      modifies Repr()
      ensures owner == old(owner)
      ensures Valid() && fresh(Repr() - old(Repr()))
      ensures Contents() == src && usedBytes == |src| + 1
    {
      AllocSize(|src| + 1);
      forall i | 0 <= i < |src| {
        ptr[i] := src[i];
      }
      usedBytes := |src| + 1;
      ptr[usedBytes - 1] := '\0';
    }

    /** Makes room for `sizes` more bytes and keeps what is stored. */
    method AppendPrepareSizes(sizes: Uint32)
      requires Valid() && usedBytes + sizes <= MAX_ALIGNED
      modifies this
      ensures owner == old(owner)
      ensures Valid() && usedBytes == old(usedBytes) && Contents() == old(Contents())
      ensures size - usedBytes >= sizes && size >= old(size)
      ensures ptr == old(ptr) || fresh(ptr)
    {
      if RemainingBytes() < sizes {
        AlignSizeCovers(usedBytes + sizes);
        Realloc(AlignSize(usedBytes + sizes));
      }
    }

    method AppendStringLength(src: seq<char>)
      requires Valid() && usedBytes + |src| + 1 <= MAX_ALIGNED
      modifies Repr()
      ensures owner == old(owner)
      ensures Valid() && fresh(Repr() - old(Repr()))
      ensures Contents() == old(Contents()) + src
      ensures usedBytes == if src == [] then old(usedBytes) else |old(Contents())| + |src| + 1
    {
      if |src| == 0 {
        assert old(Contents()) + src == old(Contents());
        return;
      }
      AppendPrepareSizes(|src| + 1);
      AppendBytes(src);
    }

    /** memcpy over the closing NUL, and a new NUL after it. */
    method AppendBytes(src: seq<char>)
      requires Valid() && ptr != null && |src| + 1 <= size - usedBytes
      modifies this, ptr
      ensures owner == old(owner)
      ensures Valid() && ptr == old(ptr) && size == old(size)
      ensures Contents() == old(Contents()) + src && usedBytes == |old(Contents())| + |src| + 1
    {
      var at := StringLength();
      forall i | 0 <= i < |src| {
        ptr[at + i] := src[i];
      }
      usedBytes := at + |src| + 1;
      ptr[usedBytes - 1] := '\0';
      assert ptr[..at + |src|] == old(ptr[..at]) + src;
    }

    /** Counts `length` bytes that were stored over the closing NUL, and closes the string again. */
    method Extend(length: Uint32)
      requires Shape() && 0 < length < size - StringLength()
      modifies this, ptr
      ensures owner == old(owner)
      ensures Valid() && ptr == old(ptr) && size == old(size)
      ensures Contents() == old(ptr[..StringLength() + length])
    {
      if StringLength() == 0 {
        usedBytes := length + 1;
      } else {
        usedBytes := usedBytes + length;
      }
      ptr[usedBytes - 1] := '\0';
    }

    /** A source that holds nothing has no closing NUL to count, so it is not allowed. */
    method AppendBuffer(src: Buffer)
      requires Valid() && src.Valid() && src.usedBytes > 0
      requires Repr() !! src.Repr()
      requires usedBytes + src.usedBytes <= MAX_ALIGNED
      modifies Repr()
      ensures owner == old(owner)
      ensures Valid() && fresh(Repr() - old(Repr()))
      ensures Contents() == old(Contents()) + old(src.Contents())
    {
      AppendPrepareSizes(src.usedBytes);
      AppendBytes(src.ptr[..src.usedBytes - 1]);
    }

    method CopyBuffer(src: Buffer)
      requires Valid() && src.Valid() && |src.Contents()| + 1 <= MAX_ALIGNED
      requires Repr() !! src.Repr()
      modifies Repr()
      ensures owner == old(owner)
      ensures Valid() && fresh(Repr() - old(Repr()))
      ensures Contents() == old(src.Contents()) && ptr != null
    {
      var bytes := src.ToString();
      CopyStringLength(bytes);
    }

    /** Cuts the string to `len` bytes, or lengthens it by whatever the block holds. */
    method SetLength(len: Uint32)
      requires Valid() && len + 1 <= MAX_ALIGNED
      modifies Repr()
      ensures owner == old(owner)
      ensures Valid() && fresh(Repr() - old(Repr()))
      ensures |Contents()| == len
      ensures Contents()[..Min(len, |old(Contents())|)] == old(Contents())[..Min(len, |old(Contents())|)]
    {
      if size < len + 1 {
        AlignSizeCovers(len + 1);
        Realloc(AlignSize(len + 1));
      }
      usedBytes := len + 1;
      ptr[usedBytes - 1] := '\0';
    }
  }
}
