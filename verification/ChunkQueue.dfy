/** The chunk queue of src/chunk.cpp: a used list, an idle list, and the stream they stand for. */
module ChunkQueues {
  import opened Words
  import opened Buffers
  import opened Pieces

  const PAGE_SIZE := 4096

  datatype ChunkType = ChunkMem | ChunkFile

  /** What mmap() mapped: `len` bytes of a file from `offset`. */
  datatype Mapping = Mapping(name: string, offset: Uint32, len: Uint32)

  /** The file part of a chunk: the range to send, and the window of the file that is mapped. */
  datatype SendFile = SendFile(
    fileFd: int, offset: Uint32, length: Uint32, filename: string,
    mmapStart: Option<Mapping>, mmapOffset: Uint32, mmapLen: Uint32)
  {
    /** No descriptor is open and nothing is mapped. */
    predicate Closed() {
      fileFd == -1 && filename == "" && mmapStart == None && mmapOffset == 0 && mmapLen == 0
    }

    /** An open mapping is one of this file, page-aligned, and the window fields describe it. */
    predicate WindowValid() {
      mmapStart.Some? ==>
        fileFd >= 0 && mmapOffset % PAGE_SIZE == 0 && mmapStart.value == Mapping(filename, mmapOffset, mmapLen)
    }
  }

  class Chunk {
    var chunkType: ChunkType
    const mem: Buffer
    var sendFile: SendFile
    var chunkOffset: Uint32
    var next: Chunk?
    ghost var place: int  // its position in a list

    constructor ()
      ensures fresh(mem) && mem.Valid() && Clean() && mem.owner == this
    {
      mem := new Buffer();
      chunkType := ChunkMem;
      var unset: Uint32 := *;
      sendFile := SendFile(-1, unset, 0xFFFF_FFFF, "", None, 0, 0);
      next, chunkOffset := null, 0;
      new;
      mem.owner := this;
    }

    /** Nothing is left of an earlier use: no bytes, offset, descriptor or mapping. */
    ghost predicate Clean()
      reads `sendFile, `chunkOffset, mem
    {
      mem.ptr == null && mem.usedBytes == 0 && mem.size == 0 && sendFile.Closed() && chunkOffset == 0
    }

    ghost function Repr(): set<object>
      reads mem
    {
      {this} + mem.Repr()
    }

    method Reset()
      modifies this, mem
      ensures mem.Valid() && Clean() && mem.owner == old(mem.owner) && place == old(place)
    {
      chunkType := ChunkFile;
      mem.Reset();
      chunkOffset, next := 0, null;
      sendFile := SendFile(-1, 0, 0, "", None, 0, 0);
    }

    /** The chunk holds the bytes of `p`, whatever was sent of them. */
    ghost predicate Stores(p: Piece)
      reads `chunkType, `sendFile, mem, mem.ptr
    {
      && mem.Valid()
      && match p
         case Mem(data, _) => chunkType == ChunkMem && mem.ptr != null && mem.Contents() == data
         case File(name, offset, length, _) =>
           && chunkType == ChunkFile && sendFile.WindowValid()
           && sendFile.filename == name && sendFile.offset == offset && sendFile.length == length
           && offset + length < TWO_TO_THE_32
    }

    /** The chunk holds exactly the piece `p`. */
    ghost predicate Represents(p: Piece)
      reads `chunkType, `sendFile, `chunkOffset, mem, mem.ptr
    {
      Stores(p) && chunkOffset == p.sent <= p.FullLength() < TWO_TO_THE_32
    }

    lemma KindOf(p: Piece)
      requires Represents(p)
      ensures chunkType == ChunkMem <==> p.Mem?
    {
    }

    lemma FileOf(p: Piece)
      requires Represents(p) && p.File?
      ensures chunkType == ChunkFile && sendFile.WindowValid() && sendFile.filename == p.name
      ensures sendFile.offset == p.offset && sendFile.length == p.length && p.offset + p.length < TWO_TO_THE_32
      ensures chunkOffset == p.sent <= p.length
    {
    }

    lemma HoldsMem(data: seq<char>, sent: nat)
      requires mem.Valid() && chunkType == ChunkMem && mem.ptr != null && mem.Contents() == data
      requires chunkOffset == sent <= |data|
      ensures Represents(Mem(data, sent))
    {
    }

    lemma HoldsNothing()
      requires mem.Valid() && chunkType == ChunkMem && mem.size > 0 && mem.usedBytes == 0 && chunkOffset == 0
      ensures Represents(Mem([], 0)) && mem.ptr != null
    {
    }

    lemma CanAdvance(p: Piece, n: nat)
      requires Represents(p) && n <= p.RestLength()
      ensures Stores(p) && chunkOffset == p.sent && p.sent + n <= p.FullLength() < TWO_TO_THE_32
    {
    }

    lemma Advanced(p: Piece, n: nat)
      requires Stores(p) && chunkOffset == p.sent + n <= p.FullLength() < TWO_TO_THE_32
      ensures Represents(p.Advance(n))
    {
    }

    /** Bytes of the chunk, sent or not. */
    method StoredLength(ghost p: Piece) returns (n: Uint32)
      requires Represents(p)
      ensures n == p.FullLength()
    {
      if chunkType == ChunkMem {
        n := mem.StringLength();
      } else {
        n := sendFile.length;
      }
    }

    /** Bytes of the chunk that were not sent. */
    method RemainingLength(ghost p: Piece) returns (n: Uint32)
      requires Represents(p)
      ensures n == p.RestLength() && chunkOffset + n < TWO_TO_THE_32
    {
      if chunkType == ChunkMem {
        n := mem.StringLength() - chunkOffset;
      } else {
        n := sendFile.length - chunkOffset;
      }
    }
  }

  /** `cells` are the chunks met by following `next` from `head`. */
  ghost predicate Linked(head: Chunk?, cells: seq<Chunk>)
    reads cells`next
  {
    && head == (if cells == [] then null else cells[0])
    && (cells != [] ==> cells[|cells| - 1].next == null)
    && forall i, j | 0 <= i < |cells| && j == i + 1 < |cells| :: cells[i].next == cells[j]
  }

  lemma LinkedTail(head: Chunk, cells: seq<Chunk>)
    requires Linked(head, cells)
    ensures Linked(head.next, cells[1..])
  {
  }

  class ChunkQueue {
    var first: Chunk?
    var last: Chunk?
    var idle: Chunk?
    var idleChunkSize: nat

    ghost var used: seq<Chunk>    // the chunks of the stream
    ghost var pieces: seq<Piece>  // what they hold
    ghost var base: int           // the place of the first of them
    ghost var usedRepr: set<object>

    ghost var spare: seq<Chunk>   // the idle chunks
    ghost var spareRepr: set<object>

    ghost var Repr: set<object>

    /**
     The used list is linked from `first` to `last` without sharing, and its first `n` chunks
     hold the first `n` pieces.
     */
    ghost predicate UsedUpTo(n: nat)
      reads `first, `last, `used, `pieces, `base, `usedRepr, usedRepr
    {
      && |pieces| == |used|
      && (forall i | 0 <= i < |used| ::
            && used[i] in usedRepr && used[i].mem in usedRepr
            && (used[i].mem.ptr != null ==> used[i].mem.ptr in usedRepr)
            && used[i].place == base + i && used[i].mem.owner == used[i]
            && (i < n ==> used[i].Represents(pieces[i])))
      && (forall i, j | 0 <= i < j < |used| :: used[i].mem.ptr != null ==> used[i].mem.ptr != used[j].mem.ptr)
      && Chained()
    }

    ghost predicate UsedValid()
      reads `first, `last, `used, `pieces, `base, `usedRepr, usedRepr
    {
      UsedUpTo(|used|)
    }

    /** `first` and `last` delimit the used list. */
    ghost predicate Chained()
      reads `first, `last, `used, used`next
    {
      Linked(first, used) && last == (if used == [] then null else used[|used| - 1])
    }

    /** The idle list is linked from `idle`, counted, bounded, and every chunk in it is clean. */
    ghost predicate SpareValid()
      reads `idle, `idleChunkSize, `spare, `spareRepr, spareRepr
    {
      && (forall i | 0 <= i < |spare| ::
            && spare[i] in spareRepr && spare[i].mem in spareRepr
            && spare[i].place == |spare| - 1 - i && spare[i].mem.owner == spare[i]
            && spare[i].Clean())
      && Linked(idle, spare) && |spare| == idleChunkSize <= 4
    }

    ghost predicate Separate()
      reads `usedRepr, `spareRepr, `Repr
    {
      && this in Repr && usedRepr <= Repr && spareRepr <= Repr
      && this !in usedRepr && this !in spareRepr && usedRepr !! spareRepr
    }

    ghost predicate Valid()
      reads this, Repr
      ensures Valid() ==> this in Repr
    {
      Separate() && UsedValid() && SpareValid()
    }

    /** A chunk of the queue that is in neither list. */
    ghost predicate Detached(c: Chunk)
      reads `usedRepr, `spareRepr, `Repr, c, c.mem
    {
      c.Repr() <= Repr && c.Repr() !! usedRepr && c.Repr() !! spareRepr && this !in c.Repr() && c.mem.owner == c
    }

    /** What the two ends of the used list are. */
    lemma ValidEnds()
      requires Valid()
      ensures |used| == |pieces| && (first == null <==> pieces == [])
      ensures first != null ==> first == used[0] && first in Repr && first.mem in Repr
      ensures first != null ==> first.Represents(pieces[0])
    {
    }

    lemma ValidLast()
      requires Valid()
      ensures |used| == |pieces| && (last == null <==> pieces == [])
      ensures last != null ==> last == used[|used| - 1] && last in Repr && last.mem in Repr
    {
    }

    /** What the chunk at position `i` of the used list is. */
    lemma ValidAt(i: nat)
      requires Valid() && i < |pieces|
      ensures |used| == |pieces| && used[i] in Repr && used[i].mem in Repr && used[i].Represents(pieces[i])
      ensures used[i].next == if i + 1 < |used| then used[i + 1] else null
      ensures used[i].mem.ptr != null ==> used[i].mem.ptr in Repr
    {
    }

    /** No chunk is in the used list twice. */
    lemma ValidDistinct(i: nat, j: nat)
      requires Valid() && i <= j < |pieces|
      ensures |used| == |pieces| && (used[i] == used[j] <==> i == j)
    {
    }

    /** A valid queue, taken apart and put together. */
    lemma ValidParts()
      requires Valid()
      ensures Separate() && SpareValid() && Chained() && |pieces| == |used|
      ensures this in Repr && this !in usedRepr && this !in spareRepr && usedRepr !! spareRepr && usedRepr <= Repr
      ensures spareRepr <= Repr
      ensures forall i | 0 <= i < |used| ::
                used[i] in usedRepr && used[i].mem in usedRepr && used[i].place == base + i &&
                    used[i].mem.owner == used[i]
      ensures forall i | 0 <= i < |used| && used[i].mem.ptr != null :: used[i].mem.ptr in usedRepr
      ensures forall i | 0 <= i < |used| :: used[i].Represents(pieces[i])
      ensures forall i, j | 0 <= i < j < |used| ::
                used[i] != used[j] && used[i].mem != used[j].mem &&
                    (used[i].mem.ptr != null ==> used[i].mem.ptr != used[j].mem.ptr)
      ensures last == (if used == [] then null else used[|used| - 1]) && Ends() !! spareRepr
    {
      hide SpareValid, Chunk.Represents;
    }

    lemma NowValid()
      requires Separate() && SpareValid() && Chained() && |pieces| == |used|
      requires forall i | 0 <= i < |used| ::
                 used[i] in usedRepr && used[i].mem in usedRepr && used[i].place == base + i &&
                     used[i].mem.owner == used[i]
      requires forall i | 0 <= i < |used| && used[i].mem.ptr != null :: used[i].mem.ptr in usedRepr
      requires forall i | 0 <= i < |used| :: used[i].Represents(pieces[i])
      requires forall i, j | 0 <= i < j < |used| :: used[i].mem.ptr != null ==> used[i].mem.ptr != used[j].mem.ptr
      ensures Valid()
    {
      hide SpareValid, Chained, Chunk.Represents;
    }

    lemma NowSeparate()
      requires this in Repr && usedRepr <= Repr && spareRepr <= Repr
      requires this !in usedRepr && this !in spareRepr && usedRepr !! spareRepr
      ensures Separate()
    {
    }

    lemma DetachedParts(c: Chunk)
      requires Detached(c)
      ensures c.Repr() <= Repr && c.Repr() !! usedRepr && c.Repr() !! spareRepr && this !in c.Repr() && c.mem.owner == c
      ensures c in c.Repr() && c.mem in c.Repr() && (c.mem.ptr != null ==> c.mem.ptr in c.Repr())
    {
    }

    ghost function Ends(): set<Chunk>
      reads `last
    {
      if last == null then {} else {last}
    }

    constructor ()
      ensures Valid() && fresh(Repr) && pieces == []
    {
      first, last, idle, idleChunkSize := null, null, null, 0;
      used, pieces, base, usedRepr := [], [], 0, {};
      spare, spareRepr := [], {};
      Repr := {this};
    }

    /** malloc of one chunk. */
    method NewChunk() returns (c: Chunk)
      requires Valid()
      modifies `Repr
      ensures Valid() && fresh(Repr - old(Repr)) && fresh(c)
      ensures Detached(c) && c.Clean() && c.mem.Valid()
    {
      hide UsedValid, SpareValid, Chunk.Represents;
      c := new Chunk();
      Repr := Repr + {c, c.mem};
    }

    method LinkIdleCell(c: Chunk)
      requires Linked(idle, spare) && c !in spare
      modifies `idle, `idleChunkSize, `spare, c`next, c`place
      ensures Linked(idle, spare) && spare == [c] + old(spare) && c.place == |old(spare)|
      ensures idleChunkSize == old(idleChunkSize) + 1
    {
      c.next := idle;
      c.place := |spare|;
      idle := c;
      idleChunkSize := idleChunkSize + 1;
      spare := [c] + spare;
    }

    method LinkIdle(c: Chunk)
      requires Valid() && Detached(c) && c.Clean() && |spare| < 4
      modifies `idle, `idleChunkSize, `spare, `spareRepr, c`next, c`place
      ensures Valid() && spare == [c] + old(spare) && spareRepr == old(spareRepr) + {c, c.mem}
    {
      hide UsedValid;
      LinkIdleCell(c);
      spareRepr := spareRepr + {c, c.mem};
    }

    /** The first idle chunk is none of the others. */
    lemma SpareApart()
      requires SpareValid() && spare != []
      ensures idle == spare[0] && idle.Repr() == {idle, idle.mem} <= spareRepr
      ensures forall i | 0 < i < |spare| :: spare[i] != spare[0] && spare[i].mem != spare[0].mem
    {
      forall i | 0 < i < |spare|
        ensures spare[i] != spare[0] && spare[i].mem != spare[0].mem
      {
        assert spare[i].place != spare[0].place;
      }
    }

    method UnlinkIdle() returns (c: Chunk)
      requires Valid() && spare != []
      modifies `idle, `idleChunkSize, `spare, `spareRepr
      ensures Valid() && c == old(spare)[0] && spare == old(spare)[1..]
      ensures Detached(c) && c.Clean() && c.mem.Valid() && c.Repr() <= old(spareRepr)
    {
      hide UsedValid;
      SpareApart();
      c := idle;
      LinkedTail(c, spare);
      idle := c.next;
      idleChunkSize := idleChunkSize - 1;
      spareRepr := spareRepr - {c, c.mem};
      spare := spare[1..];
    }

    method AllocateIdle()
      requires Valid() && spare == []
      modifies `idle, `idleChunkSize, `spare, `spareRepr, `Repr
      ensures Valid() && fresh(Repr - old(Repr)) && |spare| == 4 && fresh(spareRepr - old(spareRepr))
    {
      hide UsedValid, SpareValid, Chunk.Represents;
      for n := 0 to 4
        invariant |spare| == n
        invariant Valid() && fresh(Repr - old(Repr)) && fresh(spareRepr - old(spareRepr))
      {
        var c := NewChunk();
        LinkIdle(c);
      }
    }

    /** Takes an idle chunk; makes four when there is none. */
    method GetUnused() returns (c: Chunk)
      requires Valid()
      modifies `idle, `idleChunkSize, `spare, `spareRepr, `Repr
      ensures Valid() && fresh(Repr - old(Repr))
      ensures Detached(c) && c.Clean() && c.mem.Valid() && fresh(c.Repr() - old(spareRepr))
      ensures if old(spare) == [] then |spare| == 3 else c == old(spare)[0] && spare == old(spare)[1..]
    {
      hide UsedValid;
      if idleChunkSize == 0 {
        assert idle == null;
        AllocateIdle();
      }
      c := UnlinkIdle();
    }

    method LinkLast(c: Chunk)
      requires Chained() && c !in used && (forall i | 0 <= i < |used| :: used[i].place == base + i)
      modifies `first, `last, `used, Ends()`next, c`next, c`place
      ensures Chained() && used == old(used) + [c] && c.place == base + |old(used)|
    {
      c.next := null;
      if last != null {
        last.next := c;
      }
      last := c;
      if first == null {
        first := c;
      }
      c.place := base + |used|;
      used := used + [c];
    }

    method AppendChunk(c: Chunk, ghost p: Piece)
      requires Valid() && Detached(c) && c.Represents(p)
      modifies `first, `last, `used, `pieces, `usedRepr, Ends()`next, c`next, c`place
      ensures Valid()
      ensures used == old(used) + [c] && pieces == old(pieces) + [p]
    {
      hide *;
      ValidParts();
      DetachedParts(c);
      LinkLast(c);
      pieces := pieces + [p];
      usedRepr := usedRepr + c.Repr();
      NowSeparate();
      NowValid();
    }

    method UnlinkFirst() returns (c: Chunk)
      requires Chained() && used != []
      modifies `first, `last, `used, `base
      ensures Chained() && c == old(first) == old(used)[0] && used == old(used)[1..] && base == old(base) + 1
    {
      c := first;
      LinkedTail(c, used);
      first := c.next;
      if last == c {
        last := null;
      }
      used := used[1..];
      base := base + 1;
    }

    /** Takes the first chunk out of the used list. */
    method PopFirst() returns (c: Chunk)
      requires Valid() && used != []
      modifies `first, `last, `used, `pieces, `base, `usedRepr
      ensures Valid() && Detached(c) && c.Represents(old(pieces[0])) && c == old(first)
      ensures used == old(used)[1..] && pieces == old(pieces)[1..]
    {
      hide SpareValid, Chained;
      hide Chunk.Represents;
      c := UnlinkFirst();
      usedRepr := usedRepr - c.Repr();
      pieces := pieces[1..];
    }

    /** Gives a chunk back: cleaned to the idle list, or to the heap when four are idle already. */
    method PushUnused(c: Chunk)
      requires Valid() && Detached(c)
      modifies `idle, `idleChunkSize, `spare, `spareRepr, c, c.mem
      ensures Valid() && spare == if |old(spare)| < 4 then [c] + old(spare) else old(spare)
      ensures |old(spare)| < 4 ==> c.Clean()
    {
      hide UsedValid;
      if idleChunkSize < 4 {
        c.Reset();
        LinkIdle(c);
      }
    }

    /** Puts a copy of `mem` at the end of the queue. */
    method AppendBuffer(mem: Buffer)
      requires Valid() && mem.Valid() && mem.Repr() !! Repr && |mem.Contents()| + 1 <= MAX_ALIGNED
      modifies Repr
      ensures Valid() && fresh(Repr - old(Repr))
      ensures pieces == old(pieces) + [Mem(old(mem.Contents()), 0)]
    {
      ghost var p := Mem(mem.Contents(), 0);
      var c := NewMem(mem);
      ValidLast();
      hide UsedValid, SpareValid, Chunk.Represents;
      AppendChunk(c, p);
    }

    /** A memory chunk, in no list yet, with a copy of `mem`. */
    method NewMem(mem: Buffer) returns (c: Chunk)
      requires Valid() && mem.Valid() && mem.Repr() !! Repr && |mem.Contents()| + 1 <= MAX_ALIGNED
      modifies `idle, `idleChunkSize, `spare, `spareRepr, `Repr, spareRepr
      ensures Valid() && fresh(Repr - old(Repr)) && Detached(c) && c.Represents(Mem(old(mem.Contents()), 0))
    {
      hide UsedValid, SpareValid, Chunk.Represents;
      c := GetUnused();
      FillMem(c, mem);
    }

    /** Makes a detached clean chunk a memory chunk with the bytes of `mem`. */
    method FillMem(c: Chunk, mem: Buffer)
      requires Valid() && Detached(c) && c.Clean() && c.mem.Valid()
      requires mem.Valid() && mem.Repr() !! Repr && |mem.Contents()| + 1 <= MAX_ALIGNED
      modifies `Repr, c, c.mem
      ensures Valid() && fresh(Repr - old(Repr)) && Detached(c) && c.Represents(Mem(old(mem.Contents()), 0))
    {
      hide UsedValid, SpareValid;
      c.chunkType := ChunkMem;
      c.mem.CopyBuffer(mem);
      Repr := Repr + c.Repr();
    }

    method LinkFirst(c: Chunk)
      requires Chained() && c !in used
      modifies `first, `last, `used, `base, c`next, c`place
      ensures Chained() && used == [c] + old(used) && base == old(base) - 1 && c.place == base
    {
      c.next := first;
      first := c;
      if last == null {
        last := c;
      }
      base := base - 1;
      c.place := base;
      used := [c] + used;
    }

    method PrependChunk(c: Chunk, ghost p: Piece)
      requires Valid() && Detached(c) && c.Represents(p)
      modifies `first, `last, `used, `pieces, `base, `usedRepr, c`next, c`place
      ensures Valid() && pieces == [p] + old(pieces)
    {
      hide SpareValid, Chained;
      hide Chunk.Represents;
      LinkFirst(c);
      pieces := [p] + pieces;
      usedRepr := usedRepr + c.Repr();
    }

    /** Puts a copy of `mem` in front of the queue. */
    method PrependBuffer(mem: Buffer)
      requires Valid() && mem.Valid() && mem.Repr() !! Repr && |mem.Contents()| + 1 <= MAX_ALIGNED
      modifies Repr
      ensures Valid() && fresh(Repr - old(Repr))
      ensures pieces == [Mem(old(mem.Contents()), 0)] + old(pieces)
    {
      hide UsedValid, SpareValid, Chunk.Represents;
      ghost var p := Mem(mem.Contents(), 0);
      var c := NewMem(mem);
      PrependChunk(c, p);
    }

    /** Puts `len` bytes of a file from `offset` at the end; an empty name or range adds nothing. */
    method AppendFile(filename: string, offset: Uint32, len: Uint32)
      requires Valid() && offset + len < TWO_TO_THE_32
      modifies Repr
      ensures Valid() && fresh(Repr - old(Repr))
      ensures pieces == old(pieces) + if filename == "" || len == 0 then [] else [File(filename, offset, len, 0)]
    {
      if |filename| == 0 || len == 0 {
        return;
      }
      var c := GetUnused();
      FillFile(c, filename, offset, len);
      AppendChunk(c, File(filename, offset, len, 0));
    }

    method FillFile(c: Chunk, filename: string, offset: Uint32, len: Uint32)
      requires Valid() && Detached(c) && c.Clean() && c.mem.Valid() && offset + len < TWO_TO_THE_32
      modifies c
      ensures Valid() && Detached(c) && c.Represents(File(filename, offset, len, 0))
    {
      hide UsedValid, SpareValid;
      c.chunkType := ChunkFile;
      c.sendFile := c.sendFile.(filename := filename, fileFd := -1, offset := offset, length := len);
    }

    /**
     The bytes of all chunks, sent ones included, in a 32-bit sum: `sent` is not looked at, and
     the sum may wrap.
     */
    method Length() returns (len: Uint32)
      requires Valid()
      ensures len == Wrap(FullTotal(pieces))
    {
      hide Valid, Chunk.Represents;
      len := 0;
      var c := first;
      ghost var i := 0;
      ValidEnds();
      while c != null
        invariant i <= |pieces| == |used|
        invariant c == if i < |used| then used[i] else null
        invariant len == Wrap(FullTotal(pieces[..i]))
        decreases |pieces| - i
      {
        ValidAt(i);
        var n := c.StoredLength(pieces[i]);
        assert pieces[..i + 1] == pieces[..i] + [pieces[i]];
        FullTotalConcat(pieces[..i], [pieces[i]]);
        len := Wrap(len + n);
        c := c.next;
        i := i + 1;
      }
      assert pieces[..i] == pieces;
    }

    /** Moves every chunk off the used list. */
    method Reset()
      requires Valid()
      modifies Repr
      ensures Valid() && Repr == old(Repr) && pieces == []
    {
      hide UsedValid, SpareValid, Chunk.Represents;
      while first != null
        invariant Valid() && Repr == old(Repr)
        decreases |pieces|
      {
        ValidEnds();
        var c := PopFirst();
        PushUnused(c);
      }
      ValidEnds();
    }

    /** Room for `n` bytes in the last chunk, which holds nothing yet. */
    method AllocLast(n: Uint32)
      requires Valid() && 0 < n <= MAX_ALIGNED
      requires pieces != [] && pieces[|pieces| - 1] == Mem([], 0) && last != null && last.mem.usedBytes == 0
      modifies `usedRepr, `Repr, last.mem
      ensures Valid() && fresh(Repr - old(Repr))
      ensures last.mem.usedBytes == 0 && last.mem.ptr != null
      ensures last.mem.size == if old(last.mem.size) >= n then old(last.mem.size) else AlignSize(n)
    {
      hide *;
      ValidParts();
      LastIsEmpty();
      AlignSizeFits(n);
      last.mem.AllocSize(n);
      last.HoldsNothing();
      usedRepr := usedRepr + {last.mem.ptr};
      Repr := Repr + {last.mem.ptr};
      NowSeparate();
      NowValid();
    }

    lemma LastIsEmpty()
      requires Valid() && pieces != [] && pieces[|pieces| - 1] == Mem([], 0) && last != null
      ensures last == used[|used| - 1] && last.mem in usedRepr && last.mem !in spareRepr && last.mem.Valid()
      ensures last.mem.ptr != null && last.mem.ptr in usedRepr && last.chunkType == ChunkMem && last.chunkOffset == 0
    {
    }

    /** An empty memory chunk with a block of at least `n` bytes at the end. */
    method AppendEmpty(n: Uint32)
      requires Valid() && 0 < n <= MAX_ALIGNED
      modifies Repr
      ensures Valid() && fresh(Repr - old(Repr)) && pieces == old(pieces) + [Mem([], 0)]
      ensures last != null && last.mem.usedBytes == 0 && last.chunkType == ChunkMem && last.mem.size == AlignSize(n)
    {
      hide UsedValid, SpareValid, Chunk.Represents;
      var c := GetUnused();
      c.chunkType := ChunkMem;
      c.mem.AllocSize(n);
      Repr := Repr + {c.mem.ptr};
      c.HoldsMem([], 0);
      ValidLast();
      AppendChunk(c, Mem([], 0));
      ValidLast();
    }

    /**
     No byte of the last block would be left behind `n` more bytes: they are a multiple of 64, and they
     go into a new block of their size, or into an empty one that is not longer.
     */
    ghost predicate FullBlock(n: nat)
      reads `last
      reads if last == null then {} else {last, last.mem}
    {
      && n % 64 == 0
      && (last == null || last.chunkType != ChunkMem ||
          if last.mem.usedBytes == 0 then last.mem.size <= n else last.mem.size - last.mem.usedBytes < n)
    }

    /** A place for `n` bytes in the last chunk, which is given a block when it is empty; null when it is too short. */
    method RoomInLast(n: Uint32) returns (block: array?<char>, at: nat)
      requires Valid() && 0 < n <= MAX_ALIGNED && last != null && last.chunkType == ChunkMem
      modifies `usedRepr, `Repr, last.mem
      ensures Valid() && fresh(Repr - old(Repr))
      ensures block == null <==> old(last.mem.usedBytes > 0 && last.mem.size - last.mem.usedBytes < n)
      ensures block != null ==> Tail(block, at) && at + n <= block.Length
      ensures block != null ==>
                (at + n == block.Length <==> n % 64 == 0 && old(last.mem.usedBytes == 0 && last.mem.size <= n))
    {
      hide *;
      MemTail();
      AlignSizeFits(n);
      if last.mem.IsEmpty() {
        AllocLast(n);
        MemTail();
      }
      if last.mem.RemainingBytes() >= n {
        block, at := last.mem.ptr, last.mem.StringLength();
      } else {
        block, at := null, 0;
      }
    }

    /**
     A place for `n` bytes at the end of the stream: `block[at..at + n]`. The state of the queue before
     says whether they leave a byte for the closing NUL.
     */
    method GetMemory(n: Uint32) returns (block: array?<char>, at: nat)
      requires Valid() && n <= MAX_ALIGNED
      modifies Repr
      ensures Valid() && fresh(Repr - old(Repr))
      ensures n == 0 ==> block == null && pieces == old(pieces)
      ensures n > 0 ==> pieces == old(pieces) || pieces == old(pieces) + [Mem([], 0)]
      ensures n > 0 ==> Tail(block, at) && at + n <= block.Length
      ensures n > 0 ==> (at + n == block.Length <==> old(FullBlock(n)))
    {
      hide *;
      at := 0;
      if n == 0 {
        block := null;
        return;
      }
      FullBlockIs(n);
      if last != null && last.chunkType == ChunkMem {
        MemTail();
        block, at := RoomInLast(n);
        if block != null {
          return;
        }
      }
      AppendEmpty(n);
      MemTail();
      AlignSizeFits(n);
      block, at := last.mem.ptr, last.mem.StringLength();
    }

    lemma FullBlockIs(n: nat)
      ensures FullBlock(n) <==>
                && n % 64 == 0
                && (last == null || last.chunkType != ChunkMem ||
                    if last.mem.usedBytes == 0 then last.mem.size <= n else last.mem.size - last.mem.usedBytes < n)
    {
    }

    /** The first bytes of a request fill their block exactly when they are a multiple of 64. */
    lemma FirstBlock(n: nat)
      requires Valid() && pieces == []
      ensures FullBlock(n) <==> n % 64 == 0
    {
      ValidLast();
    }

    lemma MemTail()
      requires Valid() && last != null && last.chunkType == ChunkMem
      ensures pieces != [] && last in Repr && last.mem in Repr && last.mem.Valid() && last.mem.Shape()
      ensures last.mem.usedBytes <= last.mem.size && last.mem.size % 64 == 0
      ensures last.mem.IsEmpty() <==> last.mem.usedBytes == 0
      ensures last.mem.StringLength() == if last.mem.usedBytes > 0 then last.mem.usedBytes - 1 else 0
      ensures last.mem.ptr == null ==> last.mem.size == 0
      ensures last.mem.ptr != null ==> last.mem.ptr.Length == last.mem.size
      ensures last.mem.ptr != null ==> Tail(last.mem.ptr, last.mem.StringLength())
      ensures last.mem.usedBytes == 0 ==> pieces[|pieces| - 1] == Mem([], 0)
    {
      ValidLast();
      ValidAt(|pieces| - 1);
    }

    /** The stored bytes of the last chunk end at `block[at]`. */
    ghost predicate Tail(block: array?<char>, at: nat)
      reads `last, `pieces, `Repr
      reads if last == null then {} else {last, last.mem}
      ensures Tail(block, at) ==> pieces != [] && block != null && block in Repr
    {
      && pieces != [] && last != null && last in Repr && last.mem in Repr && block != null && block in Repr
      && pieces[|pieces| - 1].Mem? && last.chunkType == ChunkMem
      && last.mem.Shape() && last.mem.ptr == block && at == last.mem.StringLength() == |pieces[|pieces| - 1].data|
    }

    /** As valid, but `data` was stored over the closing NUL of the last chunk and not committed. */
    ghost predicate Pending(block: array<char>, at: nat, data: seq<char>)
      reads this, Repr
      reads if last == null then {} else {last, last.mem}
    {
      && Separate() && SpareValid() && Tail(block, at) && UsedUpTo(|pieces| - 1)
      && last.chunkOffset == pieces[|pieces| - 1].sent <= at
      && at + |data| < block.Length
      && block[..at] == pieces[|pieces| - 1].data && block[at..at + |data|] == data
    }

    /** What storing behind the last bytes leaves alone: all chunks but the last hold their pieces in other blocks. */
    lemma BeforePending(block: array<char>, at: nat)
      requires Valid() && Tail(block, at)
      ensures Separate() && SpareValid() && Chained() && |pieces| == |used| && pieces != [] && block !in spareRepr
      ensures last == used[|used| - 1] && last.mem.ptr == block
      ensures last.chunkOffset == pieces[|pieces| - 1].sent <= at <= block.Length
      ensures block[..at] == pieces[|pieces| - 1].data
      ensures forall i | 0 <= i < |used| ::
                used[i] in usedRepr && used[i].mem in usedRepr && used[i].place == base + i &&
                    used[i].mem.owner == used[i]
      ensures forall i | 0 <= i < |used| && used[i].mem.ptr != null :: used[i].mem.ptr in usedRepr
      ensures forall i | 0 <= i < |used| - 1 :: used[i].Represents(pieces[i]) && used[i].mem.ptr != block
      ensures forall i, j | 0 <= i < j < |used| :: used[i].mem.ptr != null ==> used[i].mem.ptr != used[j].mem.ptr
    {
      ValidAt(|pieces| - 1);
    }

    lemma NowPending(block: array<char>, at: nat, data: seq<char>)
      requires Separate() && SpareValid() && Chained() && |pieces| == |used| && Tail(block, at)
      requires last.chunkOffset == pieces[|pieces| - 1].sent <= at && at + |data| < block.Length
      requires block[..at] == pieces[|pieces| - 1].data && block[at..at + |data|] == data
      requires forall i | 0 <= i < |used| ::
                 used[i] in usedRepr && used[i].mem in usedRepr && used[i].place == base + i &&
                     used[i].mem.owner == used[i]
      requires forall i | 0 <= i < |used| && used[i].mem.ptr != null :: used[i].mem.ptr in usedRepr
      requires forall i | 0 <= i < |used| - 1 :: used[i].Represents(pieces[i])
      requires forall i, j | 0 <= i < j < |used| :: used[i].mem.ptr != null ==> used[i].mem.ptr != used[j].mem.ptr
      ensures Pending(block, at, data)
    {
      hide SpareValid, Chained, Chunk.Represents;
    }

    /** What pending bytes say of the chunks: the last is the one they were stored in. */
    lemma PendingParts(block: array<char>, at: nat, data: seq<char>)
      requires Pending(block, at, data)
      ensures Separate() && SpareValid() && Chained() && |pieces| == |used| && pieces != [] && pieces[|pieces| - 1].Mem?
      ensures this in Repr && block in Repr && last.mem in Repr && last == used[|used| - 1] && last.mem.ptr == block
      ensures this !in spareRepr && block !in spareRepr && last.mem !in spareRepr && last.mem.Shape()
      ensures last.chunkType == ChunkMem
      ensures at == last.mem.StringLength() && block[..at + |data|] == pieces[|pieces| - 1].data + data
      ensures last.chunkOffset == pieces[|pieces| - 1].sent <= at && at + |data| < block.Length == last.mem.size
      ensures forall i | 0 <= i < |used| ::
                used[i] in usedRepr && used[i].mem in usedRepr && used[i].place == base + i &&
                    used[i].mem.owner == used[i]
      ensures forall i | 0 <= i < |used| && used[i].mem.ptr != null :: used[i].mem.ptr in usedRepr
      ensures forall i | 0 <= i < |used| - 1 ::
                used[i].Represents(pieces[i]) && used[i].mem != last.mem && used[i].mem.ptr != block
      ensures forall i, j | 0 <= i < j < |used| :: used[i].mem.ptr != null ==> used[i].mem.ptr != used[j].mem.ptr
    {
      hide SpareValid, Chunk.Represents;
      assert block[..at + |data|] == block[..at] + block[at..at + |data|];
    }

    /** Counts the stored bytes as part of the last chunk. */
    method Commit(length: Uint32, ghost block: array<char>, ghost at: nat, ghost data: seq<char>)
      requires Pending(block, at, data) && |data| == length > 0
      modifies Repr
      ensures Valid() && Repr == old(Repr)
      ensures var n := |old(pieces)| - 1;
              pieces == old(pieces)[n := old(pieces)[n].(data := old(pieces)[n].data + data)]
    {
      hide *;
      PendingParts(block, at, data);
      ghost var n, p := |pieces| - 1, pieces[|pieces| - 1];
      last.mem.Extend(length);
      last.HoldsMem(p.data + data, p.sent);
      pieces := pieces[n := p.(data := p.data + data)];
      NowValid();
    }

    /** Sent `n` more bytes of the first chunk. */
    method AdvanceFirst(n: Uint32)
      requires Valid() && first != null && pieces != [] && n <= pieces[0].RestLength()
      modifies `pieces, first`chunkOffset
      ensures Valid() && pieces == old(pieces)[0 := old(pieces)[0].Advance(n)]
    {
      hide *;
      ValidEnds();
      ValidParts();
      first.CanAdvance(pieces[0], n);
      first.chunkOffset := first.chunkOffset + n;
      first.Advanced(pieces[0], n);
      pieces := pieces[0 := pieces[0].Advance(n)];
      NowValid();
    }

    /** Opens the first chunk's file or moves its window; the range to send stays. */
    method SetSendFile(sf: SendFile)
      requires Valid() && first != null && first.chunkType == ChunkFile && sf.WindowValid()
      requires sf.filename == first.sendFile.filename
      requires sf.offset == first.sendFile.offset && sf.length == first.sendFile.length
      modifies first`sendFile
      ensures Valid() && first.sendFile == sf
    {
      assert first == used[0];
      hide SpareValid, Chained, Separate;
      first.sendFile := sf;
    }

    /** The rest of the first chunk, `n` bytes, is sent: the chunk leaves the queue and is recycled. */
    method RecycleFirst(n: Uint32)
      requires Valid() && first != null && pieces != [] && n == pieces[0].RestLength()
      modifies Repr
      ensures Valid() && Repr == old(Repr) && pieces == old(pieces)[1..]
    {
      hide *;
      ValidEnds();
      ghost var p := pieces[0];
      var c := PopFirst();
      DetachedParts(c);
      ValidParts();
      UseUp(c, n, p);
      DetachedParts(c);
      PushUnused(c);
    }

    /** Counts the rest of a detached chunk as sent. */
    method UseUp(c: Chunk, n: Uint32, ghost p: Piece)
      requires Valid() && Detached(c) && c.Represents(p) && n == p.RestLength()
      modifies c`chunkOffset
      ensures Valid() && Detached(c)
    {
      hide *;
      DetachedParts(c);
      ValidParts();
      c.CanAdvance(p, n);
      c.chunkOffset := c.chunkOffset + n;
      NowDetached(c);
      NowValid();
    }

    lemma NowDetached(c: Chunk)
      requires c.Repr() <= Repr && c.Repr() !! usedRepr && c.Repr() !! spareRepr
      requires this !in c.Repr() && c.mem.owner == c
      ensures Detached(c)
    {
    }

    /** Takes `len` bytes off the front of the stream and recycles every chunk this finishes. */
    method MarkWritten(len: Uint32) returns (left: Uint32)
      requires Valid()
      modifies Repr
      ensures Valid() && Repr == old(Repr)
      ensures pieces == Drop(old(pieces), len)
      ensures left == Max(len - Total(old(pieces)), 0)
    {
      hide UsedValid, SpareValid, Chunk.Represents;
      left := len;
      while first != null
        invariant Valid() && Repr == old(Repr)
        invariant Drop(pieces, left) == Drop(old(pieces), len)
        invariant Max(left - Total(pieces), 0) == Max(len - Total(old(pieces)), 0)
        decreases |pieces|
      {
        ValidEnds();
        var chunkLength := first.RemainingLength(pieces[0]);
        if left == 0 && chunkLength > 0 {
          break;
        }
        if left >= chunkLength {
          left := left - chunkLength;
          RecycleFirst(chunkLength);
        } else {
          AdvanceFirst(left);
          left := 0;
          break;
        }
      }
      ValidEnds();
    }

    /** Recycles the chunks at the front that have nothing left to send. */
    method RemoveFinished()
      requires Valid()
      modifies Repr
      ensures Valid() && Repr == old(Repr)
      ensures pieces == Drop(old(pieces), 0)
    {
      hide UsedValid, SpareValid, Chunk.Represents;
      while first != null
        invariant Valid() && Repr == old(Repr)
        invariant Drop(pieces, 0) == Drop(old(pieces), 0)
        decreases |pieces|
      {
        ValidEnds();
        var len := first.RemainingLength(pieces[0]);
        if len > 0 {
          break;
        }
        RecycleFirst(0);
      }
      ValidEnds();
    }
  }

  /**
   The 1024 bytes that a new connection asks for when the kernel tells of no more leave no byte for a NUL:
   the place that a new queue gives for them is all of its block.
   */
  method FirstReadFills() returns (q: ChunkQueue, block: array<char>, at: nat)
    ensures q.Valid() && q.pieces == [Mem([], 0)] && q.Tail(block, at) && at + 1024 == block.Length
  {
    hide *;
    q := new ChunkQueue();
    q.FirstBlock(1024);
    FitsAligned();
    var place;
    place, at := q.GetMemory(1024);
    block := place;
    assert [] + [Mem([], 0)] == [Mem([], 0)];
  }

  lemma FitsAligned()
    ensures 1024 <= MAX_ALIGNED
  {
  }
}
