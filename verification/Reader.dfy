/** Reading a request head: the socket read, the scan across chunks, and the copy of what it finds. */
module Readers {
  import opened Words
  import opened Buffers
  import opened ChunkQueues
  import opened Terminators
  import opened Sockets
  import opened Fragments

  /** The chunk met after `k` steps along the used list. */
  ghost function CellAt(q: ChunkQueue, k: nat): Chunk?
    reads q
  {
    if k < |q.used| then q.used[k] else null
  }

  datatype Match = Mismatch | Partial | Whole

  /** One chunk's part of the inner scan, with `matched` bytes of END seen before it. */
  method MatchChunk(mem: Buffer, from: nat, matched: nat) returns (r: Match, j: nat, m: nat)
    requires mem.Valid() && from <= |mem.Contents()| && matched < 4
    ensures j <= |mem.Contents()| && Agrees(mem.Contents(), from, matched, m)
    ensures r == Mismatch ==> m < 4 && j == from + m - matched < |mem.Contents()| && mem.Contents()[j] != END[m]
    ensures r == Partial ==> m < 4 && j == from + m - matched == |mem.Contents()|
    ensures r == Whole ==> m == 4 && j == from + 4 - matched
  {
    j, m := from, matched;
    var remaining := mem.StringLength();
    while j < remaining
      invariant j <= remaining && matched <= m < 4 && j == from + m - matched
      invariant Agrees(mem.Contents(), from, matched, m)
    {
      if mem.ptr[j] != END[m] {
        return Mismatch, j, m;
      }
      m := m + 1;
      if m >= 4 {
        return Whole, j + 1, m;
      }
      j := j + 1;
    }
    r := Partial;
  }

  /** Where the bytes of chunk `k` start in the text of the queue. */
  ghost function Start(q: ChunkQueue, k: nat): nat
    requires k <= |q.pieces|
    reads q
  {
    |Text(q.pieces[..k])|
  }

  /** Chunk `k` of a queue of memory chunks: its bytes, their place in the text, and the next chunk. */
  lemma TextChunk(q: ChunkQueue, k: nat)
    requires q.Valid() && AllMem(q.pieces) && k < |q.pieces|
    ensures |q.used| == |q.pieces| && q.used[k].mem.Valid() && q.used[k].mem.Contents() == q.pieces[k].data
    ensures q.used[k].mem.ptr != null && q.used[k] in q.Repr && q.used[k].mem in q.Repr && q.used[k].mem.ptr in q.Repr
    ensures q.used[k].next == CellAt(q, k + 1)
    ensures Start(q, k + 1) == Start(q, k) + |q.pieces[k].data| <= |Text(q.pieces)|
    ensures SitsAt(Text(q.pieces), Start(q, k), q.pieces[k].data)
  {
    q.ValidAt(k);
    TextAt(q.pieces, k);
  }

  /** One round of the inner scan: chunk `k` from byte `from` on, for a match that starts at `p`. */
  method MatchStep(q: ChunkQueue, c: Chunk, from: nat, matched: nat, ghost k: nat, ghost p: nat)
    returns (r: Match, j: nat, m: nat)
    requires q.Valid() && AllMem(q.pieces) && k < |q.pieces| && c == CellAt(q, k) && from <= |q.pieces[k].data|
    requires matched < 4 && MatchAt(Text(q.pieces), p, matched) && Start(q, k) + from == p + matched
    ensures r == Mismatch ==> !MatchAt(Text(q.pieces), p, 4)
    ensures r == Partial ==> m < 4 && MatchAt(Text(q.pieces), p, m) && Start(q, k + 1) == p + m
    ensures r == Whole ==> MatchAt(Text(q.pieces), p, 4) && j <= |q.pieces[k].data| && Start(q, k) + j == p + 4
  {
    TextChunk(q, k);
    hide ChunkQueue.Valid, Text, MatchAt, SitsAt, Agrees;
    r, j, m := MatchChunk(c.mem, from, matched);
    MatchGoesOn(Text(q.pieces), p, matched, m, Start(q, k), q.pieces[k].data, from);
    if r == Mismatch {
      MatchStops(Text(q.pieces), p, m, Start(q, k), q.pieces[k].data, j);
    }
  }

  /**
   The inner scan: the bytes from `index` of chunk `c` on, over as many chunks as it takes,
   are compared with the rest of END. A mismatch or the end of the queue gives up.
   */
  method MatchRest(q: ChunkQueue, c: Chunk, index: nat, ghost k: nat)
    returns (end: Chunk?, endIndex: nat, ghost endK: nat)
    requires q.Valid() && AllMem(q.pieces)
    requires k < |q.pieces| && c == CellAt(q, k) && index < |q.pieces[k].data| && q.pieces[k].data[index] == '\r'
    ensures end == null <==> !MatchAt(Text(q.pieces), Start(q, k) + index, 4)
    ensures end != null ==>
              && endK < |q.pieces| && end == CellAt(q, endK) && endIndex <= |q.pieces[endK].data|
              && Start(q, endK) + endIndex == Start(q, k) + index + 4
  {
    hide ChunkQueue.Valid, Text, MatchAt, SitsAt, Start;
    ghost var p := Start(q, k) + index;
    MatchBegins(q, k, index);
    var cc: Chunk? := c;
    var j: nat, matchIndex: nat, r := index + 1, 1, Partial;
    endK, end, endIndex := k, null, 0;
    while cc != null && r == Partial
      invariant endK <= |q.pieces| == |q.used|
      invariant r == Partial ==>
          && cc == CellAt(q, endK) && 1 <= matchIndex < 4 && MatchAt(Text(q.pieces), p, matchIndex)
          && Start(q, endK) + j == p + matchIndex
          && (if endK < |q.pieces| then j <= |q.pieces[endK].data| else j == 0)
      invariant r == Mismatch ==> end == null && !MatchAt(Text(q.pieces), p, 4)
      invariant r == Partial ==> end == null
      invariant r == Whole ==>
          && MatchAt(Text(q.pieces), p, 4) && endK < |q.pieces| && end == CellAt(q, endK) != null
          && endIndex <= |q.pieces[endK].data| && Start(q, endK) + endIndex == p + 4
      decreases r == Partial, |q.pieces| - endK
    {
      TextChunk(q, endK);
      r, j, matchIndex := MatchStep(q, cc, j, matchIndex, endK, p);
      if r == Whole {
        end, endIndex := cc, j;
      } else if r == Partial {
        cc := cc.next;
        endK := endK + 1;
        j := 0;
      }
    }
    if r == Partial {
      TextEnd(q);
      MatchEnds(Text(q.pieces), p, matchIndex);
    }
  }

  lemma MatchBegins(q: ChunkQueue, k: nat, index: nat)
    requires q.Valid() && AllMem(q.pieces)
    requires k < |q.pieces| && index < |q.pieces[k].data| && q.pieces[k].data[index] == '\r'
    ensures |q.used| == |q.pieces| && MatchAt(Text(q.pieces), Start(q, k) + index, 1)
  {
    hide ChunkQueue.Valid, Text, Start, SitsAt, MatchAt;
    TextChunk(q, k);
    MatchStarts(Text(q.pieces), Start(q, k), q.pieces[k].data, index);
  }

  lemma TextEnd(q: ChunkQueue)
    ensures Start(q, |q.pieces|) == |Text(q.pieces)|
  {
    assert q.pieces[..|q.pieces|] == q.pieces;
  }

  /** The outer scan's pass over one chunk: every CR in it may begin an END. */
  method ScanChunk(q: ChunkQueue, c: Chunk, ghost k: nat)
    returns (end: Chunk?, endIndex: nat, ghost endK: nat)
    requires q.Valid() && AllMem(q.pieces)
    requires k < |q.pieces| && c == CellAt(q, k) && NoMatchBefore(Text(q.pieces), Start(q, k))
    ensures end == null ==> NoMatchBefore(Text(q.pieces), Start(q, k + 1))
    ensures end != null ==>
              && endK < |q.pieces| && end == CellAt(q, endK) && endIndex <= |q.pieces[endK].data|
              && FirstEnd(Text(q.pieces), Start(q, endK) + endIndex)
  {
    hide ChunkQueue.Valid, Text, Start, MatchAt, SitsAt, FirstEnd;
    end, endIndex, endK := null, 0, k;
    TextChunk(q, k);
    var index := 0;
    var length := c.mem.StringLength();
    while index < length && end == null
      invariant index <= length
      invariant end == null ==> NoMatchBefore(Text(q.pieces), Start(q, k) + index)
      invariant end != null ==>
          && endK < |q.pieces| && end == CellAt(q, endK) && endIndex <= |q.pieces[endK].data|
          && FirstEnd(Text(q.pieces), Start(q, endK) + endIndex)
    {
      ghost var p := Start(q, k) + index;
      MatchStarts(Text(q.pieces), Start(q, k), q.pieces[k].data, index);
      if c.mem.ptr[index] == '\r' {
        end, endIndex, endK := MatchRest(q, c, index, k);
        if end != null {
          ScanFinds(Text(q.pieces), p);
        }
      } else {
        MatchShrinks(Text(q.pieces), p);
      }
      index := index + 1;
    }
  }

  /**
   Looks for the first END of all bytes read so far, over all chunks; the END may be spread
   over several chunks, and chunks may be empty.
   */
  method FindEnd(q: ChunkQueue) returns (end: Chunk?, endIndex: nat, ghost endK: nat)
    requires q.Valid() && AllMem(q.pieces)
    ensures end == null <==> NoEnd(Text(q.pieces))
    ensures end != null ==>
              && endK < |q.pieces| && end == CellAt(q, endK) && endIndex <= |q.pieces[endK].data|
              && FirstEnd(Text(q.pieces), Start(q, endK) + endIndex)
  {
    hide ChunkQueue.Valid, Text, FirstEnd;
    end, endIndex, endK := null, 0, 0;
    var c := q.first;
    ghost var k := 0;
    q.ValidEnds();
    TextStart(q);
    while c != null && end == null
      invariant k <= |q.pieces| == |q.used|
      invariant end == null ==> c == CellAt(q, k) && NoMatchBefore(Text(q.pieces), Start(q, k))
      invariant end != null ==>
          && endK < |q.pieces| && end == CellAt(q, endK) && endIndex <= |q.pieces[endK].data|
          && FirstEnd(Text(q.pieces), Start(q, endK) + endIndex)
      decreases |q.pieces| - k
    {
      end, endIndex, endK := ScanChunk(q, c, k);
      TextChunk(q, k);
      c := c.next;
      k := k + 1;
    }
    if end == null {
      TextEnd(q);
      ScanFindsNothing(Text(q.pieces), Start(q, k));
    } else {
      FirstEndIsEnd(Text(q.pieces), Start(q, endK) + endIndex);
    }
  }

  lemma TextStart(q: ChunkQueue)
    ensures Start(q, 0) == 0
  {
  }

  /** Appends the first `n` bytes of chunk `k`. */
  method CopyPart(q: ChunkQueue, c: Chunk, ghost k: nat, n: nat, content: Buffer)
    requires q.Valid() && AllMem(q.pieces) && |Text(q.pieces)| + 2 <= MAX_ALIGNED
    requires k < |q.pieces| && c == CellAt(q, k) && n <= |q.pieces[k].data| && Start(q, k) <= |Text(q.pieces)|
    requires content.Valid() && content.Repr() !! q.Repr
    requires content.Contents() == Text(q.pieces)[..Start(q, k)]
    modifies content.Repr()
    ensures content.Valid() && fresh(content.Repr() - old(content.Repr())) && content.owner == old(content.owner)
    ensures Start(q, k) + n <= |Text(q.pieces)| && content.Contents() == Text(q.pieces)[..Start(q, k) + n]
  {
    hide ChunkQueue.Valid, Text, Start, SitsAt;
    TextChunk(q, k);
    TakeInto(Text(q.pieces), Start(q, k), q.pieces[k].data, n);
    assert c.mem.ptr[..n] == q.pieces[k].data[..n];
    content.AppendStringLength(c.mem.ptr[..n]);
  }

  /** Appends all of chunk `k`. */
  method CopyChunk(q: ChunkQueue, c: Chunk, ghost k: nat, content: Buffer) returns (next: Chunk?)
    requires q.Valid() && AllMem(q.pieces) && |Text(q.pieces)| + 2 <= MAX_ALIGNED
    requires k < |q.pieces| && c == CellAt(q, k) && Start(q, k) <= |Text(q.pieces)|
    requires content.Valid() && content.Repr() !! q.Repr
    requires content.Contents() == Text(q.pieces)[..Start(q, k)]
    modifies content.Repr()
    ensures content.Valid() && fresh(content.Repr() - old(content.Repr())) && content.owner == old(content.owner)
    ensures Start(q, k + 1) <= |Text(q.pieces)| && content.Contents() == Text(q.pieces)[..Start(q, k + 1)]
    ensures next == CellAt(q, k + 1)
  {
    hide ChunkQueue.Valid, Text, Start, SitsAt, AllMem;
    TextChunk(q, k);
    CopyPart(q, c, k, c.mem.StringLength(), content);
    next := c.next;
  }

  /** Copies the bytes up to position `endIndex` of chunk `end` out of the queue. */
  method CopyHead(q: ChunkQueue, end: Chunk, endIndex: nat, ghost endK: nat, content: Buffer)
    requires q.Valid() && AllMem(q.pieces) && |Text(q.pieces)| + 2 <= MAX_ALIGNED
    requires endK < |q.pieces| && end == CellAt(q, endK) && endIndex <= |q.pieces[endK].data|
    requires content.Valid() && content.usedBytes == 0 && content.Repr() !! q.Repr
    modifies content.Repr()
    ensures content.Valid() && fresh(content.Repr() - old(content.Repr())) && content.owner == old(content.owner)
    ensures Start(q, endK) + endIndex <= |Text(q.pieces)|
    ensures content.Contents() == Text(q.pieces)[..Start(q, endK) + endIndex]
  {
    hide ChunkQueue.Valid, Text, Start, SitsAt, AllMem;
    var c := q.first;
    ghost var k := 0;
    q.ValidEnds();
    TextStart(q);
    TextChunk(q, endK);
    q.ValidDistinct(0, endK);
    while c != end
      invariant k <= endK && c == CellAt(q, k) && |q.used| == |q.pieces|
      invariant c == end <==> k == endK
      invariant content.Valid() && fresh(content.Repr() - old(content.Repr())) && content.owner == old(content.owner)
      invariant Start(q, k) <= |Text(q.pieces)| && content.Contents() == Text(q.pieces)[..Start(q, k)]
      decreases endK - k
    {
      c := CopyChunk(q, c, k, content);
      k := k + 1;
      q.ValidDistinct(k, endK);
    }
    CopyPart(q, c, endK, endIndex, content);
  }

  /** read() into the place the queue gave: what was stored is pending, and else nothing changed. */
  method ReadInto(q: ChunkQueue, sock: Socket, block: array<char>, at: nat, room: nat, ghost tight: bool,
                  ghost soFar: seq<char>)
    returns (n: int, errno: Errno)
    requires q.Valid() && q.Tail(block, at) && sock !in q.Repr
    requires room > 0 && at + room <= block.Length && Answerable(soFar)
    requires tight <==> at + room == block.Length
    modifies sock, block
    ensures -1 <= n <= room && (tight ==> n < room) && sock.accepted == old(sock.accepted)
    ensures sock.answers == old(sock.answers) + [ReadGave(room, n, errno)]
    ensures n <= 0 ==> q.Valid() && sock.received == old(sock.received)
    ensures n > 0 ==>
              && at + n <= block.Length && q.Pending(block, at, block[at..at + n])
              && sock.received == old(sock.received) + block[at..at + n] && Answerable(soFar + block[at..at + n])
  {
    hide *;
    q.BeforePending(block, at);
    n, errno := sock.Read(block, at, room, tight, soFar);
    if n > 0 {
      q.NowPending(block, at, block[at..at + n]);
    }
  }

  /**
   The answers of a socket read: the socket failed, is not ready or was interrupted, was closed, or
   gave `n` bytes, which may fill the room there was.
   */
  datatype ReadResult = Failed | NotReady(interrupted: bool) | AtEnd | Got(n: nat, full: bool)

  /**
   Reads what the kernel holds, at least 1024 bytes of room, onto the end of the queue. The
   socket stays readable when the read was interrupted or filled the room. It is assumed not to fill
   the room exactly when the queue before has no block with a byte more.
   */
  method HandleRead(q: ChunkQueue, sock: Socket, ghost soFar: seq<char>)
    returns (r: ReadResult, readable: bool, ghost data: seq<char>, ghost held: int, ghost answer: Answer)
    requires q.Valid() && AllMem(q.pieces) && sock !in q.Repr && Answerable(soFar)
    requires |Text(q.pieces)| + 0x8000_0000 + 2 <= MAX_ALIGNED
    modifies q.Repr, sock
    ensures q.Valid() && fresh(q.Repr - old(q.Repr)) && AllMem(q.pieces)
    ensures Text(q.pieces) == old(Text(q.pieces)) + data && sock.received == old(sock.received) + data
    ensures sock.accepted == old(sock.accepted) && Answerable(soFar + data)
    ensures if r.Got? then |data| == r.n && 0 < r.n < 0x8000_0000 else data == []
    ensures sock.answers == old(sock.answers) + [HoldsGave(held), answer]
    ensures answer.ReadGave? && answer.room == if held < 1024 then 1024 else held
    ensures r == if answer.n > 0 then Got(answer.n, answer.n == answer.room)
                 else if answer.n == 0 then AtEnd
                 else if answer.errno == Interrupted then NotReady(true)
                 else if answer.errno == WouldBlock then NotReady(false)
                 else Failed
    ensures readable == (answer.n == answer.room || (answer.n < 0 && answer.errno == Interrupted))
    ensures answer.n <= answer.room && (old(q.FullBlock(answer.room)) ==> answer.n < answer.room)
  {
    hide ChunkQueue.Valid, Text, Answerable, ChunkQueue.Pending, ChunkQueue.Tail, ChunkQueue.FullBlock;
    var ok, need := sock.Pending();
    held := if ok then need else 0;
    if !ok || need == 0 || need < 1024 {
      need := 1024;
    }
    ghost var before, tight := q.pieces, q.FullBlock(need);
    var block, at := q.GetMemory(need);
    TextOfEmpty(before);
    var n, errno := ReadInto(q, sock, block, at, need, tight, soFar);
    answer := ReadGave(need, n, errno);
    data := [];
    readable := false;
    assert Text(before) + [] == Text(before) && soFar + [] == soFar && sock.received + [] == sock.received;
    if n < 0 {
      readable := errno == Interrupted;
      r := if errno == Interrupted || errno == WouldBlock then NotReady(readable) else Failed;
    } else if n == 0 {
      r := AtEnd;
    } else {
      data := block[at..at + n];
      TextGrows(q.pieces, data);
      q.Commit(n, block, at, data);
      readable := n == need;
      r := Got(n, readable);
    }
  }

  /**
   What to do after a successful read. A complete request head goes to `content`; without one the
   queue may hold at most `max` bytes.
   */
  method JudgeRead(q: ChunkQueue, max: Uint32, content: Buffer) returns (v: Verdict)
    requires q.Valid() && AllMem(q.pieces) && |Text(q.pieces)| + 2 <= MAX_ALIGNED
    requires content.Valid() && content.Repr() !! q.Repr
    modifies content.Repr()
    ensures content.Valid() && fresh(content.Repr() - old(content.Repr())) && content.owner == old(content.owner)
    ensures v == Judge(Text(q.pieces), max)
    ensures v.Complete? ==> content.Contents() == v.head
    ensures !v.Complete? ==> content.Contents() == old(content.Contents())
  {
    hide ChunkQueue.Valid, Text, Judge, FirstEnd;
    var end, endIndex, endK := FindEnd(q);
    if end != null {
      JudgeComplete(Text(q.pieces), max, Start(q, endK) + endIndex);
      content.Reset();
      CopyHead(q, end, endIndex, endK, content);
      var head := content.ToString();
      v := Complete(head);
    } else {
      JudgeOpen(Text(q.pieces), max);
      FullTotalIsText(q.pieces);
      var length := q.Length();
      v := if length > max then TooLong else Waiting;
    }
  }
}
