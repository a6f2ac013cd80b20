/** Sending the queue: gathered memory chunks, the file window, and the loop over both. */
module Writers {
  import opened Words
  import opened Pieces
  import opened ChunkQueues
  import opened Sockets
  import opened Windows

  const MAX_CHUNKS := 16

  /** All was sent, part of it was, nothing can be sent now, or the socket is broken. */
  datatype WriteResult = Done | Partly | Again | Broken

  /** The number of pieces with bytes left. */
  function Filled(ps: seq<Piece>): nat {
    if ps == [] then 0 else Filled(ps[..|ps| - 1]) + if ps[|ps| - 1].RestLength() > 0 then 1 else 0
  }

  lemma OneMorePiece(ps: seq<Piece>, k: nat)
    requires k < |ps|
    ensures Filled(ps[..k + 1]) == Filled(ps[..k]) + if ps[k].RestLength() > 0 then 1 else 0
    ensures ps[..k + 1] == ps[..k] + [ps[k]]
  {
    assert ps[..k + 1][..k] == ps[..k];
  }

  /**
   The bytes gathered for one writev(): those of the memory pieces `ps[..k]`, up to the first file, or of 16
   that have bytes left.
   */
  method Gather(q: ChunkQueue, ghost files: Files)
    returns (sendBytes: Uint32, count: nat, ghost data: seq<char>, ghost k: nat)
    requires q.Valid()
    ensures k <= |q.pieces| && data == Stream(files, q.pieces[..k]) && count == Filled(q.pieces[..k]) <= MAX_CHUNKS
    ensures sendBytes == Wrap(|data|)
    ensures forall i | 0 <= i < k :: q.pieces[i].Mem?
    ensures count == 0 <==> data == []
    ensures q.pieces != [] && q.pieces[0].Mem? ==> k > 0
    ensures k == |q.pieces| || q.pieces[k].File? || count == MAX_CHUNKS
  {
    hide ChunkQueue.Valid, Chunk.Represents, Stream, Wrap, Piece.Rest, Piece.RestLength, Filled;
    StreamOfNone(files, q.pieces);
    NoneFilled(q.pieces);
    WrapOfNone();
    sendBytes, count, data, k := 0, 0, [], 0;
    var c := q.first;
    q.ValidEnds();
    if c != null {
      c.KindOf(q.pieces[0]);
    }
    while c != null && c.chunkType == ChunkMem && count < MAX_CHUNKS
      invariant k <= |q.pieces| == |q.used| && c == (if k < |q.used| then q.used[k] else null)
      invariant data == Stream(files, q.pieces[..k]) && count <= MAX_CHUNKS && sendBytes == Wrap(|data|)
      invariant count == Filled(q.pieces[..k])
      invariant count == 0 <==> data == []
      invariant forall i | 0 <= i < k :: q.pieces[i].Mem?
      invariant k == 0 ==> c == q.first
      invariant c != null ==> (c.chunkType == ChunkMem <==> q.pieces[k].Mem?)
      decreases |q.pieces| - k
    {
      q.ValidAt(k);
      c.KindOf(q.pieces[k]);
      var chunkLen := c.RemainingLength(q.pieces[k]);
      OneMorePiece(q.pieces, k);
      StreamSnoc(files, q.pieces[..k], q.pieces[k]);
      if chunkLen > 0 {
        data := data + q.pieces[k].Rest(files);
        WrapAdd(|data| - chunkLen, chunkLen);
        sendBytes := Wrap(sendBytes + chunkLen);
        count := count + 1;
      }
      c := c.next;
      k := k + 1;
      if c != null {
        q.ValidAt(k);
        c.KindOf(q.pieces[k]);
      }
    }
  }

  lemma WrapAdd(a: nat, b: nat)
    ensures Wrap(Wrap(a) + b) == Wrap(a + b)
  {
  }

  lemma WrapOfNone()
    ensures Wrap(0) == 0
  {
  }

  lemma NoneFilled(ps: seq<Piece>)
    ensures Filled(ps[..0]) == 0
  {
  }

  lemma StreamOfNone(files: Files, ps: seq<Piece>)
    ensures Stream(files, ps[..0]) == []
  {
  }

  lemma StreamSnoc(files: Files, ps: seq<Piece>, p: Piece)
    ensures Stream(files, ps + [p]) == Stream(files, ps) + p.Rest(files)
  {
    StreamCons(files, p, []);
    StreamConcat(files, ps, [p]);
  }

  /**
   `n` bytes of the stream went from the queue to the socket, and the rest is still queued: what
   every sending step does, whatever the socket answers.
   */
  twostate predicate Sent(q: ChunkQueue, sock: Socket, files: Files, n: nat)
    reads q, sock
  {
    && n <= Total(old(q.pieces))
    && n <= |Stream(files, old(q.pieces))|
    && sock.accepted == old(sock.accepted) + Stream(files, old(q.pieces))[..n]
    && sock.received == old(sock.received)
    && (q.pieces == Drop(old(q.pieces), n) || (n == 0 && q.pieces == old(q.pieces)))
  }

  /** The result follows from the last answer, and nothing is done before bytes went. */
  predicate Follows(r: WriteResult, last: Answer) {
    && (r == Done ==> last.Took())
    && r == if last.Breaks() then Broken
            else if last.WriteGave? && 0 <= last.n < last.asked then Partly
            else if last.Stops() then Again
            else Done
  }

  /** The same, answer by answer. */
  lemma FollowsIs(r: WriteResult, last: Answer)
    requires Follows(r, last)
    ensures r in {Done, Partly} <==> last.Took()
    ensures r == Broken <==> last.WriteGave? && last.n < 0 && (last.gathered || last.errno == Other)
    ensures r == Again <==>
              || (last.WriteGave? && last.n < 0 && !last.gathered && last.errno != Other)
              || (last.OpenGave? && last.fd < 0) || (last.MapGave? && !last.mapped)
    ensures r == Partly <==> last.WriteGave? && 0 <= last.n < last.asked
  {
  }

  /**
   Sends the first `k` chunks, which are of memory, with one writev(), unless there is nothing in them:
   `answer` is what it gave. Any failure of it counts as fatal.
   */
  method WritevMemChunk(q: ChunkQueue, sock: Socket, ghost files: Files)
    returns (r: WriteResult, ghost n: nat, ghost answer: Option<Answer>, ghost k: nat)
    requires q.Valid() && q.pieces != [] && q.pieces[0].Mem? && sock !in q.Repr
    requires MemTotal(q.pieces) < TWO_TO_THE_32
    modifies q.Repr, sock
    ensures q.Valid() && q.Repr == old(q.Repr) && Sent(q, sock, files, n)
    ensures r == Done ==> n > 0 || |q.pieces| < |old(q.pieces)|
    ensures r != Done ==> n < Total(old(q.pieces)) && r != Again
    ensures sock.answers == old(sock.answers) + if answer.Some? then [answer.value] else []
    ensures answer.Some? ==> answer.value.WriteGave? && answer.value.gathered
    ensures answer.Some? ==> n == Max(answer.value.n, 0) && answer.value.n <= answer.value.asked
    ensures r == if answer.None? || answer.value.n == answer.value.asked then Done
                 else if answer.value.n < 0 then Broken
                 else Partly
    ensures answer.Some? ==> Follows(r, answer.value) && answer.value.Sends()
    ensures answer.None? ==> n == 0 && q.pieces == Drop(old(q.pieces), 0) && |q.pieces| < |old(q.pieces)|
    ensures 0 < k <= |old(q.pieces)| && (answer.None? <==> Filled(old(q.pieces)[..k]) == 0)
    ensures forall i | 0 <= i < k :: old(q.pieces)[i].Mem?
    ensures k == |old(q.pieces)| || old(q.pieces)[k].File? || Filled(old(q.pieces)[..k]) == MAX_CHUNKS
    ensures answer.Some? ==> answer.value.asked == Total(old(q.pieces)[..k])
  {
    hide ChunkQueue.Valid, Chunk.Represents, Stream, MemTotal, Filled;
    ghost var ps := q.pieces;
    var sendBytes, count;
    ghost var data;
    sendBytes, count, data, k := Gather(q, files);
    StreamLength(files, ps);
    StreamTake(files, ps, k);
    n, answer := 0, None;
    if count == 0 {
      q.RemoveFinished();
      DropShrinks(files, ps, k);
      r := Done;
      return;
    }
    MemPrefixTotal(ps, k);
    StreamLength(files, ps[..k]);
    var written, errno := sock.Write(true, sendBytes, data);
    answer := Some(WriteGave(true, sendBytes, written, errno));
    if written < 0 {
      r := Broken;
      return;
    }
    if written > 0 {
      n := written;
      var left := q.MarkWritten(written);
      assert left == 0;
    }
    assert data[..n] == Stream(files, ps)[..n];
    r := if written == sendBytes then Done else Partly;
  }

  /** Memory pieces without bytes left are dropped. */
  lemma DropShrinks(files: Files, ps: seq<Piece>, k: nat)
    requires 0 < k <= |ps| && Stream(files, ps[..k]) == []
    ensures |Drop(ps, 0)| < |ps|
  {
    assert ps[0].Rest(files) == [];
    DropConsumes(ps[1..], 0);
  }

  /** A slice of the mapped window is the front of the stream. */
  lemma WindowIsFront(files: Files, ps: seq<Piece>, n: nat)
    requires ps != [] && ps[0].File? && n <= ps[0].RestLength()
    ensures FileBytes(files, ps[0].name, ps[0].offset + ps[0].sent, n) == Stream(files, ps)[..n]
    ensures n <= Total(ps) == |Stream(files, ps)|
  {
    StreamLength(files, ps);
    FileBytesSplit(files, ps[0].name, ps[0].offset + ps[0].sent, ps[0].RestLength(), n);
  }

  /**
   Opens the first chunk's file and makes its window cover the first byte to send; false when the
   kernel refuses one of them.
   */
  method MoveWindow(q: ChunkQueue, sock: Socket, offset: Uint32)
    returns (ok: bool, ghost open: Option<int>, ghost mapped: Option<bool>)
    requires q.Valid() && q.pieces != [] && q.pieces[0].File? && q.first != null
    requires q.first.Represents(q.pieces[0]) && sock !in q.Repr
    requires offset == q.pieces[0].offset + q.pieces[0].sent < q.pieces[0].offset + q.pieces[0].length
    modifies q.first`sendFile, sock`answers
    ensures q.Valid()
    ensures ok ==> WindowReady(q, offset)
    ensures sock.answers == old(sock.answers) + (if open.Some? then [OpenGave(open.value)] else [])
                            + (if mapped.Some? then [MapGave(mapped.value)] else [])
    ensures open.Some? <==> old(q.first.sendFile.fileFd) < 0
    ensures open.Some? && open.value < 0 ==> mapped.None?
    ensures ok <==> !(open.Some? && open.value < 0) && !(mapped.Some? && !mapped.value)
    ensures mapped.Some? <==> !(open.Some? && open.value < 0) && NeedsRemap(old(q.first.sendFile), offset)
    ensures ok && mapped.Some? ==>
              && q.first.sendFile.mmapOffset == offset / PAGE_SIZE * PAGE_SIZE
              && q.first.sendFile.mmapLen ==
                   WindowLength(q.first.sendFile.mmapOffset, q.pieces[0].offset + q.pieces[0].length)
  {
    hide ChunkQueue.Valid, Chunk.Represents;
    open, mapped := None, None;
    q.first.FileOf(q.pieces[0]);
    var sf := q.first.sendFile;
    if sf.fileFd < 0 {
      var fd := sock.Open();
      open := Some(fd);
      sf := sf.(fileFd := fd);
      q.SetSendFile(sf);
      if fd < 0 {
        return false, open, None;
      }
    }
    if NeedsRemap(sf, offset) {
      var fileEnd: Uint32 := sf.offset + sf.length;
      RemapCovers(offset, fileEnd);
      var start := WindowStart(offset);
      sf := sf.(mmapStart := None, mmapOffset := start, mmapLen := WindowLength(start, fileEnd));
      ok := sock.Mmap();
      mapped := Some(ok);
      if ok {
        sf := sf.(mmapStart := Some(Mapping(sf.filename, sf.mmapOffset, sf.mmapLen)));
      }
      q.SetSendFile(sf);
    } else {
      KeptWindowCovers(sf, offset);
      ok := true;
    }
  }

  /** The window of the first chunk is mapped from its file and covers the next byte to send. */
  ghost predicate WindowReady(q: ChunkQueue, offset: nat)
    reads q, q.first
  {
    && q.first != null && q.pieces != [] && q.pieces[0].File? && offset == q.pieces[0].offset + q.pieces[0].sent
    && var sf := q.first.sendFile;
       && sf.mmapStart == Some(Mapping(q.pieces[0].name, sf.mmapOffset, sf.mmapLen))
       && sf.mmapOffset % PAGE_SIZE == 0 && sf.mmapOffset <= offset < sf.mmapOffset + sf.mmapLen
  }

  /** Writes the next bytes of the file, at most `sendLen` and at most what the window holds. */
  method WriteWindow(q: ChunkQueue, sock: Socket, offset: Uint32, sendLen: Uint32, ghost files: Files)
    returns (r: WriteResult, ghost n: nat, ghost answer: Answer)
    requires q.Valid() && sock !in q.Repr && WindowReady(q, offset) && sendLen == q.pieces[0].RestLength() > 0
    modifies q.Repr, sock
    ensures q.Valid() && q.Repr == old(q.Repr) && Sent(q, sock, files, n)
    ensures r == Done ==> n > 0
    ensures r != Done ==> n < Total(old(q.pieces)) && (r != Partly ==> n == 0)
    ensures sock.answers == old(sock.answers) + [answer] && answer.WriteGave? && !answer.gathered
    ensures n == Max(answer.n, 0) && answer.n <= answer.asked
    ensures answer.asked == var sf := old(q.first.sendFile); Min(sendLen, sf.mmapOffset + sf.mmapLen - offset)
    ensures r == if answer.n == answer.asked then Done
                 else if answer.n >= 0 then Partly
                 else if answer.errno == Interrupted || answer.errno == WouldBlock then Again
                 else Broken
  {
    hide ChunkQueue.Valid, Stream, FileBytes, Total;
    ghost var ps := q.pieces;
    var window := q.first.sendFile;
    var available: Uint32 := window.mmapLen - (offset - window.mmapOffset);
    var count := if sendLen > available then available else sendLen;
    WindowIsFront(files, ps, count);
    ghost var m := window.mmapStart.value;
    ghost var data := FileBytes(files, m.name, m.offset + (offset - window.mmapOffset), count);
    var written, errno := sock.Write(false, count, data);
    answer := WriteGave(false, count, written, errno);
    n := if written > 0 then written else 0;
    if written < 0 {
      r := if errno == Interrupted || errno == WouldBlock then Again else Broken;
    } else {
      if written > 0 {
        var left := q.MarkWritten(written);
      }
      r := if written == count then Done else Partly;
    }
  }

  /**
   Sends what the file window holds. A file chunk in the queue has bytes left, so the chunk that
   the window finds is never used up already.
   */
  method SendFileChunk(q: ChunkQueue, sock: Socket, ghost files: Files) returns (r: WriteResult, ghost n: nat)
    requires q.Valid() && q.pieces != [] && q.pieces[0].File? && sock !in q.Repr && FilesOpen(q.pieces)
    modifies q.Repr, sock
    ensures q.Valid() && q.Repr == old(q.Repr) && Sent(q, sock, files, n)
    ensures r == Done ==> n > 0
    ensures r != Done ==> n < Total(old(q.pieces)) && (r != Partly ==> n == 0)
    ensures old(sock.answers) < sock.answers
    ensures forall i | |old(sock.answers)| <= i < |sock.answers| :: sock.answers[i].Sends()
    ensures Follows(r, sock.answers[|sock.answers| - 1])
    ensures var last := sock.answers[|sock.answers| - 1];
            && (r == Done <==> last.WriteGave? && last.n == last.asked)
            && (r == Partly <==> last.WriteGave? && 0 <= last.n < last.asked)
            && (r == Broken <==> last.WriteGave? && last.n < 0 && last.errno == Other)
            && (r == Again <==>
                || (last.WriteGave? && last.n < 0 && last.errno != Other)
                || (last.OpenGave? && last.fd < 0) || (last.MapGave? && !last.mapped))
            && (last.WriteGave? ==> !last.gathered)
  {
    hide ChunkQueue.Valid, Chunk.Represents, Stream, SendFile.WindowValid, WindowReady;
    q.ValidEnds();
    q.first.FileOf(q.pieces[0]);
    var offset: Uint32 := q.first.sendFile.offset + q.first.chunkOffset;
    var sendLen: Uint32 := q.first.sendFile.length - q.first.chunkOffset;
    assert sendLen == q.pieces[0].RestLength() > 0;
    WindowIsFront(files, q.pieces, 0);
    var ok;
    ghost var open, mapped, answer;
    ok, open, mapped := MoveWindow(q, sock, offset);
    if ok {
      r, n, answer := WriteWindow(q, sock, offset, sendLen, files);
    } else {
      r, n := Again, 0;
    }
  }

  /** What one sending step means for the whole: conservation, and what it keeps. */
  lemma StepKeeps(files: Files, ps: seq<Piece>, later: seq<Piece>, n: nat)
    requires n <= Total(ps) && (later == Drop(ps, n) || (n == 0 && later == ps))
    requires FilesOpen(ps) && MemTotal(ps) < TWO_TO_THE_32
    ensures FilesOpen(later) && MemTotal(later) < TWO_TO_THE_32
    ensures |Stream(files, ps)| == Total(ps) && Stream(files, ps)[..n] + Stream(files, later) == Stream(files, ps)
    ensures Total(later) == Total(ps) - n && Consumed(ps, later)
  {
    SendConserves(files, ps, n);
    DropFilesOpen(ps, n);
    DropMemTotal(ps, n);
    DropConsumes(ps, n);
  }

  /**
   Sends until the queue is empty or the socket takes no more. Every round sends a byte or drops a
   chunk, so it ends; at every exit the bytes taken followed by the queue are the old stream.
   */
  method HandleWrite(q: ChunkQueue, sock: Socket, ghost files: Files) returns (r: WriteResult, ghost taken: seq<char>)
    requires q.Valid() && sock !in q.Repr && FilesOpen(q.pieces) && MemTotal(q.pieces) < TWO_TO_THE_32
    modifies q.Repr, sock
    ensures q.Valid() && q.Repr == old(q.Repr) && FilesOpen(q.pieces) && MemTotal(q.pieces) < TWO_TO_THE_32
    ensures sock.accepted == old(sock.accepted) + taken && sock.received == old(sock.received)
    ensures taken + Stream(files, q.pieces) == Stream(files, old(q.pieces))
    ensures Consumed(old(q.pieces), q.pieces)
    ensures r == Done <==> q.pieces == []
    ensures r != Done ==> Total(q.pieces) > 0
    ensures old(sock.answers) <= sock.answers && (Total(old(q.pieces)) > 0 ==> old(sock.answers) < sock.answers)
    ensures forall i | |old(sock.answers)| <= i < |sock.answers| :: sock.answers[i].Sends()
    ensures r == Broken <==>
              && old(sock.answers) < sock.answers
              && var last := sock.answers[|sock.answers| - 1];
                 last.WriteGave? && last.n < 0 && (last.gathered || last.errno == Other)
    ensures r == Again <==>
              && old(sock.answers) < sock.answers
              && var last := sock.answers[|sock.answers| - 1];
                 || (last.WriteGave? && last.n < 0 && !last.gathered && last.errno != Other)
                 || (last.OpenGave? && last.fd < 0) || (last.MapGave? && !last.mapped)
    ensures r == Partly <==>
              && old(sock.answers) < sock.answers
              && var last := sock.answers[|sock.answers| - 1];
                 last.WriteGave? && 0 <= last.n < last.asked
    ensures old(sock.answers) < sock.answers ==> (r in {Done, Partly} <==> sock.answers[|sock.answers| - 1].Took())
  {
    hide ChunkQueue.Valid, Chunk.Represents, Stream, Consumed, FilesOpen, MemTotal, Total, Drop, Follows, Answer.Sends;
    r, taken := Done, [];
    ghost var before := sock.answers;
    q.ValidEnds();
    ConsumedSelf(q.pieces);
    assert sock.accepted == sock.accepted + [];
    while q.first != null && r == Done
      invariant q.Valid() && q.Repr == old(q.Repr) && FilesOpen(q.pieces) && MemTotal(q.pieces) < TWO_TO_THE_32
      invariant sock.accepted == old(sock.accepted) + taken && sock.received == old(sock.received)
      invariant taken + Stream(files, q.pieces) == Stream(files, old(q.pieces))
      invariant Consumed(old(q.pieces), q.pieces)
      invariant r != Done ==> Total(q.pieces) > 0
      invariant before <= sock.answers
      invariant before == sock.answers ==> r == Done && Total(q.pieces) == Total(old(q.pieces))
      invariant forall i | |before| <= i < |sock.answers| :: sock.answers[i].Sends()
      invariant before < sock.answers ==> Follows(r, sock.answers[|sock.answers| - 1])
      decreases r == Done, Total(q.pieces), |q.pieces|
    {
      q.ValidEnds();
      ghost var ps, n := q.pieces, 0;
      r, n := WriteOnce(q, sock, files);
      ConsumedTransitive(old(q.pieces), ps, q.pieces);
      Associative(taken, Stream(files, ps)[..n], Stream(files, q.pieces));
      Associative(old(sock.accepted), taken, Stream(files, ps)[..n]);
      taken := taken + Stream(files, ps)[..n];
    }
    q.ValidEnds();
    TotalOfNone();
    if before < sock.answers {
      FollowsIs(r, sock.answers[|sock.answers| - 1]);
    }
  }

  /** One round: the memory chunks at the front, or the file. */
  method WriteOnce(q: ChunkQueue, sock: Socket, ghost files: Files) returns (r: WriteResult, ghost n: nat)
    requires q.Valid() && sock !in q.Repr && FilesOpen(q.pieces) && MemTotal(q.pieces) < TWO_TO_THE_32
    requires q.pieces != []
    modifies q.Repr, sock
    ensures q.Valid() && q.Repr == old(q.Repr) && FilesOpen(q.pieces) && MemTotal(q.pieces) < TWO_TO_THE_32
    ensures n <= |Stream(files, old(q.pieces))| && sock.received == old(sock.received)
    ensures sock.accepted == old(sock.accepted) + Stream(files, old(q.pieces))[..n]
    ensures Stream(files, old(q.pieces))[..n] + Stream(files, q.pieces) == Stream(files, old(q.pieces))
    ensures Consumed(old(q.pieces), q.pieces) && Total(q.pieces) == Total(old(q.pieces)) - n
    ensures r == Done ==> n > 0 || |q.pieces| < |old(q.pieces)|
    ensures r != Done ==> Total(q.pieces) > 0
    ensures old(sock.answers) <= sock.answers && (sock.answers == old(sock.answers) ==> r == Done && n == 0)
    ensures forall i | |old(sock.answers)| <= i < |sock.answers| :: sock.answers[i].Sends()
    ensures old(sock.answers) < sock.answers ==> Follows(r, sock.answers[|sock.answers| - 1])
  {
    hide ChunkQueue.Valid, Chunk.Represents, Stream, Consumed, FilesOpen, MemTotal, Total, Drop, Follows, Answer.Sends;
    q.ValidEnds();
    q.first.KindOf(q.pieces[0]);
    ghost var ps := q.pieces;
    if q.first.chunkType == ChunkMem {
      ghost var answer, k;
      r, n, answer, k := WritevMemChunk(q, sock, files);
    } else {
      r, n := SendFileChunk(q, sock, files);
    }
    StepKeeps(files, ps, q.pieces, n);
  }

  lemma ConsumedSelf(ps: seq<Piece>)
    ensures Consumed(ps, ps)
  {
  }

  lemma TotalOfNone()
    ensures Total([]) == 0
  {
  }
}
