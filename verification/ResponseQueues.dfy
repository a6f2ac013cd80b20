/** The write queue of one response: a head and at most one piece of body, of which sending takes its share. */
module ResponseQueues {
  import opened Words
  import opened Pieces
  import opened Terminators
  import opened Sockets
  import opened Exchanges

  /** A queue of a head and at most one body piece, of which sending took its share. */
  ghost predicate SmallQueue(ps: seq<Piece>) {
    && |ps| <= 2 && FilesOpen(ps) && MemTotal(ps) < TWO_TO_THE_32
    && forall i | 0 <= i < |ps| :: 0 < ps[i].FullLength() < TWO_TO_THE_32
  }

  lemma NothingQueued()
    ensures Text([]) == [] && AllMem([]) && SmallQueue([]) && Answerable([])
  {
  }

  /** A queued file or an empty range. */
  lemma FileIsQueued(files: Files, path: string, size: nat, ps: seq<Piece>)
    requires size == |files(path)|
    requires ps == if Wrap(size) == 0 then [] else [File(path, 0, Wrap(size), 0)]
    ensures SmallQueue(ps) && MemTotal(ps) == 0 && Stream(files, ps) == files(path)[..Wrap(size)]
    ensures ps != [] ==> |ps| == 1 && ps[0].sent == 0
  {
    if ps != [] {
      assert ps[1..] == [];
    }
  }

  lemma MemIsQueued(data: seq<char>, ps: seq<Piece>)
    requires 0 < |data| < MAX_LISTING && ps == [Mem(data, 0)]
    ensures SmallQueue(ps) && MemTotal(ps) == |data|
  {
    assert ps[1..] == [];
  }

  /** Sending keeps a queue small, and its length, sent bytes included, away from a multiple of 2^32. */
  lemma SendingKeepsSmall(ps: seq<Piece>, later: seq<Piece>)
    requires SmallQueue(ps) && Consumed(ps, later) && FilesOpen(later) && MemTotal(later) < TWO_TO_THE_32
    ensures SmallQueue(later)
    ensures later != [] && Wrap(FullTotal(ps)) != 0 ==> Wrap(FullTotal(later)) != 0
  {
    if later != [] {
      var k := |ps| - |later|;
      assert later[1..] == ps[k + 1..];
      assert later[0].FullLength() == ps[k].FullLength();
      if k == 0 {
        assert FullTotal(later) == FullTotal(ps);
      } else {
        assert |ps| == 2 && later[1..] == [];
      }
    }
  }

  /** The length of a body is its number of bytes, without wrapping. */
  lemma BodyLength(files: Files, ps: seq<Piece>)
    requires SmallQueue(ps) && |ps| <= 1 && (ps != [] ==> ps[0].sent == 0)
    ensures FullTotal(ps) == |Stream(files, ps)| < TWO_TO_THE_32
    ensures ps == [] <==> Stream(files, ps) == []
  {
    if ps != [] {
      assert ps[1..] == [] && Stream(files, ps[1..]) == [];
    }
  }

  /** The head in front of the body: a small queue, and the stream it stands for. */
  lemma HeadInFront(files: Files, head: seq<char>, ps: seq<Piece>)
    requires SmallQueue(ps) && |ps| <= 1 && (ps != [] ==> ps[0].sent == 0) && MemTotal(ps) < MAX_LISTING
    requires 0 < |head| < 0x8000_0000
    ensures var all := [Mem(head, 0)] + ps;
            && SmallQueue(all) && Stream(files, all) == head + Stream(files, ps)
            && FullTotal(all) == |head| + |Stream(files, ps)|
  {
    var all := [Mem(head, 0)] + ps;
    assert all[1..] == ps;
    BodyLength(files, ps);
  }

  /** A total below twice 2^32 looks like 0 in 32 bits at 2^32 only. */
  lemma LooksEmpty(n: nat)
    requires 0 < n < 2 * TWO_TO_THE_32
    ensures Wrap(n) == 0 <==> n == TWO_TO_THE_32
  {
  }

  /**
   What is queued is what is missing, and the queue's own 32-bit length says that it is not empty, unless
   the response is 2^32 bytes long, of which nothing is sent.
   */
  ghost predicate Sending(files: Files, ps: seq<Piece>, current: seq<char>, taken: seq<char>) {
    && taken + Stream(files, ps) == current && ps != [] && |taken| < |current|
    && (Wrap(FullTotal(ps)) == 0 <==> |current| == TWO_TO_THE_32)
    && (|current| == TWO_TO_THE_32 ==> taken == [])
  }

  /** All was sent; of a response of 2^32 bytes, nothing was. */
  ghost predicate Finished(ps: seq<Piece>, current: seq<char>, taken: seq<char>) {
    if |current| == TWO_TO_THE_32 then taken == [] else taken == current && ps == []
  }
}
