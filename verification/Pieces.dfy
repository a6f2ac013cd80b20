/** What a chunk queue stands for: pieces of memory and of files, read as one byte stream. */
module Pieces {
  import opened Words

  /** The bytes of every file. Files are assumed not to change while they are served. */
  type Files = string -> seq<char>

  datatype Piece =
    | Mem(data: seq<char>, sent: nat)
    | File(name: string, offset: nat, length: nat, sent: nat)
  {
    function FullLength(): nat {
      match this
      case Mem(data, _) => |data|
      case File(_, _, length, _) => length
    }

    function RestLength(): nat {
      if sent <= FullLength() then FullLength() - sent else 0
    }

    ghost predicate WellFormed() {
      sent <= FullLength() < TWO_TO_THE_32
    }

    function Advance(n: nat): Piece {
      this.(sent := sent + n)
    }

    /** The bytes not sent yet. */
    ghost function Rest(files: Files): (s: seq<char>)
      ensures |s| == RestLength()
    {
      match this
      case Mem(data, sent) => if sent <= |data| then data[sent..] else []
      case File(name, offset, _, sent) => FileBytes(files, name, offset + sent, RestLength())
    }
  }

  /** `count` bytes of a mapped file; past its end a mapping reads as zero. */
  ghost function FileBytes(files: Files, name: string, from: nat, count: nat): (s: seq<char>)
    ensures |s| == count
    ensures from + count <= |files(name)| ==> s == files(name)[from..from + count]
  {
    seq(count, i => if 0 <= i && from + i < |files(name)| then files(name)[from + i] else '\0')
  }

  /** Adjacent slices tile the file. */
  lemma FileBytesSplit(files: Files, name: string, from: nat, count: nat, n: nat)
    requires n <= count
    ensures FileBytes(files, name, from, n) == FileBytes(files, name, from, count)[..n]
    ensures FileBytes(files, name, from + n, count - n) == FileBytes(files, name, from, count)[n..]
  {
  }

  ghost predicate WellFormed(ps: seq<Piece>) {
    forall i | 0 <= i < |ps| :: ps[i].WellFormed()
  }

  /** The unsent bytes of all pieces, first to last. */
  ghost function Stream(files: Files, ps: seq<Piece>): seq<char> {
    if ps == [] then [] else ps[0].Rest(files) + Stream(files, ps[1..])
  }

  function Total(ps: seq<Piece>): nat {
    if ps == [] then 0 else ps[0].RestLength() + Total(ps[1..])
  }

  /** The length of all pieces, sent bytes included. */
  function FullTotal(ps: seq<Piece>): nat {
    if ps == [] then 0 else ps[0].FullLength() + FullTotal(ps[1..])
  }

  lemma {:induction false} StreamLength(files: Files, ps: seq<Piece>)
    ensures |Stream(files, ps)| == Total(ps)
  {
    if ps != [] {
      StreamLength(files, ps[1..]);
    }
  }

  lemma Associative<T>(a: seq<T>, b: seq<T>, c: seq<T>)
    ensures (a + b) + c == a + (b + c)
  {
  }

  lemma ConsConcat<T>(a: seq<T>, b: seq<T>)
    requires a != []
    ensures a == [a[0]] + a[1..] && a + b == [a[0]] + (a[1..] + b)
  {
  }

  lemma DropFromConcat<T>(a: seq<T>, b: seq<T>, n: nat)
    requires n <= |a| + |b|
    ensures n <= |a| ==> (a + b)[n..] == a[n..] + b
    ensures n >= |a| ==> (a + b)[n..] == b[n - |a|..]
  {
  }

  lemma DropTwice<T>(s: seq<T>, m: nat, n: nat)
    requires m + n <= |s|
    ensures s[m..][n..] == s[m + n..]
  {
  }

  /** Advancing a piece removes that many bytes from its front. */
  lemma AdvanceRest(files: Files, p: Piece, n: nat)
    requires n <= p.RestLength()
    ensures p.Advance(n).Rest(files) == p.Rest(files)[n..]
  {
    hide FileBytes;
    match p
    case Mem(data, sent) =>
      if sent <= |data| {
        DropTwice(data, sent, n);
      }
    case File(name, offset, length, sent) =>
      FileBytesSplit(files, name, offset + sent, p.RestLength(), n);
  }

  lemma StreamCons(files: Files, p: Piece, ps: seq<Piece>)
    ensures Stream(files, [p] + ps) == p.Rest(files) + Stream(files, ps)
  {
    assert ([p] + ps)[1..] == ps;
  }

  lemma {:induction false} StreamConcat(files: Files, a: seq<Piece>, b: seq<Piece>)
    ensures Stream(files, a + b) == Stream(files, a) + Stream(files, b)
  {
    if a == [] {
      assert a + b == b;
    } else {
      hide Stream;
      StreamConcat(files, a[1..], b);
      StreamCons(files, a[0], a[1..] + b);
      StreamCons(files, a[0], a[1..]);
      Associative(a[0].Rest(files), Stream(files, a[1..]), Stream(files, b));
      ConsConcat(a, b);
    }
  }

  lemma {:induction false} FullTotalConcat(a: seq<Piece>, b: seq<Piece>)
    ensures FullTotal(a + b) == FullTotal(a) + FullTotal(b)
  {
    if a == [] {
      assert a + b == b;
    } else {
      FullTotalConcat(a[1..], b);
      assert (a + b)[1..] == a[1..] + b;
    }
  }

  /** What is left after `n` more bytes were sent; finished pieces at the front go too. */
  function Drop(ps: seq<Piece>, n: nat): seq<Piece>
    decreases |ps|
  {
    if ps == [] || (n == 0 && ps[0].RestLength() > 0) then ps
    else if n >= ps[0].RestLength() then Drop(ps[1..], n - ps[0].RestLength())
    else ps[0 := ps[0].Advance(n)]
  }

  /** One round of sending: skip a finished piece, or stop inside the first. */
  lemma DropStep(ps: seq<Piece>, n: nat)
    ensures ps == [] ==> Drop(ps, n) == [] && Total(ps) == 0
    ensures ps != [] ==> Total(ps) == ps[0].RestLength() + Total(ps[1..])
    ensures ps != [] && n == 0 && ps[0].RestLength() > 0 ==> Drop(ps, n) == ps
    ensures ps != [] && n >= ps[0].RestLength() && !(n == 0 && ps[0].RestLength() > 0) ==>
              Drop(ps, n) == Drop(ps[1..], n - ps[0].RestLength())
    ensures ps != [] && 0 < n < ps[0].RestLength() ==> Drop(ps, n) == ps[0 := ps[0].Advance(n)]
  {
  }

  lemma StreamStep(files: Files, ps: seq<Piece>)
    requires ps != []
    ensures Stream(files, ps) == ps[0].Rest(files) + Stream(files, ps[1..])
  {
  }

  /** Sending removes exactly the bytes sent from the front of the stream, and nothing else. */
  lemma {:induction false} DropStream(files: Files, ps: seq<Piece>, n: nat)
    ensures |Stream(files, ps)| == Total(ps)
    ensures Stream(files, Drop(ps, n)) == Stream(files, ps)[Min(n, Total(ps))..]
    ensures Drop(ps, n) == [] || Drop(ps, n)[0].RestLength() > 0
    decreases |ps|
  {
    hide Stream, Drop, Total, Piece.Rest;
    StreamLength(files, ps);
    DropStep(ps, n);
    if ps == [] {
      assert Min(n, Total(ps)) == 0;
    } else if n == 0 && ps[0].RestLength() > 0 {
    } else {
      var k := ps[0].RestLength();
      StreamStep(files, ps);
      DropFromConcat(ps[0].Rest(files), Stream(files, ps[1..]), Min(n, Total(ps)));
      if n >= k {
        DropStream(files, ps[1..], n - k);
      } else {
        var left := ps[0 := ps[0].Advance(n)];
        AdvanceRest(files, ps[0], n);
        StreamStep(files, left);
        assert left[1..] == ps[1..];
      }
    }
  }

  /** The stream is used up exactly when enough was sent. */
  lemma {:induction false} DropEmpty(ps: seq<Piece>, n: nat)
    ensures Drop(ps, n) == [] <==> n >= Total(ps)
    decreases |ps|
  {
    if ps != [] {
      if n >= ps[0].RestLength() && !(n == 0 && ps[0].RestLength() > 0) {
        DropEmpty(ps[1..], n - ps[0].RestLength());
      }
    }
  }

  /** Sending in two steps is sending once. */
  lemma {:induction false} DropDrop(ps: seq<Piece>, m: nat, n: nat)
    ensures Drop(Drop(ps, m), n) == Drop(ps, m + n)
    decreases |ps|
  {
    if ps == [] || (m == 0 && ps[0].RestLength() > 0) {
    } else if m >= ps[0].RestLength() {
      DropDrop(ps[1..], m - ps[0].RestLength(), n);
    } else {
      var left := Drop(ps, m);
      assert left[1..] == ps[1..];
      assert left[0].RestLength() == ps[0].RestLength() - m;
      if n > 0 && n < left[0].RestLength() {
        assert Drop(left, n) == left[0 := left[0].Advance(n)];
        assert left[0].Advance(n) == ps[0].Advance(m + n);
      }
    }
  }

  /** `later` is a suffix of `earlier`, of whose first piece more may have been sent. */
  ghost predicate Consumed(earlier: seq<Piece>, later: seq<Piece>) {
    var k := |earlier| - |later|;
    && k >= 0
    && (later == [] ||
        (&& later[0] == earlier[k].(sent := later[0].sent)
         && later[0].sent >= earlier[k].sent
         && later[1..] == earlier[k + 1..]))
  }

  lemma {:induction false} DropConsumes(ps: seq<Piece>, n: nat)
    ensures Consumed(ps, Drop(ps, n))
    decreases |ps|
  {
    if ps == [] || (n == 0 && ps[0].RestLength() > 0) {
    } else if n >= ps[0].RestLength() {
      DropConsumes(ps[1..], n - ps[0].RestLength());
    } else {
      assert Drop(ps, n)[1..] == ps[1..];
    }
  }

  /** No file piece is used up: the queue holds a file piece only while bytes of it are left. */
  ghost predicate FilesOpen(ps: seq<Piece>) {
    forall i | 0 <= i < |ps| :: ps[i].File? ==> ps[i].RestLength() > 0
  }

  /** What later sending leaves of the pieces has no used up file piece either. */
  lemma {:induction false} DropFilesOpen(ps: seq<Piece>, n: nat)
    requires FilesOpen(ps)
    ensures FilesOpen(Drop(ps, n))
    decreases |ps|
  {
    if ps == [] || (n == 0 && ps[0].RestLength() > 0) {
    } else if n >= ps[0].RestLength() {
      DropFilesOpen(ps[1..], n - ps[0].RestLength());
    }
  }

  /** Unsent bytes held in memory. */
  function MemTotal(ps: seq<Piece>): nat {
    if ps == [] then 0 else (if ps[0].Mem? then ps[0].RestLength() else 0) + MemTotal(ps[1..])
  }

  lemma {:induction false} MemPrefixTotal(ps: seq<Piece>, k: nat)
    requires k <= |ps| && forall i | 0 <= i < k :: ps[i].Mem?
    ensures Total(ps[..k]) <= MemTotal(ps)
  {
    if k > 0 {
      MemPrefixTotal(ps[1..], k - 1);
      assert ps[1..][..k - 1] == ps[..k][1..];
    }
  }

  lemma {:induction false} DropMemTotal(ps: seq<Piece>, n: nat)
    ensures MemTotal(Drop(ps, n)) <= MemTotal(ps)
    decreases |ps|
  {
    if ps == [] || (n == 0 && ps[0].RestLength() > 0) {
    } else if n >= ps[0].RestLength() {
      DropMemTotal(ps[1..], n - ps[0].RestLength());
    } else {
      assert Drop(ps, n)[1..] == ps[1..];
    }
  }

  lemma StreamTake(files: Files, ps: seq<Piece>, k: nat)
    requires k <= |ps|
    ensures Stream(files, ps) == Stream(files, ps[..k]) + Stream(files, ps[k..])
  {
    hide Stream;
    assert ps == ps[..k] + ps[k..];
    StreamConcat(files, ps[..k], ps[k..]);
  }

  /** Bytes the socket took from the front of the stream, and what is left: nothing is lost or sent twice. */
  lemma SendConserves(files: Files, ps: seq<Piece>, n: nat)
    requires n <= Total(ps)
    ensures |Stream(files, ps)| == Total(ps)
    ensures Stream(files, ps)[..n] + Stream(files, Drop(ps, n)) == Stream(files, ps)
    ensures Total(Drop(ps, n)) == Total(ps) - n
  {
    hide Stream, Drop, Total;
    DropStream(files, ps, n);
    StreamLength(files, Drop(ps, n));
  }

  lemma ConsumedTransitive(a: seq<Piece>, b: seq<Piece>, c: seq<Piece>)
    requires Consumed(a, b) && Consumed(b, c)
    ensures Consumed(a, c)
  {
    var i, j := |a| - |b|, |b| - |c|;
    if c != [] && j > 0 {
      assert b[1..][j - 1] == a[i + 1..][j - 1];
      assert b[1..][j..] == a[i + 1..][j..];
    }
  }
}
