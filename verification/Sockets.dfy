/**
 The kernel's side of one connection socket. Each method stands for a system call and may
 answer anything its contract allows; the bytes that crossed the socket are remembered.
 */
module Sockets {
  import opened Words
  import opened Terminators
  import opened Fragments
  import opened Requests

  datatype Errno = Interrupted | WouldBlock | Other

  /** What the kernel answered to one call: errno counts when the number is negative. */
  datatype Answer =
    | HoldsGave(bytes: int)                                        // ioctl(FIONREAD); 0 when it fails
    | ReadGave(room: nat, n: int, errno: Errno)
    | WriteGave(gathered: bool, asked: nat, n: int, errno: Errno)  // writev() gathers, write() does not
    | OpenGave(fd: int)
    | MapGave(mapped: bool)
    | ShutGave(down: bool)
    | DropGave(n: int, errno: Errno)                               // read() of bytes that are thrown away
    | TimeGave(t: int)
  {
    /** An answer on the way to the peer. */
    predicate Sends() {
      WriteGave? || OpenGave? || MapGave?
    }

    /** Nothing can be sent any more: writev() failed, or write() for a reason that is not to wait for. */
    predicate Breaks() {
      WriteGave? && n < 0 && (gathered || errno == Other)
    }

    /** Bytes went to the peer, or could have. */
    predicate Took() {
      WriteGave? && 0 <= n
    }

    /** Sending stops for now: it was cut short, or is to be tried again. */
    predicate Stops() {
      || (WriteGave? && n < 0 && !gathered && errno != Other)
      || (WriteGave? && 0 <= n < asked)
      || (OpenGave? && fd < 0) || (MapGave? && !mapped)
    }
  }

  /** A head that is complete is one the parser can look at. */
  ghost predicate Answerable(s: seq<char>) {
    NoEnd(s) || !VerbMissing(s[..EndOf(s)])
  }

  /** Bytes without LF complete no head. */
  lemma AnswerableGrows(s: seq<char>, data: seq<char>)
    requires Answerable(s) && '\n' !in data
    ensures Answerable(s + data)
  {
    hide VerbMissing;
    if NoEnd(s) {
      forall t: nat
        ensures !EndsAt(s + data, t)
      {
        if EndsAt(s + data, t) {
          MatchBytes(s + data, t - 4);
          assert t <= |s|;
          EndsAtPrefix(s, data, t);
        }
      }
    } else {
      var t := EndOf(s);
      FirstEndPrefix(s, data, t);
      FirstEndIsEnd(s + data, t);
      FirstEndUnique(s + data, t, EndOf(s + data));
      assert (s + data)[..t] == s[..t];
    }
  }

  class Socket {
    ghost var received: seq<char>  // every byte read from the peer
    ghost var accepted: seq<char>  // every byte the kernel took for the peer
    ghost var answers: seq<Answer>  // every answer it gave

    constructor ()
      ensures received == [] && accepted == [] && answers == []
    {
      received, accepted, answers := [], [], [];
    }

    /** ioctl(FIONREAD). */
    method Pending() returns (ok: bool, bytes: Uint32)
      modifies `answers
      ensures bytes <= 0x7FFF_FFFF && answers == old(answers) + [HoldsGave(if ok then bytes else 0)]
    {
      ok := *;
      bytes := *;
      if bytes > 0x7FFF_FFFF {
        bytes := 0;
      }
      answers := answers + [HoldsGave(if ok then bytes else 0)];
    }

    /**
     read() into a block. Two answers are assumed not to come: one that fills a place which is `tight`,
     behind which the block has no byte for the closing NUL, and one that completes a head the parser
     cannot look at.
     */
    method Read(block: array<char>, at: nat, room: nat, ghost tight: bool, ghost soFar: seq<char>)
      returns (n: int, errno: Errno)
      requires room > 0 && at + room <= block.Length && Answerable(soFar)
      requires tight <==> at + room == block.Length
      modifies this, block
      ensures -1 <= n <= room && (tight ==> n < room)
      ensures block[..at] == old(block[..at])
      ensures n <= 0 ==> unchanged(block) && received == old(received)
      ensures n > 0 ==> received == old(received) + block[at..at + n] && Answerable(soFar + block[at..at + n])
      ensures accepted == old(accepted) && answers == old(answers) + [ReadGave(room, n, errno)]
    {
      hide Answerable;
      n := *;
      errno := *;
      if n < -1 || n > room || at + n >= block.Length {
        n := -1;
      }
      if n > 0 {
        for i := 0 to n
          modifies block
          invariant block[..at] == old(block[..at]) && '\n' !in block[at..at + i]
        {
          var c: char := *;
          block[at + i] := if c == '\n' then 'x' else c;
        }
        received := received + block[at..at + n];
        AnswerableGrows(soFar, block[at..at + n]);
      }
      answers := answers + [ReadGave(room, n, errno)];
    }

    /** read() of bytes that are thrown away. */
    method Discard() returns (n: int, errno: Errno)
      modifies this
      ensures -1 <= n <= 512 && accepted == old(accepted) && answers == old(answers) + [DropGave(n, errno)]
      ensures old(received) <= received && |received| == |old(received)| + Max(n, 0)
    {
      n := *;
      errno := *;
      if n < -1 || n > 512 {
        n := -1;
      }
      ghost var junk: seq<char> := *;
      received := received + if |junk| == Max(n, 0) then junk else seq(Max(n, 0), _ => 'x');
      answers := answers + [DropGave(n, errno)];
    }

    /**
     write(), or writev() of what is gathered, of `len` bytes, which are `data`: the kernel takes a prefix
     of them, or fails and takes nothing. The answer is an `int`.
     */
    method Write(gathered: bool, len: nat, ghost data: seq<char>) returns (n: int, errno: Errno)
      requires |data| == len
      modifies this
      ensures -1 <= n <= len && n <= 0x7FFF_FFFF
      ensures accepted == old(accepted) + data[..Max(n, 0)] && received == old(received)
      ensures answers == old(answers) + [WriteGave(gathered, len, n, errno)]
    {
      n := *;
      errno := *;
      if n < -1 || n > len || n > 0x7FFF_FFFF {
        n := -1;
      }
      accepted := accepted + data[..Max(n, 0)];
      answers := answers + [WriteGave(gathered, len, n, errno)];
    }

    /** open() for reading: a descriptor, or -1. */
    method Open() returns (fd: int)
      modifies `answers
      ensures fd >= -1 && answers == old(answers) + [OpenGave(fd)]
    {
      fd := *;
      if fd < -1 {
        fd := -1;
      }
      answers := answers + [OpenGave(fd)];
    }

    /** Whether an mmap() succeeds. */
    method Mmap() returns (ok: bool)
      modifies `answers
      ensures answers == old(answers) + [MapGave(ok)]
    {
      ok := *;
      answers := answers + [MapGave(ok)];
    }

    /** time(). */
    method Time() returns (t: int)
      modifies `answers
      ensures answers == old(answers) + [TimeGave(t)]
    {
      t := *;
      answers := answers + [TimeGave(t)];
    }

    /** shutdown(SHUT_WR). */
    method Shutdown() returns (ok: bool)
      modifies `answers
      ensures answers == old(answers) + [ShutGave(ok)]
    {
      ok := *;
      answers := answers + [ShutGave(ok)];
    }
  }
}
