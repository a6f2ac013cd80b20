/** What the reader makes of a byte stream, and when that does not depend on how the stream is cut up. */
module Fragments {
  import opened Terminators

  /** After a read: wait for more, go on with a complete request head, or answer 414. */
  datatype Verdict = Waiting | Complete(head: seq<char>) | TooLong

  /** Where the first END of `s` stops. */
  ghost function EndOf(s: seq<char>): (t: nat)
    requires !NoEnd(s)
    ensures FirstEnd(s, t) && t <= |s|
  {
    FirstEndExists(s);
    var t: nat :| FirstEnd(s, t);
    t
  }

  /** The verdict on all bytes read since the last request. */
  ghost function Judge(received: seq<char>, max: nat): Verdict {
    if !NoEnd(received) then Complete(received[..EndOf(received)])
    else if |received| > max then TooLong
    else Waiting
  }

  lemma JudgeComplete(received: seq<char>, max: nat, t: nat)
    requires FirstEnd(received, t)
    ensures t <= |received| && Judge(received, max) == Complete(received[..t])
  {
    FirstEndIsEnd(received, t);
    FirstEndUnique(received, t, EndOf(received));
  }

  lemma JudgeOpen(received: seq<char>, max: nat)
    requires NoEnd(received)
    ensures Judge(received, max) == if |received| > max then TooLong else Waiting
  {
  }

  lemma WaitingIsShort(received: seq<char>, max: nat)
    requires Judge(received, max) == Waiting
    ensures |received| <= max && NoEnd(received)
  {
  }

  /** The verdict that a run of reads ends with: reading stops at the first that is not to wait. */
  ghost function Feed(received: seq<char>, parts: seq<seq<char>>, max: nat): Verdict
    decreases |parts|
  {
    if parts == [] then Waiting
    else
      var now := received + parts[0];
      if Judge(now, max) == Waiting then Feed(now, parts[1..], max) else Judge(now, max)
  }

  function Flat(parts: seq<seq<char>>): seq<char> {
    if parts == [] then [] else parts[0] + Flat(parts[1..])
  }

  lemma {:induction false} FlatSnoc(parts: seq<seq<char>>, part: seq<char>)
    ensures Flat(parts + [part]) == Flat(parts) + part
  {
    if parts != [] {
      FlatSnoc(parts[1..], part);
      assert (parts + [part])[1..] == parts[1..] + [part];
    } else {
      assert Flat([part]) == part + Flat([part][1..]);
    }
  }

  /** After a run of reads that ends with waiting, one more read is judged with all bytes before it. */
  lemma {:induction false} FeedSnoc(received: seq<char>, parts: seq<seq<char>>, part: seq<char>, max: nat)
    requires Feed(received, parts, max) == Waiting
    ensures Feed(received, parts + [part], max) == Judge(received + Flat(parts) + part, max)
    decreases |parts|
  {
    hide Judge;
    var more := parts + [part];
    if parts == [] {
      assert more[1..] == [] && received + Flat(parts) == received;
    } else {
      assert more[0] == parts[0] && more[1..] == parts[1..] + [part];
      FeedSnoc(received + parts[0], parts[1..], part, max);
      assert received + Flat(parts) == received + parts[0] + Flat(parts[1..]);
    }
  }

  /** Before its first END a stream shows no END. */
  lemma NoEndBefore(s: seq<char>, t: nat, n: nat)
    requires FirstEnd(s, t) && n < t
    ensures n <= |s| && NoEnd(s[..n])
  {
    FirstEndIsEnd(s, t);
    forall u: nat
      ensures !EndsAt(s[..n], u)
    {
      if EndsAt(s[..n], u) {
        assert s == s[..n] + s[n..];
        EndsAtPrefix(s[..n], s[n..], u);
      }
    }
  }

  /** While the reads are a prefix of a stream, the verdict on them is the stream's. */
  lemma JudgePrefix(s: seq<char>, t: nat, n: nat, max: nat)
    requires FirstEnd(s, t) && n <= |s| && t <= max + 1
    ensures n < t ==> Judge(s[..n], max) == Waiting
    ensures n >= t ==> Judge(s[..n], max) == Complete(s[..t])
  {
    if n < t {
      NoEndBefore(s, t, n);
    } else {
      assert s == s[..n] + s[n..];
      FirstEndPrefix(s[..n], s[n..], t);
      JudgeComplete(s[..n], max, t);
      assert s[..n][..t] == s[..t];
    }
  }

  /**
   Fragmentation independence: a stream whose first END stops at `t <= max + 1` gives the request
   head `s[..t]` for every way of cutting it into reads, once `t` bytes have been read.
   */
  lemma {:induction false} FeedIndependent(s: seq<char>, t: nat, n: nat, parts: seq<seq<char>>, max: nat)
    requires FirstEnd(s, t) && t <= max + 1 && n < t
    requires n + |Flat(parts)| <= |s| && s[n..n + |Flat(parts)|] == Flat(parts)
    ensures n <= |s|
    ensures Feed(s[..n], parts, max) == if n + |Flat(parts)| >= t then Complete(s[..t]) else Waiting
    decreases |parts|
  {
    FirstEndIsEnd(s, t);
    if parts != [] {
      var m := n + |parts[0]|;
      assert s[..n] + parts[0] == s[..m] by {
        assert parts[0] == Flat(parts)[..|parts[0]|];
      }
      JudgePrefix(s, t, m, max);
      if m < t {
        assert Flat(parts[1..]) == Flat(parts)[|parts[0]|..];
        FeedIndependent(s, t, m, parts[1..], max);
      }
    }
  }

  /** The cutting into reads never matters exactly when the first END stops at `max + 1` or before. */
  lemma FragmentationIndependence(s: seq<char>, t: nat, max: nat)
    requires FirstEnd(s, t)
    ensures t <= |s|
    ensures (forall parts | Flat(parts) == s :: Feed([], parts, max) == Complete(s[..t])) <==> t <= max + 1
  {
    FirstEndIsEnd(s, t);
    if t <= max + 1 {
      forall parts | Flat(parts) == s
        ensures Feed([], parts, max) == Complete(s[..t])
      {
        assert s[0..] == s && s[..0] == [];
        FeedIndependent(s, t, 0, parts, max);
      }
    } else {
      var parts := [s[..t - 1], s[t - 1..]];
      assert Flat(parts) == s by {
        assert parts[1..] == [s[t - 1..]] && parts[1..][1..] == [];
        assert Flat(parts[1..]) == s[t - 1..] + [];
      }
      assert [] + s[..t - 1] == s[..t - 1];
      NoEndBefore(s, t, t - 1);
      assert Feed([], parts, max) == TooLong;
    }
  }

  /** A stream without END is waited for while it is short enough, and answered 414 otherwise. */
  lemma {:induction false} FeedWithoutEnd(received: seq<char>, parts: seq<seq<char>>, max: nat)
    requires NoEnd(received + Flat(parts)) && |received| <= max
    ensures Feed(received, parts, max) == if |received + Flat(parts)| > max then TooLong else Waiting
    decreases |parts|
  {
    if parts == [] {
    } else {
      var now := received + parts[0];
      assert received + Flat(parts) == now + Flat(parts[1..]);
      forall u: nat
        ensures !EndsAt(now, u)
      {
        if EndsAt(now, u) {
          EndsAtPrefix(now, Flat(parts[1..]), u);
        }
      }
      if |now| <= max {
        FeedWithoutEnd(now, parts[1..], max);
      }
    }
  }
}
