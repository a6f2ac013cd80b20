/** The end of a request head: the first CRLF CRLF of a byte stream, however the stream is cut up. */
module Terminators {
  import opened Pieces

  const END := "\r\n\r\n"

  /** `m` bytes of END stand at position `p` of `s`. */
  predicate MatchAt(s: seq<char>, p: nat, m: nat) {
    m <= 4 && p + m <= |s| && forall i | 0 <= i < m :: s[p + i] == END[i]
  }

  /** An END of `s` stops right before position `t`. */
  predicate EndsAt(s: seq<char>, t: nat) {
    4 <= t && MatchAt(s, t - 4, 4)
  }

  lemma EndsAtSlice(s: seq<char>, t: nat)
    ensures EndsAt(s, t) <==> 4 <= t <= |s| && s[t - 4..t] == END
  {
    if 4 <= t <= |s| && s[t - 4..t] == END {
      forall i | 0 <= i < 4
        ensures s[t - 4 + i] == END[i]
      {
        assert s[t - 4..t][i] == END[i];
      }
    }
  }

  /** The bytes `data` stand at position `base` of `s`. */
  ghost predicate SitsAt(s: seq<char>, base: nat, data: seq<char>) {
    base + |data| <= |s| && forall j | 0 <= j < |data| :: s[base + j] == data[j]
  }

  /** The bytes of `data` from `from` on agree with END from its byte `m` up to its byte `n`. */
  ghost predicate Agrees(data: seq<char>, from: nat, m: nat, n: nat) {
    m <= n <= 4 && from + n - m <= |data| && forall i | m <= i < n :: data[from + i - m] == END[i]
  }

  /** A match at `p` goes on in the piece of `s` that stands at `base`. */
  lemma MatchGoesOn(s: seq<char>, p: nat, m: nat, n: nat, base: nat, data: seq<char>, from: nat)
    requires MatchAt(s, p, m) && SitsAt(s, base, data) && base + from == p + m && Agrees(data, from, m, n)
    ensures MatchAt(s, p, n)
  {
    forall i | m <= i < n
      ensures s[p + i] == END[i]
    {
      assert data[from + i - m] == END[i];
      assert s[base + (from + i - m)] == data[from + i - m];
    }
  }

  lemma MatchStarts(s: seq<char>, base: nat, data: seq<char>, j: nat)
    requires SitsAt(s, base, data) && j < |data|
    ensures MatchAt(s, base + j, 1) <==> data[j] == '\r'
  {
    assert s[base + j] == data[j];
    assert END[0] == '\r';
  }

  lemma MatchEnds(s: seq<char>, p: nat, n: nat)
    requires n < 4 && |s| == p + n
    ensures !MatchAt(s, p, 4)
  {
  }

  /** One byte that differs from END's is the end of a match. */
  lemma MatchStops(s: seq<char>, p: nat, n: nat, base: nat, data: seq<char>, j: nat)
    requires SitsAt(s, base, data) && j < |data| && n < 4 && base + j == p + n && data[j] != END[n]
    ensures !MatchAt(s, p, 4)
  {
    assert s[base + j] == data[j];
  }

  /** The first END of `s` stops right before position `t`. */
  ghost predicate FirstEnd(s: seq<char>, t: nat) {
    EndsAt(s, t) && forall u: nat | u < t :: !EndsAt(s, u)
  }

  ghost predicate NoEnd(s: seq<char>) {
    forall t: nat :: !EndsAt(s, t)
  }

  /** A match inside the second of two texts is a match in both. */
  lemma MatchShift(a: seq<char>, b: seq<char>, p: nat, m: nat)
    ensures MatchAt(a + b, |a| + p, m) <==> MatchAt(b, p, m)
  {
    if MatchAt(a + b, |a| + p, m) {
      forall i | 0 <= i < m
        ensures b[p + i] == END[i]
      {
        assert (a + b)[|a| + p + i] == b[p + i];
      }
    }
  }

  /** A match begins with CR LF CR. */
  lemma MatchBytes(s: seq<char>, p: nat)
    requires MatchAt(s, p, 4)
    ensures s[p] == '\r' && s[p + 1] == '\n' && s[p + 2] == '\r' && s[p + 3] == '\n'
  {
    assert s[p + 0] == END[0] && s[p + 1] == END[1] && s[p + 2] == END[2] && s[p + 3] == END[3];
  }

  /** A byte other than CR begins no END, and a whole END begins where its first byte does. */
  lemma MatchShrinks(s: seq<char>, p: nat)
    requires !MatchAt(s, p, 1)
    ensures !MatchAt(s, p, 4)
  {
  }

  lemma FirstEndIsEnd(s: seq<char>, t: nat)
    requires FirstEnd(s, t)
    ensures !NoEnd(s) && 4 <= t <= |s|
  {
  }

  /** The text up to the middle of the bytes at `base`. */
  lemma TakeInto(s: seq<char>, base: nat, data: seq<char>, n: nat)
    requires SitsAt(s, base, data) && n <= |data|
    ensures base + n <= |s| && s[..base + n] == s[..base] + data[..n]
  {
    forall j | 0 <= j < n
      ensures s[base + j] == data[j]
    {
    }
  }

  /** No END starts before position `n`. */
  ghost predicate NoMatchBefore(s: seq<char>, n: nat) {
    forall u: nat | u < n :: !MatchAt(s, u, 4)
  }

  lemma ScanFinds(s: seq<char>, p: nat)
    requires NoMatchBefore(s, p) && MatchAt(s, p, 4)
    ensures FirstEnd(s, p + 4)
  {
  }

  lemma ScanFindsNothing(s: seq<char>, n: nat)
    requires NoMatchBefore(s, n) && n >= |s|
    ensures NoEnd(s)
  {
  }

  /** Whether an END stops before `t` depends on the first `t` bytes only. */
  lemma EndsAtPrefix(a: seq<char>, b: seq<char>, t: nat)
    requires t <= |a|
    ensures EndsAt(a + b, t) <==> EndsAt(a, t)
  {
  }

  /** More bytes do not move an END that is there already. */
  lemma FirstEndPrefix(a: seq<char>, b: seq<char>, t: nat)
    requires t <= |a|
    ensures FirstEnd(a + b, t) <==> FirstEnd(a, t)
  {
    forall u: nat | u <= t
      ensures EndsAt(a + b, u) <==> EndsAt(a, u)
    {
      EndsAtPrefix(a, b, u);
    }
  }

  lemma FirstEndUnique(s: seq<char>, t: nat, u: nat)
    requires FirstEnd(s, t) && FirstEnd(s, u)
    ensures t == u
  {
  }

  /** A stream has no END, or a first one. */
  lemma FirstEndExists(s: seq<char>)
    ensures NoEnd(s) || exists t: nat :: FirstEnd(s, t)
  {
    if !NoEnd(s) {
      var t: nat :| EndsAt(s, t);
      LeastEnd(s, t);
    }
  }

  lemma {:induction false} LeastEnd(s: seq<char>, t: nat)
    requires EndsAt(s, t)
    ensures exists u: nat :: FirstEnd(s, u)
    decreases t
  {
    if u: nat :| u < t && EndsAt(s, u) {
      LeastEnd(s, u);
    } else {
      assert FirstEnd(s, t);
    }
  }

  /** The bytes of the memory pieces. */
  ghost function Text(ps: seq<Piece>): seq<char> {
    if ps == [] then [] else (if ps[0].Mem? then ps[0].data else []) + Text(ps[1..])
  }

  ghost predicate AllMem(ps: seq<Piece>) {
    forall i | 0 <= i < |ps| :: ps[i].Mem? && ps[i].sent == 0
  }

  lemma {:induction false} TextConcat(a: seq<Piece>, b: seq<Piece>)
    ensures Text(a + b) == Text(a) + Text(b)
  {
    if a == [] {
      assert a + b == b;
    } else {
      TextConcat(a[1..], b);
      assert (a + b)[1..] == a[1..] + b;
      Associative(if a[0].Mem? then a[0].data else [], Text(a[1..]), Text(b));
    }
  }

  /** Byte `j` of piece `k` is byte `|Text(ps[..k])| + j` of the whole text. */
  lemma TextAt(ps: seq<Piece>, k: nat)
    requires k < |ps| && ps[k].Mem?
    ensures Text(ps[..k + 1]) == Text(ps[..k]) + ps[k].data
    ensures Text(ps[..k + 1]) <= Text(ps)
    ensures SitsAt(Text(ps), |Text(ps[..k])|, ps[k].data)
  {
    assert ps[..k + 1] == ps[..k] + [ps[k]];
    assert Text([ps[k]]) == ps[k].data + Text([ps[k]][1..]);
    TextConcat(ps[..k], [ps[k]]);
    assert ps == ps[..k + 1] + ps[k + 1..];
    TextConcat(ps[..k + 1], ps[k + 1..]);
  }

  lemma TextOfEmpty(ps: seq<Piece>)
    requires AllMem(ps)
    ensures AllMem(ps + [Mem([], 0)]) && Text(ps + [Mem([], 0)]) == Text(ps)
  {
    assert Text([Mem([], 0)]) == [] + Text([Mem([], 0)][1..]) == [];
    TextConcat(ps, [Mem([], 0)]);
  }

  lemma TextOfLast(init: seq<Piece>, p: Piece)
    requires p.Mem?
    ensures Text(init + [p]) == Text(init) + p.data
  {
    assert Text([p]) == p.data + Text([p][1..]) == p.data;
    TextConcat(init, [p]);
  }

  /** Bytes added to the last piece are bytes added to the text. */
  lemma TextGrows(ps: seq<Piece>, data: seq<char>)
    requires AllMem(ps) && ps != []
    ensures var n := |ps| - 1;
            var grown := ps[n := ps[n].(data := ps[n].data + data)];
            AllMem(grown) && Text(grown) == Text(ps) + data
  {
    var n := |ps| - 1;
    var grown := ps[n := ps[n].(data := ps[n].data + data)];
    TextOfLast(ps[..n], ps[n]);
    TextOfLast(ps[..n], grown[n]);
    assert ps == ps[..n] + [ps[n]] && grown == ps[..n] + [grown[n]];
    Associative(Text(ps[..n]), ps[n].data, data);
  }

  /** The length the queue computes is exact for a text that fits 32 bits. */
  lemma {:induction false} FullTotalIsText(ps: seq<Piece>)
    requires AllMem(ps)
    ensures FullTotal(ps) == |Text(ps)|
  {
    if ps != [] {
      FullTotalIsText(ps[1..]);
    }
  }
}
