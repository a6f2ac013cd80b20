/** The accept loop's bookkeeping in src/main.cpp: which worker gets a connection, and who is still there. */
module Dispatchers {
  import opened Words

  const MAX_SENT := 0xFFFF_FFFF

  function Sum(s: seq<Uint32>): nat {
    if s == [] then 0 else Sum(s[..|s| - 1]) + s[|s| - 1]
  }

  lemma {:induction false} SumUpdate(s: seq<Uint32>, i: nat, v: Uint32)
    requires i < |s|
    ensures Sum(s[i := v]) == Sum(s) - s[i] + v
  {
    var n := |s| - 1;
    if i < n {
      SumUpdate(s[..n], i, v);
      assert s[i := v][..n] == s[..n][i := v];
    } else {
      assert s[i := v][..n] == s[..n];
    }
  }

  lemma {:induction false} SumZero(s: seq<Uint32>)
    requires forall i | 0 <= i < |s| :: s[i] == 0
    ensures Sum(s) == 0
  {
    if s != [] {
      SumZero(s[..|s| - 1]);
    }
  }

  /** The running workers differ by at most one connection, and earlier ones are never behind. */
  ghost predicate Balanced(sent: seq<Uint32>, running: seq<bool>)
    requires |sent| == |running|
  {
    forall i, j | 0 <= i < j < |sent| && running[i] && running[j] :: sent[j] <= sent[i] && sent[i] - sent[j] <= 1
  }

  /** What the scan for a worker finds: the first of the running workers with the fewest connections. */
  ghost predicate Picked(sent: seq<Uint32>, running: seq<bool>, i: nat)
    requires |sent| == |running|
  {
    && i < |sent| && running[i] && sent[i] < MAX_SENT
    && (forall k | 0 <= k < |sent| && running[k] :: sent[i] <= sent[k])
    && (forall k | 0 <= k < i && running[k] :: sent[i] < sent[k])
  }

  lemma PickKeepsBalance(sent: seq<Uint32>, running: seq<bool>, i: nat)
    requires |sent| == |running| && Balanced(sent, running) && Picked(sent, running, i)
    ensures Balanced(sent[i := sent[i] + 1], running)
  {
  }

  /** What sendmsg() said of handing a connection to a worker. */
  datatype Handover = Handover(worker: nat, ok: bool)

  /** The connections that a worker was given. */
  function Given(handovers: seq<Handover>, i: nat): nat {
    if handovers == [] then 0
    else Given(handovers[..|handovers| - 1], i) + if handovers[|handovers| - 1] == Handover(i, true) then 1 else 0
  }

  lemma OneMoreGiven(before: seq<Handover>, start: nat, x: Handover, i: nat)
    requires start <= |before|
    ensures var all := (before + [x])[start..];
            Given(all, i) == Given(before[start..], i) + if x == Handover(i, true) then 1 else 0
  {
    assert (before + [x])[start..] == before[start..] + [x];
    assert (before[start..] + [x])[..|before| - start] == before[start..];
  }

  /** What the accept loop wakes up for. */
  datatype Event = Accepted | Exited(pid: int)

  /** The connections that were accepted. */
  function AcceptedIn(events: seq<Event>): nat {
    if events == [] then 0 else AcceptedIn(events[..|events| - 1]) + if events[|events| - 1].Accepted? then 1 else 0
  }

  lemma OneMoreEvent(events: seq<Event>, n: nat)
    requires n < |events|
    ensures AcceptedIn(events[..n + 1]) == AcceptedIn(events[..n]) + if events[n].Accepted? then 1 else 0
  {
    assert events[..n + 1][..n] == events[..n];
  }

  class Dispatcher {
    const workerNumber: nat
    const pid: array<int>
    const sent: array<Uint32>   // sent_connection_number
    const running: array<bool>  // worker_running
    ghost var delivered: nat    // connections handed to a worker
    ghost var handovers: seq<Handover>  // what sendmsg() said, each time

    ghost predicate Valid()
      reads this, sent, running
    {
      && pid.Length == sent.Length == running.Length == workerNumber
      && Sum(sent[..]) == delivered && Balanced(sent[..], running[..])
    }

    /** All workers were forked and none has a connection yet. */
    constructor (pids: seq<int>)
      ensures Valid() && workerNumber == |pids| && pid[..] == pids && delivered == 0 && handovers == []
      ensures fresh(pid) && fresh(sent) && fresh(running)
      ensures forall i | 0 <= i < workerNumber :: running[i] && sent[i] == 0
    {
      workerNumber := |pids|;
      pid := new int[|pids|](i requires 0 <= i < |pids| => pids[i]);
      sent := new Uint32[|pids|](_ => 0);
      running := new bool[|pids|](_ => true);
      delivered, handovers := 0, [];
      new;
      SumZero(sent[..]);
    }

    /** The scan; the worker number itself stands for nobody. A worker at the largest count is never picked. */
    method PickWorker() returns (pick: nat)
      requires Valid()
      ensures pick < workerNumber ==> Picked(sent[..], running[..], pick)
      ensures pick >= workerNumber ==> forall k | 0 <= k < workerNumber && running[k] :: sent[k] == MAX_SENT
    {
      pick := workerNumber;
      var min: Uint32 := MAX_SENT;
      for id := 0 to workerNumber
        invariant pick == workerNumber ==> min == MAX_SENT
        invariant pick != workerNumber ==> pick < id && running[pick] && sent[pick] == min < MAX_SENT
        invariant forall k | 0 <= k < id && running[k] :: min <= sent[k]
        invariant forall k | 0 <= k < id && k < pick && pick != workerNumber && running[k] :: min < sent[k]
      {
        if sent[id] < min && running[id] {
          min := sent[id];
          pick := id;
        }
      }
    }

    /** sendmsg() of a descriptor to a worker. */
    method HandOver(worker: nat) returns (ok: bool)
      modifies `handovers
      ensures handovers == old(handovers) + [Handover(worker, ok)]
    {
      ok := *;
      handovers := handovers + [Handover(worker, ok)];
    }

    /**
     A connection was accepted: the picked worker is sent it, and its count grows unless that failed. Nobody
     is sent it only when every running worker is at the largest count.
     */
    method Accept() returns (pick: nat, handed: bool)
      requires Valid()
      modifies sent, `delivered, `handovers
      ensures Valid()
      ensures pick < workerNumber ==>
                Picked(old(sent[..]), running[..], pick) && handovers == old(handovers) + [Handover(pick, handed)]
      ensures pick >= workerNumber ==>
                && !handed && handovers == old(handovers)
                && forall k | 0 <= k < workerNumber && running[k] :: sent[k] == MAX_SENT
      ensures handed ==> sent[..] == old(sent[..])[pick := old(sent[pick]) + 1]
      ensures !handed ==> sent[..] == old(sent[..])
      ensures delivered == old(delivered) + if handed then 1 else 0
    {
      pick := PickWorker();
      handed := false;
      if pick >= workerNumber {
        return;
      }
      handed := HandOver(pick);
      if handed {
        CountOne(pick);
      }
    }

    /** The picked worker has one connection more. */
    method CountOne(pick: nat)
      requires Valid() && Picked(sent[..], running[..], pick)
      modifies sent, `delivered
      ensures Valid() && sent[..] == old(sent[..])[pick := old(sent[pick]) + 1]
      ensures delivered == old(delivered) + 1
    {
      hide Picked, Balanced;
      PickedCounts(pick);
      SumUpdate(sent[..], pick, sent[pick] + 1);
      PickKeepsBalance(sent[..], running[..], pick);
      ghost var before := sent[..];
      sent[pick] := sent[pick] + 1;
      assert sent[..] == before[pick := before[pick] + 1];
      delivered := delivered + 1;
    }

    lemma PickedCounts(pick: nat)
      requires Valid() && Picked(sent[..], running[..], pick)
      ensures pick < workerNumber && sent[pick] < MAX_SENT && sent[..][pick] == sent[pick]
    {
    }

    /** A worker exited: it gets no more connections. */
    method WorkerExit(exited: int)
      requires Valid()
      modifies running
      ensures Valid()
      ensures forall i | 0 <= i < workerNumber :: running[i] == (old(running[i]) && pid[i] != exited)
    {
      for id := 0 to workerNumber
        invariant forall i | 0 <= i < workerNumber ::
            running[i] == (old(running[i]) && (i < id ==> pid[i] != exited))
      {
        if pid[id] == exited {
          running[id] := false;
        }
      }
    }

    /**
     Any run of the accept loop: each worker's count grows by the connections it was given, a worker runs
     on exactly when it did not exit, and while one that is not at the largest count runs, every connection
     that is accepted is handed to somebody.
     */
    method Run(events: seq<Event>)
      requires Valid()
      modifies sent, running, `delivered, `handovers
      ensures Valid() && old(handovers) <= handovers
      ensures forall i | 0 <= i < workerNumber ::
                && running[i] == (old(running[i]) && Exited(pid[i]) !in events)
                && sent[i] == old(sent[i]) + Given(handovers[|old(handovers)|..], i)
                && (running[i] && sent[i] < MAX_SENT ==> |handovers| == |old(handovers)| + AcceptedIn(events))
    {
      ghost var start := |handovers|;
      for n := 0 to |events|
        invariant Valid() && old(handovers) <= handovers
        invariant forall i | 0 <= i < workerNumber :: running[i] == (old(running[i]) && Exited(pid[i]) !in events[..n])
        invariant forall i | 0 <= i < workerNumber :: sent[i] == old(sent[i]) + Given(handovers[start..], i)
        invariant forall i | 0 <= i < workerNumber && running[i] && sent[i] < MAX_SENT ::
                    |handovers| == start + AcceptedIn(events[..n])
      {
        OneMoreEvent(events, n);
        match events[n]
        case Exited(exited) => WorkerExit(exited);
        case Accepted =>
          ghost var before := handovers;
          var pick, handed := Accept();
          if pick < workerNumber {
            forall i | 0 <= i < workerNumber
              ensures Given(handovers[start..], i)
                   == Given(before[start..], i) + if handed && i == pick then 1 else 0
            {
              OneMoreGiven(before, start, Handover(pick, handed), i);
            }
          }
      }
      assert events[..|events|] == events;
    }
  }
}
