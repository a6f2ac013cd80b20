/**
 The state machine of a connection without the connection: what one round of it does, what a run of rounds
 comes to, and that the second follows from the first.
 */
module Runs {
  import opened Words
  import opened Sockets
  import opened Terminators
  import opened Fragments
  import opened Writers
  import opened ResponseHeads
  import opened Exchanges
  import opened FdEventRegistry

  const CLOSE_TIMEOUT := 4

  datatype State =
    | RequestStart | RequestEnd | Reading | HandleRequest | ResponseStart
    | Writing | ResponseEnd | Erring | Closing | Closed

  /**
   How a connection stands: its state, its flags, the times its close began and it last read and wrote, the
   bytes of the request at hand, what was said, and what crossed the socket.
   */
  datatype Stance = Stance(
    state: State, readable: bool, writeable: bool, since: int, readTs: int, writeTs: int,
    request: seq<char>, history: seq<Exchange>, asked: seq<char>, current: seq<char>, taken: seq<char>,
    answers: seq<Answer>, received: seq<char>, accepted: seq<char>)
  {
    function Last(): Answer
      requires answers != []
    {
      answers[|answers| - 1]
    }
  }

  /** The time is asked for, and reading begins. */
  ghost predicate StartRound(a: Stance, b: Stance) {
    b == a.(state := Reading, readTs := b.readTs, answers := a.answers + [TimeGave(b.readTs)])
  }

  /** A readable connection calls read() with the room that FIONREAD asks for; what it gives decides. */
  ghost predicate ReadRound(a: Stance, b: Stance, now: int, maxHead: nat) {
    if !a.readable then b == a else
      var n := |a.answers|;
      && n + 2 <= |b.answers| && a.answers <= b.answers && b.answers[n].HoldsGave? && b.answers[n + 1].ReadGave?
      && var held, x := b.answers[n].bytes, b.answers[n + 1];
         && x.room == (if held < 1024 then 1024 else held)
         && a.received <= b.received && |b.received| == |a.received| + Max(x.n, 0)
         && b.request == a.request + b.received[|a.received|..]
         && (b.history, b.current, b.taken, b.accepted) == (a.history, a.current, a.taken, a.accepted)
         && b.writeable == a.writeable && b.current == [] && b.readTs == now && b.writeTs == a.writeTs
         && (if x.n == 0 then |b.answers| == n + 3 && b.answers[n + 2] == TimeGave(b.since + (CLOSE_TIMEOUT + 1))
             else |b.answers| == n + 2 && b.since == a.since)
         && if x.n < 0 && x.errno == Other then b.state == Erring
            else if x.n < 0 then b.state == Reading && b.readable == (x.errno == Interrupted)
            else if x.n == 0 then b.state == Closing
            else
              && b.readable == (x.n == x.room)
              && if !NoEnd(b.request) then b.state == RequestEnd
                 else b.state == if |b.request| > maxHead then HandleRequest else Reading
  }

  /** A writeable connection sends until it is stopped, breaks, or is done; 2^32 bytes look like none. */
  ghost predicate WriteRound(a: Stance, b: Stance, now: int) {
    && a.taken <= a.current && |a.taken| < |a.current|
    && if |a.current| == TWO_TO_THE_32 then b == a.(state := ResponseEnd)
       else if !a.writeable then b == a
       else
         && a.answers < b.answers && (forall i | |a.answers| <= i < |b.answers| :: b.answers[i].Sends())
         && (b.history, b.request, b.current, b.received) == (a.history, a.request, a.current, a.received)
         && b.readable == a.readable && b.since == a.since && b.readTs == a.readTs
         && b.writeTs == (if b.Last().Took() then now else a.writeTs)
         && a.accepted <= b.accepted && a.taken <= b.taken <= b.current
         && b.state == (if b.Last().Breaks() then Erring else if b.Last().Stops() then Writing else ResponseEnd)
         && (b.state == Writing ==> !b.writeable)
         && (b.state == Erring ==> b.asked == b.request && |b.taken| < |b.current|)
         && (b.state == ResponseEnd ==> b.taken == b.current)
  }

  /** A finished response joins the history, and what its head said becomes of the connection. */
  ghost predicate EndRound(a: Stance, b: Stance, now: int) {
    && |b.history| == |a.history| + 1 && a.history <= b.history
    && var x := b.history[|a.history|];
       && x.request == a.request && x.response == a.current && x.sent == a.taken
       && (b.request, b.asked, b.current, b.taken) == ([], [], [], [])
       && !b.readable && !b.writeable && b.received == a.received && b.accepted == a.accepted
       && b.readTs == b.writeTs == 0
       && if SaysKeepAlive(a.current) then b.state == RequestStart && b.answers == a.answers
          else b.state == Closing && Shut(a, b, now)
  }

  /** The socket is shut down for writing; the wait for a close begins, or is over when that failed. */
  ghost predicate Shut(a: Stance, b: Stance, now: int) {
    && a.answers < b.answers && |b.answers| == |a.answers| + 1 && b.Last().ShutGave?
    && b.since == if b.Last().down then now else now - (CLOSE_TIMEOUT + 1)
  }

  ghost predicate ErrorRound(a: Stance, b: Stance, now: int) {
    && Shut(a, b, now)
    && b == a.(state := Closing, readable := false, writeable := false, request := [], since := b.since,
                readTs := 0, writeTs := 0, answers := b.answers)
  }

  /** What still comes is dropped; the end of it, a failure and the timeout close the descriptor. */
  ghost predicate CloseRound(a: Stance, b: Stance, now: int) {
    && a.answers < b.answers && |b.answers| == |a.answers| + 1 && b.Last().DropGave?
    && a.received <= b.received && |b.received| == |a.received| + Max(b.Last().n, 0)
    && b == a.(state := b.state, since := b.since, answers := b.answers, received := b.received)
    && b.state == (if b.Last().n == 0 || (b.Last().n < 0 && b.Last().errno == Other) || now - a.since > CLOSE_TIMEOUT
                   then Closed else Closing)
  }

  /** One round of the machine. */
  ghost predicate Round(a: Stance, b: Stance, now: int, maxHead: nat) {
    match a.state
    case RequestStart => StartRound(a, b)
    case Reading => ReadRound(a, b, now, maxHead)
    case RequestEnd => b == a.(state := HandleRequest)
    case HandleRequest => b == a.(state := ResponseStart)
    case ResponseStart => b == a.(state := Writing, current := b.current)
    case Writing => WriteRound(a, b, now)
    case ResponseEnd => EndRound(a, b, now)
    case Erring => ErrorRound(a, b, now)
    case Closing => CloseRound(a, b, now)
    case Closed => false
  }

  // The rounds, from what the steps of the machine say.

  lemma ReadRoundIs(a: Stance, b: Stance, now: int, maxHead: nat, x: Option<Answer>, data: seq<char>)
    requires a.state == Reading && b.received == a.received + data && b.request == a.request + data
    requires (b.history, b.taken, b.accepted, b.writeable) == (a.history, a.taken, a.accepted, a.writeable)
    requires a.current == b.current == [] && (x.None? <==> !a.readable)
    requires x.None? ==> b.state == Reading && data == [] && b.readable == a.readable && b.answers == a.answers
    requires x.None? ==> b.asked == a.asked && b.since == a.since && b.readTs == a.readTs
    requires b.writeTs == a.writeTs && (x.Some? ==> b.readTs == now)
    requires x.Some? ==>
               && x.value.ReadGave? && |data| == Max(x.value.n, 0)
               && a.answers <= b.answers && |b.answers| == |a.answers| + (if x.value.n == 0 then 3 else 2)
               && b.answers[|a.answers|].HoldsGave? && x.value == b.answers[|a.answers| + 1]
               && (if x.value.n == 0 then b.answers[|a.answers| + 2] == TimeGave(b.since + (CLOSE_TIMEOUT + 1))
                   else b.since == a.since)
               && var held := b.answers[|a.answers|].bytes; x.value.room == if held < 1024 then 1024 else held
    requires x.Some? && x.value.n < 0 && x.value.errno == Other ==> b.state == Erring
    requires x.Some? && x.value.n < 0 && x.value.errno != Other ==>
               b.state == Reading && b.readable == (x.value.errno == Interrupted)
    requires x.Some? && x.value.n == 0 ==> b.state == Closing
    requires x.Some? && x.value.n > 0 ==>
               && b.readable == (x.value.n == x.value.room)
               && match Judge(b.request, maxHead)
                  case Waiting => b.state == Reading
                  case Complete(_) => b.state == RequestEnd
                  case TooLong => b.state == HandleRequest
    ensures Round(a, b, now, maxHead)
  {
    hide NoEnd, EndOf;
    assert (a.received + data)[|a.received|..] == data;
    if x.None? {
      assert a.received + [] == a.received && a.request + [] == a.request;
    }
  }

  lemma ResponseRoundIs(a: Stance, b: Stance, now: int, maxHead: nat)
    requires a.state == ResponseStart && b == a.(state := Writing, current := b.current)
    ensures Round(a, b, now, maxHead)
  {
  }

  lemma WriteRoundIs(a: Stance, b: Stance, now: int, maxHead: nat, r: Option<WriteResult>)
    requires a.state == Writing && a.taken <= b.taken <= a.current == b.current && |a.taken| < |a.current|
    requires (b.history, b.request, b.received, b.readable, b.since, b.readTs)
          == (a.history, a.request, a.received, a.readable, a.since, a.readTs)
    requires b.writeTs ==
             if r.Some? && b.answers != [] && b.answers[|b.answers| - 1].Took() then now else a.writeTs
    requires r.Some? <==> |a.current| != TWO_TO_THE_32 && a.writeable
    requires r.None? ==> b.answers == a.answers && b.taken == a.taken && b.asked == a.asked && b.accepted == a.accepted
    requires r.None? ==> b.writeable == a.writeable
    requires r.None? ==> b.state == if |a.current| != TWO_TO_THE_32 then Writing else ResponseEnd
    requires r.Some? ==> a.answers < b.answers && (b.state == Erring <==> b.answers[|b.answers| - 1].Breaks())
    requires r.Some? ==> b.state in {Writing, ResponseEnd, Erring}
    requires r.Some? ==> (b.state == Writing <==> b.answers[|b.answers| - 1].Stops())
    requires forall i | |a.answers| <= i < |b.answers| :: b.answers[i].Sends()
    requires a.accepted <= b.accepted && (r.Some? && b.state == Writing ==> !b.writeable)
    requires b.state == Erring ==> b.asked == b.request && |b.taken| < |b.current|
    requires r.Some? && b.state == ResponseEnd ==> b.taken == b.current
    ensures Round(a, b, now, maxHead)
  {
  }

  lemma StartRoundIs(a: Stance, b: Stance, now: int, maxHead: nat)
    requires a.state == RequestStart && b.answers == a.answers + [TimeGave(b.readTs)]
    requires b == a.(state := Reading, readTs := b.readTs, answers := b.answers)
    ensures Round(a, b, now, maxHead)
  {
  }

  lemma RequestRoundIs(a: Stance, b: Stance, now: int, maxHead: nat)
    requires a.state in {RequestEnd, HandleRequest} && b == a.(state := b.state)
    requires b.state == if a.state == RequestEnd then HandleRequest else ResponseStart
    ensures Round(a, b, now, maxHead)
  {
  }

  lemma EndRoundIs(a: Stance, b: Stance, now: int, maxHead: nat)
    requires a.state == ResponseEnd
    requires exists looked :: b.history == a.history + [Exchange(a.request, looked, a.current, a.taken)]
    requires (b.request, b.asked, b.current, b.taken) == ([], [], [], [])
    requires !b.readable && !b.writeable && b.received == a.received && b.accepted == a.accepted
    requires b.readTs == b.writeTs == 0
    requires b.state in {RequestStart, Closing} && (b.state == RequestStart <==> SaysKeepAlive(a.current))
    requires b.state == RequestStart ==> b.answers == a.answers
    requires b.state == Closing ==>
               && |b.answers| == |a.answers| + 1 && a.answers <= b.answers
               && var last := b.answers[|b.answers| - 1];
                  last.ShutGave? && b.since == if last.down then now else now - (CLOSE_TIMEOUT + 1)
    ensures Round(a, b, now, maxHead)
  {
    hide SaysKeepAlive;
  }

  lemma ErrorRoundIs(a: Stance, b: Stance, now: int, maxHead: nat)
    requires a.state == Erring && |b.answers| == |a.answers| + 1 && a.answers <= b.answers
    requires var last := b.answers[|b.answers| - 1];
             last.ShutGave? && b.since == if last.down then now else now - (CLOSE_TIMEOUT + 1)
    requires b == a.(state := Closing, readable := false, writeable := false, request := [], since := b.since,
                     readTs := 0, writeTs := 0, answers := b.answers)
    ensures Round(a, b, now, maxHead)
  {
  }

  lemma CloseRoundIs(a: Stance, b: Stance, now: int, maxHead: nat, n: int, errno: Errno)
    requires a.state == Closing && a.received <= b.received && |b.received| == |a.received| + Max(n, 0)
    requires b.answers == a.answers + [DropGave(n, errno)] && b.state in {Closing, Closed}
    requires b == a.(state := b.state, since := b.since, answers := b.answers, received := b.received)
    requires b.state == Closed <==> n == 0 || (n < 0 && errno == Other) || now - a.since > CLOSE_TIMEOUT
    ensures Round(a, b, now, maxHead)
  {
  }

  /** The rounds the machine can still make: a kept connection is not readable until an event says so. */
  function Rank(state: State, readable: bool): nat {
    match state
    case RequestStart => if readable then 12 else 5
    case Reading => if readable then 11 else 4
    case RequestEnd => 10
    case HandleRequest => 9
    case ResponseStart => 8
    case Writing => 7
    case ResponseEnd => 6
    case Erring => 3
    case Closing => 2
    case Closed => 1
  }

  /** Every round stays in its state or lowers the rank. */
  lemma RankFalls(a: Stance, b: Stance, now: int, maxHead: nat)
    requires Round(a, b, now, maxHead)
    ensures b.state == a.state || Rank(b.state, b.readable) < Rank(a.state, a.readable)
  {
    hide SaysKeepAlive, NoEnd;
  }

  /**
   A request that is being answered: the exchanges before it, its bytes, the response that it gets when
   that is known already, and how many answers of the kernel came before.
   */
  datatype Work = Work(history: seq<Exchange>, request: seq<char>, response: Option<seq<char>>, from: nat)
  {
    predicate Means(whole: seq<char>) {
      response.Some? ==> whole == response.value
    }
  }

  /** The request is being answered, or it was. */
  ghost predicate Answering(w: Work, a: Stance) {
    && w.from <= |a.answers|
    && match a.state
       case RequestStart => Replied(w, a, true)
       case Reading => Replied(w, a, true)
       case Writing => a.history == w.history && a.request == w.request && w.Means(a.current)
       case ResponseEnd => a.history == w.history && a.request == w.request && w.Means(a.current)
       case Erring => Broke(w, a)
       case Closing => Broke(w, a) || Replied(w, a, false)
       case Closed => Broke(w, a) || Replied(w, a, false)
       case _ => a.history == w.history && a.request == w.request && w.response.None?
  }

  /** The response was cut off, since sending it failed. */
  ghost predicate Broke(w: Work, a: Stance) {
    && a.history == w.history && a.asked == w.request && w.Means(a.current) && a.taken < a.current
    && exists k | w.from <= k < |a.answers| :: a.answers[k].Breaks()
  }

  /** The request has its response, which said what becomes of the connection. */
  ghost predicate Replied(w: Work, a: Stance, kept: bool) {
    && w.history <= a.history && |a.history| == |w.history| + 1
    && var x := a.history[|w.history|];
       && x.request == w.request && w.Means(x.response) && (SaysKeepAlive(x.response) <==> kept)
       && (kept ==> !a.readable && a.request == [])
  }

  /** From READ to the end of a run, or on the way there. */
  ghost predicate DidRead(a: Stance, b: Stance, maxHead: nat, done: bool) {
    var n := |a.answers|;
    && n + 2 <= |b.answers| && b.answers[n].HoldsGave? && b.answers[n + 1].ReadGave?
    && var held, x := b.answers[n].bytes, b.answers[n + 1];
       && x.room == (if held < 1024 then 1024 else held)
       && |a.received| + Max(x.n, 0) <= |b.received|
       && var request := a.request + b.received[|a.received|..|a.received| + Max(x.n, 0)];
          if x.n < 0 && x.errno != Other then
            && done && b.state == Reading && b.readable == (x.errno == Interrupted)
            && |b.answers| == n + 2 && b.history == a.history && b.request == a.request
          else if x.n <= 0 then
            b.state in {Erring, Closing, Closed} && b.history == a.history && b.current == []
          else if NoEnd(request) && |request| <= maxHead then
            && done && b.state == Reading && b.readable == (x.n == x.room)
            && |b.answers| == n + 2 && b.history == a.history && b.request == request
          else Answering(Work(a.history, request, None, n + 2), b)
  }

  ghost predicate DidWrite(a: Stance, b: Stance, done: bool) {
    && a.answers < b.answers && b.answers[|a.answers|].Sends()
    && Answering(Work(a.history, a.request, Some(a.current), |a.answers|), b)
    && (b.state == Writing ==> done && b.Last().Stops())
  }

  ghost predicate Unsaid(a: Stance, b: Stance) {
    (b.history, b.asked, b.current, b.taken, b.accepted) == (a.history, a.asked, a.current, a.taken, a.accepted)
  }

  ghost predicate DidShut(a: Stance, b: Stance) {
    var n := |a.answers|;
    && |b.answers| == n + 2 && b.answers[n].ShutGave? && b.answers[n + 1].DropGave? && Unsaid(a, b)
    && var x := b.answers[n + 1];
       b.state == if !b.answers[n].down || x.n == 0 || (x.n < 0 && x.errno == Other) then Closed else Closing
  }

  ghost predicate DidDrop(a: Stance, b: Stance, now: int) {
    var n := |a.answers|;
    && |b.answers| == n + 1 && b.answers[n].DropGave? && Unsaid(a, b)
    && var x := b.answers[n];
       b.state == if x.n == 0 || (x.n < 0 && x.errno == Other) || now - a.since > CLOSE_TIMEOUT then Closed else Closing
  }

  /**
   What a run of the machine comes to. Without input or room for output, nothing. In READ, read() was called:
   the machine waits on when the call was interrupted or not ready, or when the head is not complete and not
   too long; it is over without a response when the call failed or gave 0; and else the request is answered:
   its response is in the history, or is being sent, or could not be sent. In WRITE, sending went on, until it
   was stopped, and the same holds of the response. In ERROR and in CLOSE the peer's bytes were dropped.
   */
  ghost predicate Ran(a: Stance, b: Stance, now: int, maxHead: nat) {
    && a.answers <= b.answers && a.received <= b.received && a.accepted <= b.accepted && a.history <= b.history
    && Timed(a, b, now)
    && match a.state
       case RequestStart => a.readable || StartRound(a, b)
       case Reading => if a.readable then DidRead(a, b, maxHead, true) else b == a
       case Writing =>
         |a.current| != TWO_TO_THE_32 ==> if a.writeable then DidWrite(a, b, true) else b == a
       case Erring => DidShut(a, b)
       case Closing => DidDrop(a, b, now)
       case _ => true
  }

  /**
   The times after a run: reading was `now`, or began when the clock said so; sending was `now` when bytes
   went, else when it was before, 0 standing for never since the last response.
   */
  ghost predicate Timed(a: Stance, b: Stance, now: int)
    requires a.answers <= b.answers
  {
    match b.state
    case Reading =>
      && (if b.answers == a.answers then a.state == Reading && b.readTs == a.readTs
          else b.readTs == now || b.Last() == TimeGave(b.readTs))
      && Untouched(a, b)
    case RequestEnd => Untouched(a, b)
    case HandleRequest => Untouched(a, b)
    case ResponseStart => Untouched(a, b)
    case RequestStart => b == a || (b.history != a.history && b.writeTs == 0)
    case Writing =>
      && b.writeTs == SentAt(a, b, now)
      && (b.answers != a.answers && b.Last().WriteGave? ==> !b.writeable)
    case ResponseEnd => b.writeTs == SentAt(a, b, now)
    case _ => true
  }

  /** Nothing was sent for the request at hand. */
  ghost predicate Untouched(a: Stance, b: Stance)
    requires a.answers <= b.answers
  {
    && b.writeTs == (if b.history == a.history then a.writeTs else 0)
    && (b.answers == a.answers || !b.Last().WriteGave?)
  }

  ghost function SentAt(a: Stance, b: Stance, now: int): int
    requires a.answers <= b.answers
  {
    if b.answers != a.answers && b.Last().Took() then now
    else if b.history == a.history then a.writeTs
    else 0
  }

  /** Where a run is that started at `a`. */
  ghost predicate OnTheWay(a: Stance, b: Stance, begun: bool, done: bool, now: int, maxHead: nat) {
    && a.answers <= b.answers && a.received <= b.received && a.accepted <= b.accepted && a.history <= b.history
    && Timed(a, b, now)
    && if !begun then b == a && !done else
       match a.state
       case RequestStart => a.readable || StartRound(a, b)
       case Reading => if a.readable then DidRead(a, b, maxHead, done) else done && b == a
       case Writing =>
         |a.current| != TWO_TO_THE_32 ==> if a.writeable then DidWrite(a, b, done) else done && b == a
       case Erring =>
         if done || b.state == Closed then DidShut(a, b) else b.state == Closing && Shut(a, b, now) && Unsaid(a, b)
       case Closing => (done || b.state == Closed) && DidDrop(a, b, now)
       case _ => true
  }

  lemma BeforeRun(a: Stance, now: int, maxHead: nat)
    ensures OnTheWay(a, a, false, false, now, maxHead)
  {
  }

  /** Every round goes on answering the request. */
  lemma StillAnswering(w: Work, a: Stance, b: Stance, now: int, maxHead: nat)
    requires Answering(w, a) && Round(a, b, now, maxHead) && a.answers <= b.answers
    ensures Answering(w, b)
  {
    hide SaysKeepAlive, NoEnd;
    if a.state == Writing && b.state == Erring {
      assert b.answers[|b.answers| - 1].Breaks();
    }
    if Broke(w, a) {
      var k :| w.from <= k < |a.answers| && a.answers[k].Breaks();
      assert b.answers[k].Breaks();
    }
  }

  lemma RoundGrows(a: Stance, b: Stance, now: int, maxHead: nat)
    requires Round(a, b, now, maxHead)
    ensures a.answers <= b.answers && a.received <= b.received && a.accepted <= b.accepted && a.history <= b.history
  {
    hide SaysKeepAlive, NoEnd;
  }

  /** Every round goes on with the times. */
  lemma TimedOn(a: Stance, b: Stance, c: Stance, now: int, maxHead: nat)
    requires a.answers <= b.answers && a.history <= b.history
    requires Timed(a, b, now) && Round(b, c, now, maxHead)
    ensures a.answers <= c.answers && Timed(a, c, now)
  {
    hide SaysKeepAlive, NoEnd, ReadRound, WriteRound, CloseRound, Shut;
    RoundGrows(b, c, now, maxHead);
    match b.state
    case Reading => TimedRead(a, b, c, now, maxHead);
    case Writing => TimedWrite(a, b, c, now);
    case Closing => TimedClose(a, b, c, now);
    case _ =>
  }

  lemma TimedRead(a: Stance, b: Stance, c: Stance, now: int, maxHead: nat)
    requires a.answers <= b.answers <= c.answers && a.history <= b.history
    requires b.state == Reading && Timed(a, b, now) && ReadRound(b, c, now, maxHead)
    ensures Timed(a, c, now)
  {
    hide NoEnd;
  }

  lemma TimedWrite(a: Stance, b: Stance, c: Stance, now: int)
    requires a.answers <= b.answers <= c.answers && a.history <= b.history
    requires b.state == Writing && Timed(a, b, now) && WriteRound(b, c, now)
    ensures Timed(a, c, now)
  {
    hide Answer.Sends, Answer.Breaks, Answer.Stops;
  }

  lemma TimedClose(a: Stance, b: Stance, c: Stance, now: int)
    requires a.answers <= c.answers && b.state == Closing && CloseRound(b, c, now)
    ensures Timed(a, c, now)
  {
  }

  /** One more round of a run. */
  lemma OneMoreRound(a: Stance, b: Stance, c: Stance, begun: bool, now: int, maxHead: nat)
    requires OnTheWay(a, b, begun, false, now, maxHead) && b.state != Closed && Round(b, c, now, maxHead)
    ensures OnTheWay(a, c, true, c.state == b.state, now, maxHead)
  {
    hide SaysKeepAlive, NoEnd, Answering, Timed;
    RoundGrows(b, c, now, maxHead);
    TimedOn(a, b, c, now, maxHead);
    match a.state
    case Reading =>
      if a.readable {
        if begun {
          ReadOn(a, b, c, now, maxHead);
        } else {
          ReadFirst(a, c, now, maxHead);
        }
      }
    case Writing =>
      if |a.current| != TWO_TO_THE_32 && a.writeable {
        if begun {
          WriteOn(a, b, c, now, maxHead);
        } else {
          WriteFirst(a, c, now, maxHead);
        }
      }
    case _ =>
  }

  /** The round that sends. */
  lemma WriteFirst(a: Stance, c: Stance, now: int, maxHead: nat)
    requires a.state == Writing && a.writeable && |a.current| != TWO_TO_THE_32 && Round(a, c, now, maxHead)
    ensures DidWrite(a, c, c.state == a.state)
  {
    hide Answering;
    var w := Work(a.history, a.request, Some(a.current), |a.answers|);
    BeginsAnswering(w, a);
    StillAnswering(w, a, c, now, maxHead);
  }

  /** The rounds after the one that sent. */
  lemma WriteOn(a: Stance, b: Stance, c: Stance, now: int, maxHead: nat)
    requires DidWrite(a, b, false) && b.state != Closed && Round(b, c, now, maxHead)
    ensures DidWrite(a, c, c.state == b.state)
  {
    hide SaysKeepAlive, NoEnd;
    RoundGrows(b, c, now, maxHead);
    StillAnswering(Work(a.history, a.request, Some(a.current), |a.answers|), b, c, now, maxHead);
  }

  lemma BeginsAnswering(w: Work, a: Stance)
    requires a.state in {Writing, RequestEnd, HandleRequest} && w.history == a.history && w.request == a.request
    requires w.from <= |a.answers| && w.response == if a.state == Writing then Some(a.current) else None
    ensures Answering(w, a)
  {
  }

  /** The round that reads. */
  lemma ReadFirst(a: Stance, c: Stance, now: int, maxHead: nat)
    requires a.state == Reading && a.readable && Round(a, c, now, maxHead)
    ensures DidRead(a, c, maxHead, c.state == a.state)
  {
    hide NoEnd, Answering;
    var n := |a.answers|;
    assert c.received[|a.received|..] == c.received[|a.received|..|c.received|];
    assert a.request + [] == a.request;
    if c.state in {RequestEnd, HandleRequest} {
      BeginsAnswering(Work(a.history, c.request, None, n + 2), c);
    }
  }

  /** The rounds after the one that read. */
  lemma ReadOn(a: Stance, b: Stance, c: Stance, now: int, maxHead: nat)
    requires a.state == Reading && a.readable && a.answers <= b.answers && a.received <= b.received
    requires DidRead(a, b, maxHead, false) && b.state != Closed && Round(b, c, now, maxHead)
    ensures DidRead(a, c, maxHead, c.state == b.state)
  {
    hide NoEnd, Answering, SaysKeepAlive;
    RoundGrows(b, c, now, maxHead);
    var n := |a.answers|;
    var x := b.answers[n + 1];
    var to := |a.received| + Max(x.n, 0);
    assert c.received[|a.received|..to] == b.received[|a.received|..to];
    var request := a.request + b.received[|a.received|..to];
    if x.n > 0 && !(NoEnd(request) && |request| <= maxHead) {
      StillAnswering(Work(a.history, request, None, n + 2), b, c, now, maxHead);
    }
  }

  /** A run that is over came to what it should. */
  lemma RunEnds(a: Stance, b: Stance, begun: bool, done: bool, now: int, maxHead: nat)
    requires OnTheWay(a, b, begun, done, now, maxHead) && (done || b.state == Closed) && a.state != Closed
    requires b.state in {Reading, Writing, Closing, Closed}
    ensures Ran(a, b, now, maxHead)
  {
    hide NoEnd, SaysKeepAlive, Timed;
    if a.state == Reading && a.readable {
      ReadEnds(a, b, maxHead, done);
    }
  }

  lemma ReadEnds(a: Stance, b: Stance, maxHead: nat, done: bool)
    requires DidRead(a, b, maxHead, done) && (done || b.state == Closed)
    ensures DidRead(a, b, maxHead, true)
  {
    hide NoEnd, Answering;
  }

  lemma RanToo(a: Stance, b: Stance, now: int, maxHead: nat)
    requires Ran(a, b, now, maxHead)
    ensures a.history <= b.history && a.answers <= b.answers
    ensures a.state == RequestStart && !a.readable ==> b.state == Reading
    ensures a.state in {Erring, Closing} ==> b.state in {Closing, Closed}
  {
    hide NoEnd, SaysKeepAlive, DidRead, DidWrite;
  }

  /** What events make of a connection before its machine runs; a hangup in CLOSE moves the time its close began. */
  ghost predicate Told(a: Stance, b: Stance, events: Mask) {
    && b == a.(readable := a.readable || events & EPOLLIN != 0, writeable := a.writeable || events & EPOLLOUT != 0,
               state := b.state, asked := b.asked, since := b.since, answers := b.answers)
    && b.answers == a.answers + (if events & EPOLLHUP != 0 && a.state == Closing
                                 then [TimeGave(b.since + (CLOSE_TIMEOUT + 1))] else [])
    && b.state == (if events & EPOLLHUP != 0 then (if a.state == Closing then Closing else Erring)
                   else if events & EPOLLERR != 0 then Erring else a.state)
    && (b.state == Erring && a.state in {Reading, Writing} ==> b.asked == a.request)
    && (b.state != Erring ==> b.asked == a.asked)
    && (!(events & EPOLLHUP != 0 && a.state == Closing) ==> b.since == a.since)
  }

  lemma ToldIs(a: Stance, b: Stance, events: Mask)
    requires a.state in {Reading, Writing, Closing} && b.state in {a.state, Erring}
    requires b == a.(readable := a.readable || events & EPOLLIN != 0,
                     writeable := a.writeable || events & EPOLLOUT != 0,
                     state := b.state, asked := b.asked, since := b.since, answers := b.answers)
    requires b.answers == a.answers + if events & EPOLLHUP != 0 && a.state == Closing
                                      then [TimeGave(b.since + (CLOSE_TIMEOUT + 1))] else []
    requires b.state == Erring <==> if events & EPOLLHUP != 0 then a.state != Closing else events & EPOLLERR != 0
    requires b.asked == a.asked || (b.state == Erring && (a.state in {Reading, Writing} ==> b.asked == a.request))
    requires b.state == Erring && a.state in {Reading, Writing} ==> b.asked == a.request
    requires !(events & EPOLLHUP != 0 && a.state == Closing) ==> b.since == a.since
    requires b.state != Erring ==> b.asked == a.asked
    ensures Told(a, b, events)
  {
  }
}
