/** One client connection: its state machine, its two queues, and what crossed its socket. */
module Connections {
  import opened Words
  import opened Buffers
  import opened Pieces
  import opened ChunkQueues
  import opened Sockets
  import opened Terminators
  import opened Fragments
  import opened Readers
  import opened Writers
  import opened Requests
  import opened RequestParsers
  import opened RequestRoundTrip
  import opened KeyMaps
  import opened ResponseHeads
  import opened ResponsePrinters
  import opened Mimes
  import opened FdEventRegistry
  import opened Exchanges
  import opened FileSizes
  import opened ResponseQueues
  import opened Runs

  /** Who handles the events of a descriptor. */
  datatype Handler = UnixSocket | Timer | OfConnection(conn: Connection)

  /** What a descriptor is watched for while its connection rests. */
  function Wanted(state: State): Mask {
    if state == Writing then EPOLLOUT else EPOLLIN
  }

  lemma HasBits(events: Mask)
    ensures Has(events, EPOLLHUP) <==> events & EPOLLHUP != 0
    ensures Has(events, EPOLLERR) <==> events & EPOLLERR != 0
    ensures Has(events, EPOLLIN) <==> events & EPOLLIN != 0
    ensures Has(events, EPOLLOUT) <==> events & EPOLLOUT != 0
  {
  }

  /** An error or a hangup is neither input nor output. */
  lemma OtherBits(events: Mask)
    ensures Has(events, EPOLLHUP) || Has(events, EPOLLERR) ==> Has(events, !(EPOLLIN | EPOLLOUT))
  {
  }

  lemma Bounds()
    ensures 0x1_0000 <= MAX_LISTING && 0x1_0000 <= MAX_NAME && 600 < TWO_TO_THE_32
  {
  }

  /** Where a verdict on the bytes read leads to. */
  function AfterJudge(v: Verdict): State {
    match v
    case Waiting => Reading
    case Complete(_) => RequestEnd
    case TooLong => HandleRequest
  }

  /** No response is on its way any more. */
  predicate Over(state: State) {
    state in {Erring, Closing, Closed}
  }

  /** A body is queued for a successful request only, and its type fits in a head. */
  ghost predicate BodyQueued(
    ps: seq<Piece>, httpStatus: nat, bodyFinished: bool, keepAlive: bool, contentType: Option<string>)
  {
    && Answered(httpStatus) && bodyFinished == (httpStatus == 200) && (Refused(httpStatus) ==> !keepAlive)
    && (ps != [] ==> |ps| == 1 && ps[0].sent == 0 && MemTotal(ps) < MAX_LISTING && httpStatus == 200)
    && TypeFits(contentType)
  }

  /** The head said what will happen to the connection, and a request that could not be read ends it. */
  ghost predicate Promised(
    received: seq<char>, config: Config, files: Files, looked: Option<Lookup>, current: seq<char>, keepAlive: bool,
    httpStatus: nat)
  {
    && Replies(received, config, files, looked, current) && (SaysKeepAlive(current) <==> keepAlive)
    && (Refused(httpStatus) ==> !keepAlive) && 0 < |current| < 2 * TWO_TO_THE_32
  }

  class Connection {
    const connectionIndex: nat
    const fd: int
    const sock: Socket
    const config: Config
    const files: Files

    var state: State
    var startTs: int
    var activeReadTs: int
    var activeWriteTs: int
    var closeTimeoutTs: int
    var readable: bool
    var writeable: bool
    var keepAlive: bool
    var httpStatus: nat
    var bodyFinished: bool
    const readqueue: ChunkQueue
    const writequeue: ChunkQueue

    const content: Buffer  // request_content
    var request: Request
    var response: Response

    ghost var history: seq<Exchange>  // the finished exchanges
    ghost var looked: Option<Lookup>  // what the file system was asked for the request at hand
    ghost var current: seq<char>      // the response being sent, or cut off
    ghost var asked: seq<char>        // when it was cut off, the bytes read for it
    ghost var taken: seq<char>        // what of it the socket took
  
    constructor (index: nat, fd: int, config: Config, files: Files)
      requires config.Valid()
      ensures Inv() && fresh(Repr()) && state == RequestStart && !readable && !writeable
      ensures connectionIndex == index && this.fd == fd && this.config == config && this.files == files
      ensures history == [] && activeWriteTs == 0
    {
      hide ChunkQueue.Valid, Buffer.Valid, Config.Valid, Inv;
      connectionIndex, this.fd, this.config, this.files := index, fd, config, files;
      sock := new Socket();
      readqueue := new ChunkQueue();
      writequeue := new ChunkQueue();
      content := new Buffer();
      state, startTs, activeReadTs, activeWriteTs, closeTimeoutTs := RequestStart, 0, 0, 0, 0;
      readable, writeable, keepAlive, httpStatus, bodyFinished := false, false, false, 0, false;
      request, response := NO_REQUEST, NO_RESPONSE;
      history, looked, current, asked, taken := [], None, [], [], [];
      new;
      Begins();
    }

    lemma Begins()
      requires config.Valid() && readqueue.Valid() && writequeue.Valid() && content.Valid()
      requires this !in Parts() && sock !in Parts()
      requires content.Repr() !! readqueue.Repr && content.Repr() !! writequeue.Repr
      requires readqueue.Repr !! writequeue.Repr
      requires readqueue.pieces == [] && writequeue.pieces == [] && sock.accepted == sock.received == []
      requires history == []
      requires state == RequestStart && Idle() && Unused()
      ensures Inv()
    {
      hide ChunkQueue.Valid, Buffer.Valid, Config.Valid;
      NothingQueued();
    }

    /** The queues and the request's bytes. */
    ghost function Parts(): set<object>
      reads readqueue, writequeue, content
    {
      content.Repr() + readqueue.Repr + writequeue.Repr
    }

    ghost function Repr(): set<object>
      reads readqueue, writequeue, content
    {
      {this, sock} + Parts()
    }

    /** The bytes read since the connection was last reset. */
    ghost function Received(): seq<char>
      reads readqueue`pieces
    {
      Text(readqueue.pieces)
    }

    /** How the connection stands. */
    ghost function Now(): Stance
      reads `state, `readable, `writeable, `closeTimeoutTs, `activeReadTs, `activeWriteTs
      reads `history, `asked, `current, `taken
      reads sock`answers, sock`received, sock`accepted, readqueue`pieces
    {
      Stance(state, readable, writeable, closeTimeoutTs, activeReadTs, activeWriteTs, Received(), history,
             asked, current, taken, sock.answers, sock.received, sock.accepted)
    }

    /** The parts are valid and do not overlap. */
    ghost predicate Shape()
      reads readqueue, writequeue, content, Parts()
    {
      && config.Valid()
      && readqueue.Valid() && writequeue.Valid() && content.Valid()
      && this !in Parts() && sock !in Parts()
      && content.Repr() !! readqueue.Repr && content.Repr() !! writequeue.Repr && readqueue.Repr !! writequeue.Repr
      && AllMem(readqueue.pieces) && Answerable(Received())
      && SmallQueue(writequeue.pieces)
    }

    /** Nothing is being sent. */
    ghost predicate Idle()
      reads `current, `taken, writequeue`pieces
    {
      writequeue.pieces == [] && current == [] && taken == []
    }

    /** Nothing is left of an earlier request. */
    ghost predicate Unused()
      reads `httpStatus, `bodyFinished, `keepAlive, `request
    {
      httpStatus == 0 && !bodyFinished && !keepAlive && request.options.connection == Unset &&
          request.version == VersionUnset
    }

    /** What is queued is the body that is due for the request at hand. */
    ghost predicate BodyDue()
      reads `httpStatus, `keepAlive, `request, `response, `looked, readqueue`pieces, writequeue`pieces
    {
      Due(Received(), config, files, looked, request.version, httpStatus, keepAlive,
          Stream(files, writequeue.pieces), response.contentType)
    }

    /** A response that was cut off is the one that was due for the bytes read for it. */
    ghost predicate CutOff(rest: seq<char>)
      reads `looked, `current
    {
      current == [] || Replies(rest, config, files, looked, current)
    }

    /** The bytes read for the response at hand: they are still queued, or remembered when it is over. */
    ghost function AtHand(): seq<char>
      reads `state, `asked, readqueue`pieces
    {
      if Over(state) then asked else Received()
    }

    /** What each state of the machine stands for. */
    ghost predicate StateInv()
      reads `state, `httpStatus, `bodyFinished, `keepAlive, `request, `response
      reads `looked, `history, `current, `asked, `taken
      reads readqueue`pieces, writequeue`pieces, content, content.ptr
      requires content.Valid()
    {
      match state
      case RequestStart => Idle() && Unused() && readqueue.pieces == []
      case Reading => Idle() && Unused() && Judge(Received(), config.maxHead) == Waiting
      case RequestEnd => Idle() && Unused() && Judge(Received(), config.maxHead) == Verdict.Complete(content.Contents())
      case HandleRequest =>
        Idle() && !bodyFinished && Understood(Received(), config, httpStatus, keepAlive, request)
      case ResponseStart =>
        && current == [] && taken == [] &&
            BodyQueued(writequeue.pieces, httpStatus, bodyFinished, keepAlive, response.contentType)
        && BodyDue()
      case Writing =>
        bodyFinished && Promised(Received(), config, files, looked, current, keepAlive, httpStatus) &&
            Sending(files, writequeue.pieces, current, taken)
      case ResponseEnd =>
        bodyFinished && Promised(Received(), config, files, looked, current, keepAlive, httpStatus) &&
            Finished(writequeue.pieces, current, taken)
      case Erring => CutOff(asked)
      case Closing => CutOff(asked) && writequeue.pieces == []
      case Closed => CutOff(asked)
    }

    /** What the peer said and was told so far; `rest` are the bytes of the request at hand. */
    ghost predicate Talk(over: bool, rest: seq<char>)
      reads `history, `current, `taken, sock`accepted, sock`received
    {
      && Delivered(sock.accepted, history, current, taken) && Heard(sock.received, history, rest, over)
      && Kept(history, config, files, over)
    }

    ghost predicate Inv()
      reads `state, `httpStatus, `bodyFinished, `keepAlive, `request, `response
      reads `looked, `history, `current, `asked, `taken
      reads sock`accepted, sock`received, readqueue, writequeue, content, Parts()
    {
      Shape() && Talk(Over(state), AtHand()) && StateInv()
    }
  
    /** The parts apart from the connection itself. */
    lemma Apart()
      requires Shape()
      ensures allocated(Parts())
      ensures this !in Parts() && sock !in Parts() && readqueue in Parts() && writequeue in Parts()
      ensures content in Parts()
      ensures content.Valid() && Answerable(Received()) && config.Valid()
      ensures readqueue.Repr !! writequeue.Repr && content.Repr() !! readqueue.Repr && content.Repr() !! writequeue.Repr
      ensures readqueue.Valid() && writequeue.Valid()
      ensures this !in readqueue.Repr && this !in writequeue.Repr && sock !in readqueue.Repr && sock !in writequeue.Repr
      ensures writequeue !in readqueue.Repr && readqueue !in writequeue.Repr && content !in readqueue.Repr
      ensures content !in writequeue.Repr
      ensures readqueue !in content.Repr() && writequeue !in content.Repr() && this !in content.Repr()
      ensures sock !in content.Repr()
      ensures content.ptr != null ==>
                content.ptr in Parts() && content.ptr !in readqueue.Repr && content.ptr !in writequeue.Repr
      ensures Repr() == {this, sock} + Parts() && readqueue.Repr <= Parts() && writequeue.Repr <= Parts()
      ensures content.Repr() <= Parts()
    {
      hide ChunkQueue.Valid, Buffer.Valid, Text, AllMem, SmallQueue, Answerable, Config.Valid;
    }

    // What holds on entry to a state, and what it takes to enter one.

    lemma InRequestStart()
      requires Inv() && state == RequestStart
      ensures Shape() && Talk(false, Received()) && Idle() && Unused() && readqueue.pieces == []
    {
      hide Shape, Talk, Promised, Sending, Finished, Understood, BodyQueued, BodyDue, Judge, Text, Buffer.Valid;
    }

    lemma ToReading()
      requires state == Reading && Shape() && Talk(false, Received()) && Idle() && Unused()
      requires Judge(Received(), config.maxHead) == Waiting
      ensures Inv()
    {
      hide Shape, Talk, Promised, Sending, Finished, Understood, BodyQueued, BodyDue, Judge, Text, Buffer.Valid;
    }

    lemma InReading()
      requires Inv() && state == Reading
      ensures Shape() && Talk(false, Received()) && Idle() && Unused()
      ensures Judge(Received(), config.maxHead) == Waiting && |Received()| <= config.maxHead && writequeue.pieces == []
    {
      hide Shape, Talk, Promised, Sending, Finished, Understood, BodyQueued, BodyDue, Judge, Text, Buffer.Valid;
      WaitingIsShort(Received(), config.maxHead);
    }

    lemma ToErring()
      requires state == Erring && Shape() && Talk(true, asked) && CutOff(asked)
      ensures Inv()
    {
      hide Shape, Talk, Promised, Sending, Finished, Understood, BodyQueued, BodyDue, Judge, Text, Buffer.Valid;
    }

    /** What was going on is over: the bytes read for the response at hand are remembered. */
    ghost method CutShort(over: bool, rest: seq<char>)
      requires Talk(over, rest) && CutOff(rest)
      modifies `asked
      ensures asked == rest && Talk(true, asked) && CutOff(asked)
    {
      hide Fits, SaysKeepAlive, Replies, Text;
      asked := rest;
    }

    /** connection_set_state(conn, CON_STATE_ERROR), from a state that waits for the socket. */
    method Fail()
      requires Shape() && Talk(false, Received()) && CutOff(Received())
      modifies `state, `asked
      ensures Inv() && state == Erring && asked == Received() && CutOff(asked)
    {
      hide *;
      Apart();
      CutShort(false, Received());
      state := Erring;
      ToErring();
    }

    /** The peer closed its side: there is nothing to wait for, from the time on that is asked for. */
    method StopReading()
      requires Shape() && Talk(false, Received()) && CutOff(Received()) && writequeue.pieces == []
      modifies `state, `closeTimeoutTs, `asked, sock`answers
      ensures Inv() && state == Closing
      ensures sock.answers == old(sock.answers) + [TimeGave(closeTimeoutTs + (CLOSE_TIMEOUT + 1))]
    {
      hide *;
      Apart();
      CutShort(false, Received());
      state := Closing;
      var time := sock.Time();
      closeTimeoutTs := time - (CLOSE_TIMEOUT + 1);
      ToClosing();
    }

    lemma NothingCut(rest: seq<char>)
      requires Idle()
      ensures CutOff(rest)
    {
    }

    lemma ToClosing()
      requires state == Closing && Shape() && Talk(true, asked) && CutOff(asked) && writequeue.pieces == []
      ensures Inv()
    {
      hide Shape, Talk, Promised, Sending, Finished, Understood, BodyQueued, BodyDue, Judge, Text, Buffer.Valid;
    }

    lemma ToRequestEnd()
      requires state == RequestEnd && Shape() && Talk(false, Received()) && Idle() && Unused() && content.Valid()
      requires Judge(Received(), config.maxHead) == Verdict.Complete(content.Contents())
      ensures Inv()
    {
      hide Shape, Talk, Promised, Sending, Finished, Understood, BodyQueued, BodyDue, Judge, Text, Buffer.Valid;
    }

    lemma InRequestEnd()
      requires Inv() && state == RequestEnd
      ensures Shape() && Talk(false, Received()) && Idle() && Unused() && !bodyFinished
      ensures request.options.connection == Unset
      ensures content.Valid() && Judge(Received(), config.maxHead) == Verdict.Complete(content.Contents())
    {
      hide Shape, Talk, Promised, Sending, Finished, Understood, BodyQueued, BodyDue, Judge, Text, Buffer.Valid;
      Apart();
    }

    lemma ToHandleRequest()
      requires state == HandleRequest && Shape() && Talk(false, Received()) && Idle() && !bodyFinished
      requires Understood(Received(), config, httpStatus, keepAlive, request)
      ensures Inv()
    {
      hide Shape, Talk, Promised, Sending, Finished, Understood, BodyQueued, BodyDue, Judge, Text, Buffer.Valid;
    }

    /** CON_STATE_REQUEST_START. */
    method StartStep()
      requires Inv() && state == RequestStart
      modifies `state, `startTs, `activeReadTs, sock`answers
      ensures Inv() && state == Reading && activeReadTs == startTs
      ensures sock.answers == old(sock.answers) + [TimeGave(startTs)]
    {
      hide *;
      InRequestStart();
      Apart();
      startTs := sock.Time();
      activeReadTs := startTs;
      NothingRead();
      state := Reading;
      ToReading();
    }

    lemma NothingRead()
      requires readqueue.pieces == []
      ensures Judge(Received(), config.maxHead) == Waiting
    {
    }

    lemma TalkIs(over: bool, rest: seq<char>)
      requires Talk(over, rest)
      ensures Delivered(sock.accepted, history, current, taken) && Heard(sock.received, history, rest, over)
      ensures Kept(history, config, files, over)
    {
    }

    /**
     In every state, what the peer reads from the bytes it got: the responses of all exchanges, and the front
     part of the one that is being sent or was cut off.
     */
    lemma PeerReadsHistory()
      requires Inv()
      ensures ReadResponses(sock.accepted) == Responses(history) + (if NoEnd(taken) then [] else [taken]) <==>
                AllServed(history, files, taken)
    {
      hide *;
      InAnyState();
      var over := Over(state);
      TalkIs(over, AtHand());
      WholeResponse(AtHand());
      PeerReads(config, files, sock.accepted, history, over, current, taken);
    }

    lemma WholeResponse(rest: seq<char>)
      requires CutOff(rest)
      ensures current == [] || IsResponse(current)
    {
      hide IsResponse;
      if current != [] {
        DelimitedWhen(rest, config, files, looked, current);
      }
    }

    /** What was read belongs to the request at hand. */
    lemma HearsMore(received: seq<char>, rest: seq<char>, data: seq<char>)
      requires Delivered(sock.accepted, history, current, taken) && Heard(received, history, rest, false)
      requires Kept(history, config, files, false) && sock.received == received + data && Received() == rest + data
      ensures Talk(false, Received())
    {
      hide Kept, Delivered, Text;
      Associative(Asked(history), rest, data);
    }

    lemma RoomLeft()
      requires Shape() && |Received()| <= config.maxHead
      ensures |Received()| + 0x8000_0000 + 2 <= MAX_ALIGNED
    {
    }

    /** connection_handle_read() on the parts. */
    method Receive() returns (r: ReadResult, more: bool, ghost data: seq<char>, ghost answer: Answer)
      requires Shape() && |Received()| <= config.maxHead
      modifies readqueue.Repr, sock
      ensures Shape() && forall o | o in Parts() :: o in old(Parts()) || fresh(o)
      ensures Received() == old(Received()) + data && sock.received == old(sock.received) + data
      ensures sock.accepted == old(sock.accepted) && old(sock.answers) <= sock.answers
      ensures |sock.answers| == |old(sock.answers)| + 2 && sock.answers[|old(sock.answers)|].HoldsGave?
      ensures answer == sock.answers[|old(sock.answers)| + 1] && answer.ReadGave?
      ensures |Received()| + 2 <= MAX_ALIGNED && |data| == Max(answer.n, 0)
      ensures answer.room == if sock.answers[|old(sock.answers)|].bytes < 1024 then 1024
                             else sock.answers[|old(sock.answers)|].bytes
      ensures r == if answer.n > 0 then Got(answer.n, answer.n == answer.room)
                   else if answer.n == 0 then AtEnd
                   else if answer.errno == Interrupted then NotReady(true)
                   else if answer.errno == WouldBlock then NotReady(false)
                   else Failed
      ensures more == (answer.n == answer.room || (answer.n < 0 && answer.errno == Interrupted))
    {
      hide ChunkQueue.Valid, ChunkQueue.FullBlock, Buffer.Valid, Text, AllMem, SmallQueue, Answerable, Config.Valid;
      RoomLeft();
      ghost var held;
      r, more, data, held, answer := HandleRead(readqueue, sock, Received());
    }

    /** The verdict on the bytes received; a complete head is copied to `content`. */
    method JudgeReceived() returns (v: Verdict)
      requires Shape() && |Received()| + 2 <= MAX_ALIGNED
      modifies content.Repr()
      ensures Shape() && forall o | o in Parts() :: o in old(Parts()) || fresh(o)
      ensures Received() == old(Received()) && writequeue.pieces == old(writequeue.pieces)
      ensures v == Judge(Received(), config.maxHead)
      ensures v.Complete? ==> content.Valid() && content.Contents() == v.head
    {
      hide ChunkQueue.Valid, Buffer.Valid, Text, AllMem, SmallQueue, Answerable, Judge, Config.Valid;
      v := JudgeRead(readqueue, config.maxHead, content);
    }

    /**
     CON_STATE_READ: one read of the socket, `a`, and the verdict on everything read so far. The bytes go
     behind those read before; what the verdict is, StateInv says of the new state. When the peer has closed
     its side, the wait for that is over at the time that is asked for.
     */
    method ReadStep(now: int) returns (ghost a: Option<Answer>, ghost data: seq<char>)
      requires Inv() && state == Reading
      modifies `state, `readable, `httpStatus, `keepAlive, `activeReadTs, `closeTimeoutTs, `asked, sock, Parts()
      ensures Inv() && forall o | o in Parts() :: o in old(Parts()) || fresh(o)
      ensures Received() == old(Received()) + data && sock.received == old(sock.received) + data
      ensures sock.accepted == old(sock.accepted) && history == old(history) && current == []
      ensures a.None? <==> !old(readable)
      ensures a.None? ==> state == Reading && data == [] && readable == old(readable)
      ensures a.None? ==> sock.answers == old(sock.answers)
      ensures a.None? ==> activeReadTs == old(activeReadTs) && asked == old(asked)
      ensures a.None? ==> closeTimeoutTs == old(closeTimeoutTs)
      ensures a.Some? ==> activeReadTs == now && a.value.ReadGave? && |data| == Max(a.value.n, 0)
      ensures a.Some? ==>
                && old(sock.answers) <= sock.answers
                && |sock.answers| == |old(sock.answers)| + (if a.value.n == 0 then 3 else 2)
                && sock.answers[|old(sock.answers)|].HoldsGave? && a.value == sock.answers[|old(sock.answers)| + 1]
                && (if a.value.n == 0 then
                      sock.answers[|old(sock.answers)| + 2] == TimeGave(closeTimeoutTs + (CLOSE_TIMEOUT + 1))
                    else closeTimeoutTs == old(closeTimeoutTs))
                && var held := sock.answers[|old(sock.answers)|].bytes;
                   a.value.room == if held < 1024 then 1024 else held
      ensures a.Some? && a.value.n < 0 && a.value.errno == Other ==> state == Erring
      ensures a.Some? && a.value.n < 0 && a.value.errno != Other ==>
                state == Reading && readable == (a.value.errno == Interrupted)
      ensures a.Some? && a.value.n == 0 ==> state == Closing
      ensures a.Some? && a.value.n > 0 ==>
                && readable == (a.value.n == a.value.room)
                && match Judge(Received(), config.maxHead)
                   case Waiting => state == Reading
                   case Complete(_) => state == RequestEnd
                   case TooLong => state == HandleRequest && httpStatus == 414
    {
      hide *;
      InReading();
      NothingSent();
      if readable {
        ghost var answer;
        answer, data := ReadNow(now);
        a := Some(answer);
      } else {
        a, data := None, [];
        assert Received() + [] == Received() && sock.received + [] == sock.received;
      }
    }

    /** connection_handle_read_state(). */
    method ReadNow(now: int) returns (ghost answer: Answer, ghost data: seq<char>)
      requires Inv() && state == Reading
      modifies `state, `readable, `httpStatus, `keepAlive, `activeReadTs, `closeTimeoutTs, `asked, sock, Parts()
      ensures Inv() && forall o | o in Parts() :: o in old(Parts()) || fresh(o)
      ensures Received() == old(Received()) + data && sock.received == old(sock.received) + data
      ensures sock.accepted == old(sock.accepted) && history == old(history) && current == old(current)
      ensures activeReadTs == now && answer.ReadGave? && |data| == Max(answer.n, 0)
      ensures old(sock.answers) <= sock.answers
      ensures |sock.answers| == |old(sock.answers)| + if answer.n == 0 then 3 else 2
      ensures sock.answers[|old(sock.answers)|].HoldsGave? && answer == sock.answers[|old(sock.answers)| + 1]
      ensures if answer.n == 0 then
                sock.answers[|old(sock.answers)| + 2] == TimeGave(closeTimeoutTs + (CLOSE_TIMEOUT + 1))
              else closeTimeoutTs == old(closeTimeoutTs)
      ensures var held := sock.answers[|old(sock.answers)|].bytes; answer.room == if held < 1024 then 1024 else held
      ensures answer.n < 0 && answer.errno == Other ==> state == Erring
      ensures answer.n < 0 && answer.errno != Other ==> state == Reading && readable == (answer.errno == Interrupted)
      ensures answer.n == 0 ==> state == Closing
      ensures answer.n > 0 ==>
                && readable == (answer.n == answer.room)
                && match Judge(Received(), config.maxHead)
                   case Waiting => state == Reading
                   case Complete(_) => state == RequestEnd
                   case TooLong => state == HandleRequest && httpStatus == 414
    {
      hide *;
      InReading();
      Apart();
      TalkIs(false, Received());
      ghost var received, rest := sock.received, Received();
      activeReadTs := now;
      var r, more;
      r, more, data, answer := Receive();
      NoBytes(data, answer.n);
      HearsMore(received, rest, data);
      Apart();
      assert rest + [] == rest;
      NothingCut(Received());
      readable := more;
      match r
      case Failed =>
        Fail();
      case NotReady(_) =>
        ToReading();
      case AtEnd =>
        StopReading();
      case Got(_, _) =>
        JudgeStep();
    }

    lemma NothingSent()
      requires Idle()
      ensures current == []
    {
    }

    lemma NoBytes(data: seq<char>, n: int)
      requires |data| == Max(n, 0)
      ensures n <= 0 ==> data == []
    {
    }

    /** After bytes came in: go on with a complete head, refuse one that is too long, or wait. */
    method JudgeStep()
      requires Shape() && Talk(false, Received()) && Idle() && Unused() && state == Reading
      requires |Received()| + 2 <= MAX_ALIGNED
      modifies `state, `httpStatus, `keepAlive, content.Repr()
      ensures Inv() && (forall o | o in Parts() :: o in old(Parts()) || fresh(o))
      ensures Received() == old(Received())
      ensures match Judge(Received(), config.maxHead)
              case Waiting => state == Reading
              case Complete(_) => state == RequestEnd
              case TooLong => state == HandleRequest && httpStatus == 414
    {
      hide *;
      Apart();
      var v := JudgeReceived();
      Apart();
      match v
      case Complete(_) =>
        state := RequestEnd;
        ToRequestEnd();
      case TooLong =>
        TooLongIsUnderstood();
        httpStatus := 414;
        keepAlive := false;
        state := HandleRequest;
        ToHandleRequest();
      case Waiting =>
        ToReading();
    }

    lemma AfterJudgeIs(v: Verdict)
      ensures AfterJudge(v) == if v == Waiting then Reading else if v == TooLong then HandleRequest else RequestEnd
    {
    }

    lemma TooLongIsUnderstood()
      requires Unused() && Judge(Received(), config.maxHead) == TooLong
      ensures Understood(Received(), config, 414, false, request) && !bodyFinished
    {
    }

    /** What was found complete is a head that the parser can look at. */
    lemma HeadStarts(received: seq<char>, max: nat, head: seq<char>)
      requires Judge(received, max) == Verdict.Complete(head) && Answerable(received)
      ensures |head| >= 4 && !VerbMissing(head)
    {
      hide VerbMissing;
      FirstEndIsEnd(received, EndOf(received));
    }

    /** http_reuqest_parse() on the complete head. */
    method ParseContent(connection: Requests.Connection) returns (p: Parsed)
      requires Shape() && content.Valid() && Judge(Received(), config.maxHead) == Verdict.Complete(content.Contents())
      modifies content.ptr
      ensures Shape() && Parts() == old(Parts()) && Received() == old(Received())
      ensures Judge(Received(), config.maxHead).Complete?
      ensures p == Parse(Judge(Received(), config.maxHead).head, config.support11, connection)
    {
      hide ChunkQueue.Valid, Text, AllMem, SmallQueue, Answerable, Judge, Config.Valid, Parse, VerbMissing;
      HeadStarts(Received(), config.maxHead, content.Contents());
      p := HttpRequestParse(content, config.support11, connection);
    }

    /** CON_STATE_REQUEST_END: forgets the fields of the last request and parses the head. */
    method ParseStep()
      requires Inv() && state == RequestEnd
      modifies `state, `httpStatus, `keepAlive, `request, Parts()
      ensures Inv() && Parts() == old(Parts()) && state == HandleRequest && Received() == old(Received())
      ensures history == old(history)
    {
      hide *;
      InRequestEnd();
      Apart();
      request := Request(None, None, VersionUnset, Options(request.options.connection, None, None));
      httpStatus := 0;
      var p := ParseContent(request.options.connection);
      httpStatus, keepAlive := p.status, p.keepAlive;
      request := Request(p.verb, p.url, p.version, p.options);
      ParsedIsUnderstood(p);
      state := HandleRequest;
      ToHandleRequest();
    }

    lemma ParsedIsUnderstood(p: Parsed)
      requires Judge(Received(), config.maxHead).Complete?
      requires p == Parse(Judge(Received(), config.maxHead).head, config.support11, Unset)
      ensures Understood(Received(), config, p.status, p.keepAlive, Request(p.verb, p.url, p.version, p.options))
    {
    }

    lemma InHandleRequest()
      requires Inv() && state == HandleRequest
      ensures Shape() && Talk(false, Received()) && !bodyFinished && current == [] && taken == []
      ensures writequeue.pieces == []
      ensures httpStatus == 0 || (Refused(httpStatus) && httpStatus != 200)
      ensures httpStatus == 0 ==> request.url.Some?
      ensures Refused(httpStatus) ==> !keepAlive
      ensures Understood(Received(), config, httpStatus, keepAlive, request)
    {
      hide Parse, Judge, Shape, Talk, Text, ChunkQueue.Valid, Buffer.Valid;
      match Judge(Received(), config.maxHead)
      case Waiting =>
      case TooLong =>
      case Complete(head) =>
        ParseRules(head, config.support11, Unset);
        StatusOfParse(head);
    }

    lemma StatusOfParse(head: seq<char>)
      ensures Parse(head, config.support11, Unset).status in {0, 400, 501}
    {
      ParseRules(head, config.support11, Unset);
    }

    lemma ToResponseStart()
      requires state == ResponseStart && Shape() && Talk(false, Received()) && current == [] && taken == []
      requires BodyQueued(writequeue.pieces, httpStatus, bodyFinished, keepAlive, response.contentType) && BodyDue()
      ensures Inv()
    {
      hide Shape, Talk, Promised, Sending, Finished, Understood, BodyQueued, BodyDue, Judge, Text, Buffer.Valid;
    }

    /** stat(), which is remembered: the size of a regular file is the number of its bytes. */
    method StatPath(path: string) returns (r: Stat)
      modifies `looked
      ensures looked == Some(Lookup(path, r, None)) && (r.Regular? ==> r.size == |files(path)|)
    {
      r := *;
      if r.Regular? {
        r := Regular(|files(path)|);
      }
      looked := Some(Lookup(path, r, None));
    }

    /** http_handle_directory_parse(): some page, which is remembered. */
    method ListDirectory() returns (b: Buffer)
      requires looked.Some?
      modifies `looked
      ensures b.Valid() && fresh(b) && fresh(b.Repr()) && 0 < |b.Contents()| < MAX_LISTING
      ensures looked == Some(old(looked).value.(page := Some(b.Contents())))
    {
      var page: string := *;
      if !(0 < |page| < MAX_LISTING) {
        page := "<html>";
      }
      b := new Buffer();
      b.CopyStringLength(page);
      looked := Some(looked.value.(page := Some(page)));
    }

    /** Queues a regular file. Its size is cut to 32 bits on the way. */
    method QueueFile(path: string, size: nat)
      requires Shape() && writequeue.pieces == [] && path != "" && size == |files(path)|
      modifies writequeue.Repr
      ensures Shape() && forall o | o in Parts() :: o in old(Parts()) || fresh(o)
      ensures Received() == old(Received()) && Stream(files, writequeue.pieces) == files(path)[..Wrap(size)]
      ensures writequeue.pieces != [] ==> |writequeue.pieces| == 1 && writequeue.pieces[0].sent == 0
      ensures MemTotal(writequeue.pieces) == 0
    {
      hide ChunkQueue.Valid, Buffer.Valid, Text, AllMem, SmallQueue, Answerable, Config.Valid, Stream, MemTotal;
      writequeue.AppendFile(path, 0, Wrap(size));
      FileIsQueued(files, path, size, writequeue.pieces);
    }

    /** Queues a page behind nothing. */
    method QueuePage(page: Buffer)
      requires Shape() && writequeue.pieces == [] && page.Valid() && page.Repr() !! Parts()
      requires 0 < |page.Contents()| < MAX_LISTING
      modifies writequeue.Repr
      ensures Shape() && forall o | o in Parts() :: o in old(Parts()) || fresh(o)
      ensures Received() == old(Received()) && writequeue.pieces == [Mem(old(page.Contents()), 0)]
      ensures MemTotal(writequeue.pieces) == |old(page.Contents())| && SmallQueue(writequeue.pieces)
    {
      hide ChunkQueue.Valid, Text, AllMem, SmallQueue, Answerable, Config.Valid, MemTotal;
      ghost var data := page.Contents();
      writequeue.AppendBuffer(page);
      MemIsQueued(data, writequeue.pieces);
    }

    /** The type of a file, by its extension. */
    method TypeOf(path: string) returns (contentType: Option<string>)
      requires config.Valid()
      ensures TypeOfPath(config.table, path, contentType) && TypeFits(contentType)
    {
      var i := LookupMime(config.table, path);
      match i
      case Some(k) =>
        contentType := Some(config.table[k].mimeType);
        assert config.table[k] in config.table;
      case None =>
        contentType := None;
    }

    /** A regular file is the body, and its name says its type. */
    method ServeFile(path: string, size: nat)
      requires Shape() && writequeue.pieces == [] && httpStatus == 0 && path != "" && size == |files(path)|
      modifies `httpStatus, `bodyFinished, `response, writequeue.Repr
      ensures Shape() && (forall o | o in Parts() :: o in old(Parts()) || fresh(o)) && Received() == old(Received())
      ensures BodyQueued(writequeue.pieces, httpStatus, bodyFinished, keepAlive, response.contentType)
      ensures httpStatus == 200
      ensures Stream(files, writequeue.pieces) == files(path)[..Wrap(size)]
      ensures TypeOfPath(config.table, path, response.contentType) && response.fullpath == path
    {
      hide ChunkQueue.Valid, Buffer.Valid, Shape, Parts, Repr, Text, Config.Valid, Stream, MemTotal, TypeFits;
      hide TypeOfPath, SmallQueue;
      Apart();
      var contentType := TypeOf(path);
      QueueFile(path, size);
      Apart();
      response := Response(path, 0, contentType);
      bodyFinished, httpStatus := true, 200;
    }

    /** A directory's page is the body. */
    method ServeDirectory(path: string)
      requires Shape() && writequeue.pieces == [] && httpStatus == 0 && looked.Some?
      modifies `httpStatus, `bodyFinished, `response, `looked, writequeue.Repr
      ensures Shape() && (forall o | o in Parts() :: o in old(Parts()) || fresh(o)) && Received() == old(Received())
      ensures BodyQueued(writequeue.pieces, httpStatus, bodyFinished, keepAlive, response.contentType)
      ensures httpStatus == 200
      ensures 0 < |Stream(files, writequeue.pieces)| < MAX_LISTING && response.contentType == Some("text/html")
      ensures response.fullpath == path
      ensures looked == Some(old(looked).value.(page := Some(Stream(files, writequeue.pieces))))
    {
      hide ChunkQueue.Valid, Buffer.Valid, Shape, Parts, Repr, Text, Config.Valid, Stream, MemTotal, SmallQueue;
      Apart();
      var page := ListDirectory();
      QueuePage(page);
      PageStream(page.Contents());
      Apart();
      response := Response(path, 0, Some("text/html"));
      bodyFinished, httpStatus := true, 200;
    }

    /** From the path on: what is there, and what of it is queued. */
    method FindBody(url: string)
      requires Shape() && writequeue.pieces == [] && response == NO_RESPONSE && httpStatus == 0 && !bodyFinished
      modifies `httpStatus, `bodyFinished, `response, `looked, writequeue.Repr
      ensures Shape() && (forall o | o in Parts() :: o in old(Parts()) || fresh(o)) && Received() == old(Received())
      ensures BodyQueued(writequeue.pieces, httpStatus, bodyFinished, keepAlive, response.contentType)
      ensures looked.Some?
      ensures response.fullpath ==
                if looked.value.answer.Regular? || looked.value.answer.Directory? then looked.value.path else ""
      ensures Handled(looked.value, files, config, url, httpStatus, Stream(files, writequeue.pieces),
                      response.contentType)
    {
      hide ChunkQueue.Valid, Buffer.Valid, Shape, Parts, Repr, Text, Config.Valid, Stream, MemTotal;
      hide FirstMatch, TypeOfPath, SmallQueue, PathOfUrl;
      Apart();
      var path := FullPath(config.rootDir, PathOfUrl(url));
      var stat := StatPath(path);
      if stat.Regular? {
        ServeFile(path, stat.size);
      } else if stat.Directory? {
        ServeDirectory(path);
      } else {
        NoStream(files);
        httpStatus := if stat == Missing then 404 else if stat == StatFailed then 500 else 403;
      }
    }

    lemma NothingFound()
      ensures NO_RESPONSE.fullpath == ""
    {
    }

    lemma NoBody()
      requires Refused(httpStatus) && !keepAlive && !bodyFinished && response == NO_RESPONSE
      ensures BodyQueued([], httpStatus, bodyFinished, keepAlive, response.contentType)
    {
    }

    lemma RefusedDue()
      requires Understood(Received(), config, httpStatus, keepAlive, request) && httpStatus != 0
      requires writequeue.pieces == [] && looked.None?
      ensures BodyDue()
    {
      DueRefused(Received(), config, files, httpStatus, keepAlive, request, response.contentType);
    }

    lemma FoundDue(asked: Request)
      requires Understood(Received(), config, 0, keepAlive, asked) && asked.url.Some?
      requires request.version == asked.version && looked.Some?
      requires Handled(looked.value, files, config, asked.url.value, httpStatus, Stream(files, writequeue.pieces),
                response.contentType)
      ensures BodyDue()
    {
      DueFound(Received(), config, files, keepAlive, asked, looked.value, httpStatus, Stream(files, writequeue.pieces),
          response.contentType);
    }

    /**
     CON_STATE_HANDLE_REQUEST: a request that was refused has no body yet; another one is answered by
     what the file system says of its path.
     */
    method HandleStep()
      requires Inv() && state == HandleRequest
      modifies `state, `httpStatus, `bodyFinished, `request, `response, `looked, Parts()
      ensures Inv() && (forall o | o in Parts() :: o in old(Parts()) || fresh(o)) && state == ResponseStart
      ensures Received() == old(Received()) && history == old(history)
      ensures old(httpStatus) == 0 ==> old(request).url.Some?
      ensures looked.None? <==> old(httpStatus) != 0
      ensures looked.Some? ==>
                httpStatus == match looked.value.answer
                              case NoAccess => 403
                              case Missing => 404
                              case StatFailed => 500
                              case Special => 403
                              case Directory => 200
                              case Regular(_) => 200
      ensures response.fullpath ==
                if looked.Some? && (looked.value.answer.Regular? || looked.value.answer.Directory?)
                then looked.value.path else ""
      ensures looked.None? ==>
                httpStatus == old(httpStatus) && request == old(request) && writequeue.pieces == []
      ensures looked.Some? ==>
                && request == old(request).(url := request.url) && request.url.Some?
                && var path, url := request.url.value, old(request).url.value;
                   && path <= url && '#' !in path && '?' !in path
                   && (|path| < |url| ==> url[|path|] == '#' || url[|path|] == '?')
      ensures looked.Some? ==>
                Handled(looked.value, files, config, old(request).url.value, httpStatus,
                        Stream(files, writequeue.pieces), response.contentType)
    {
      hide *;
      InHandleRequest();
      Apart();
      response := NO_RESPONSE;
      NothingFound();
      looked := None;
      if httpStatus != 0 && httpStatus != 200 {
        NoBody();
        RefusedDue();
      } else {
        var url := request.url.value;
        FindBody(url);
        HandledStatus(looked.value, files, config, url, httpStatus, Stream(files, writequeue.pieces),
            response.contentType);
        Apart();
        ghost var asked := request;
        request := request.(url := Some(PathOfUrl(url)));
        PathOfUrlIs(url);
        FoundDue(asked);
      }
      state := ResponseStart;
      ToResponseStart();
    }

    lemma InResponseStart()
      requires Inv() && state == ResponseStart
      ensures Shape() && Talk(false, Received()) && current == [] && taken == [] && Answered(httpStatus)
      ensures 200 <= httpStatus < 600
      ensures bodyFinished == (httpStatus == 200)
      ensures httpStatus != 200 ==> httpStatus >= 400 && writequeue.pieces == []
      ensures BodyReady() && TypeFits(response.contentType) && (Refused(httpStatus) ==> !keepAlive) && BodyDue()
    {
      hide Shape, Talk, Promised, Sending, Finished, Understood, BodyDue, Judge, Text, Buffer.Valid;
    }

    /** What is queued is a body that was not sent yet. */
    ghost predicate BodyReady()
      reads writequeue`pieces
    {
      var ps := writequeue.pieces;
      |ps| <= 1 && (ps != [] ==> ps[0].sent == 0) && MemTotal(ps) < MAX_LISTING
    }

    lemma ToWriting()
      requires state == Writing && Shape() && Talk(false, Received()) && bodyFinished
      requires Promised(Received(), config, files, looked, current, keepAlive, httpStatus)
      requires Sending(files, writequeue.pieces, current, taken)
      ensures Inv()
    {
      hide Shape, Talk, Promised, Sending, Finished, Understood, BodyQueued, BodyDue, Judge, Text, Buffer.Valid;
    }

    /** The page for an error status. */
    method QueueErrorPage() returns (ghost page: seq<char>)
      requires Shape() && Answered(httpStatus) && httpStatus < 600 && writequeue.pieces == []
      modifies `bodyFinished, `response, writequeue.Repr
      ensures Shape() && (forall o | o in Parts() :: o in old(Parts()) || fresh(o)) && Received() == old(Received())
      ensures BodyReady() && bodyFinished && TypeFits(response.contentType)
      ensures writequeue.pieces == [Mem(page, 0)]
      ensures Explains(page, httpStatus) && response.contentType == Some("text/html")
      ensures old(Talk(false, Received())) ==> Talk(false, Received())
    {
      hide *;
      Apart();
      Bounds();
      var text := TextOfAnswer(httpStatus);
      var b := WriteErrorPage(httpStatus, text);
      page := b.Contents();
      ExplainsIt(page, text);
      QueuePage(b);
      Apart();
      PageReady(page);
      bodyFinished := true;
      response := response.(contentType := Some("text/html"));
    }

    lemma PageReady(page: seq<char>)
      requires writequeue.pieces == [Mem(page, 0)] && MemTotal(writequeue.pieces) == |page| < 0x1_0000
      ensures BodyReady() && TypeFits(Some("text/html"))
    {
    }

    lemma ExplainsIt(page: seq<char>, title: LineText)
      requires HasText(httpStatus, title) && page == ErrorPage(httpStatus, title)
      ensures Explains(page, httpStatus)
    {
    }

    /** Puts the head in front of the body. */
    method QueueHead(h: Head)
      requires Shape() && BodyReady() && h.status < 600 && |h.date| < 0x80 && |h.service| < MAX_NAME
      requires TypeFits(h.contentType)
      modifies writequeue.Repr
      ensures Shape() && (forall o | o in Parts() :: o in old(Parts()) || fresh(o)) && Received() == old(Received())
      ensures Stream(files, writequeue.pieces) == PrintHead(h) + old(Stream(files, writequeue.pieces))
      ensures FullTotal(writequeue.pieces) == |Stream(files, writequeue.pieces)| < 2 * TWO_TO_THE_32
      ensures writequeue.pieces != [] && 0 < |PrintHead(h)|
    {
      hide ChunkQueue.Valid, Text, AllMem, SmallQueue, Answerable, Config.Valid, Stream, MemTotal, PrintHead;
      hide FullTotal;
      HeadLength(h);
      var b := WriteResponseHead(h);
      ghost var ps := writequeue.pieces;
      BodyLength(files, ps);
      HeadInFront(files, b.Contents(), ps);
      writequeue.PrependBuffer(b);
    }

    /** The queue's own length of a body that was not sent yet is its number of bytes. */
    lemma QueuedBody()
      requires Shape() && BodyReady()
      ensures FullTotal(writequeue.pieces) == |Stream(files, writequeue.pieces)| < TWO_TO_THE_32
    {
      BodyLength(files, writequeue.pieces);
    }

    lemma HeadFits(h: Head)
      requires config.Valid() && h.service == config.serviceName && TypeFits(h.contentType) && '\r' !in h.date
      ensures h.Valid() && |h.service| < MAX_NAME
    {
    }

    lemma IsSending(h: Head, body: seq<char>)
      requires WellFormedResponse(current, h, body) && h.keepAlive == keepAlive && taken == []
      requires Replies(Received(), config, files, looked, current)
      requires Stream(files, writequeue.pieces) == current
      requires FullTotal(writequeue.pieces) == |current| < 2 * TWO_TO_THE_32
      requires writequeue.pieces != [] && current != [] && (Refused(httpStatus) ==> !keepAlive)
      ensures Promised(Received(), config, files, looked, current, keepAlive, httpStatus)
      ensures Sending(files, writequeue.pieces, current, taken)
    {
      hide Replies, PrintHead, FirstEnd, SaysKeepAlive, SaidLength, Stream, FullTotal, Text;
      LooksEmpty(|current|);
      assert [] + current == current;
    }

    /** From here on `whole` is what is being sent. */
    ghost method Announce(whole: seq<char>)
      requires Talk(false, Received()) && taken == []
      modifies `current
      ensures Talk(false, Received()) && current == whole
    {
      current := whole;
    }

    /** strftime(). */
    method Date() returns (date: string)
      ensures '\r' !in date && |date| < 0x80
    {
      date := *;
      if '\r' in date || |date| >= 0x80 {
        date := "";
      }
    }

    /** The length of the body goes into the head, and the head in front of the body. */
    method WriteHead() returns (ghost h: Head)
      requires Shape() && BodyReady() && Answered(httpStatus) && httpStatus < 600 && TypeFits(response.contentType)
      modifies `response, writequeue.Repr
      ensures Shape() && (forall o | o in Parts() :: o in old(Parts()) || fresh(o)) && Received() == old(Received())
      ensures h.Valid() && h.status == httpStatus && h.version == request.version && h.keepAlive == keepAlive
      ensures h.contentType == response.contentType == old(response).contentType && HasText(httpStatus, h.text)
      ensures h.service == config.serviceName
      ensures h.contentLength == response.contentLength == |old(Stream(files, writequeue.pieces))|
      ensures Stream(files, writequeue.pieces) == PrintHead(h) + old(Stream(files, writequeue.pieces))
      ensures FullTotal(writequeue.pieces) == |Stream(files, writequeue.pieces)| < 2 * TWO_TO_THE_32
      ensures writequeue.pieces != [] && 0 < |PrintHead(h)|
      ensures old(Talk(false, Received())) ==> Talk(false, Received())
    {
      hide *;
      Apart();
      QueuedBody();
      var length := writequeue.Length();
      LengthIsExact(FullTotal(writequeue.pieces));
      response := response.(contentLength := length);
      var text := TextOfAnswer(httpStatus);
      var date := Date();
      var head := Head(request.version, httpStatus, text, keepAlive, length, response.contentType, date,
          config.serviceName);
      HeadFits(head);
      QueueHead(head);
      Apart();
      h := head;
    }

    lemma LengthIsExact(n: nat)
      requires n < TWO_TO_THE_32
      ensures Wrap(n) == n
    {
    }

    /**
     CON_STATE_RESPONSE_START: an error status gets its page, and then the head goes in front. A status
     of 0, for which the default of 403 is meant, and one without a body do not come here.
     */
    method PrepareStep() returns (ghost h: Head, ghost body: seq<char>)
      requires Inv() && state == ResponseStart
      modifies `state, `bodyFinished, `response, `current, Parts()
      ensures Inv() && (forall o | o in Parts() :: o in old(Parts()) || fresh(o)) && state == Writing
      ensures Received() == old(Received()) && taken == [] && WellFormedResponse(current, h, body)
      ensures history == old(history)
      ensures h.status == httpStatus && h.version == request.version && h.keepAlive == keepAlive
      ensures HasText(httpStatus, h.text) && h.service == config.serviceName && h.contentType == response.contentType
      ensures httpStatus == 200 ==>
                body == old(Stream(files, writequeue.pieces)) && response.contentType == old(response).contentType
      ensures httpStatus != 200 ==> Explains(body, httpStatus) && h.contentType == Some("text/html")
    {
      hide *;
      InResponseStart();
      Apart();
      body := Stream(files, writequeue.pieces);
      ghost var due, contentType := body, response.contentType;
      DueIs();
      if 400 <= httpStatus < 600 {
        ghost var page := QueueErrorPage();
        Apart();
        PageStream(page);
        body := page;
      }
      h := WriteHead();
      Apart();
      ResponseIsWellFormed(h, body);
      Replying(PrintHead(h) + body, h, body, due, contentType);
      Announce(PrintHead(h) + body);
      IsSending(h, body);
      state := Writing;
      ToWriting();
    }

    lemma DueIs()
      requires BodyDue()
      ensures Due(Received(), config, files, looked, request.version, httpStatus, keepAlive,
                  Stream(files, writequeue.pieces), response.contentType)
    {
    }

    lemma Replying(whole: seq<char>, h: Head, body: seq<char>, due: seq<char>, contentType: Option<string>)
      requires WellFormedResponse(whole, h, body)
      requires Due(Received(), config, files, looked, h.version, h.status, h.keepAlive, due, contentType)
      requires HasText(h.status, h.text) && h.service == config.serviceName
      requires if h.status == 200 then body == due && h.contentType == contentType
               else Explains(body, h.status) && h.contentType == Some("text/html")
      ensures Replies(Received(), config, files, looked, whole)
    {
      hide WellFormedResponse, Due, Explains, HasText;
      assert RepliesWith(Received(), config, files, looked, whole, h, body, due, contentType);
    }

    lemma PageStream(page: seq<char>)
      ensures Stream(files, [Mem(page, 0)]) == page
    {
      StreamCons(files, Mem(page, 0), []);
    }

    lemma InWriting()
      requires Inv() && state == Writing
      ensures Shape() && Talk(false, Received()) && bodyFinished
      ensures Promised(Received(), config, files, looked, current, keepAlive, httpStatus)
      ensures Sending(files, writequeue.pieces, current, taken)
    {
      hide Shape, Talk, Promised, Sending, Finished, Understood, BodyQueued, BodyDue, Judge, Text, Buffer.Valid;
    }

    lemma ToResponseEnd()
      requires state == ResponseEnd && Shape() && Talk(false, Received()) && bodyFinished
      requires Promised(Received(), config, files, looked, current, keepAlive, httpStatus)
      requires Finished(writequeue.pieces, current, taken)
      ensures Inv()
    {
      hide Shape, Talk, Promised, Sending, Finished, Understood, BodyQueued, BodyDue, Judge, Text, Buffer.Valid;
    }

    /** connection_handle_write() on the parts. */
    method Send() returns (r: WriteResult)
      requires Shape() && Talk(false, Received()) && Sending(files, writequeue.pieces, current, taken)
      requires Wrap(FullTotal(writequeue.pieces)) != 0
      modifies `taken, writequeue.Repr, sock
      ensures Shape() && Talk(false, Received()) && Parts() == old(Parts()) && Received() == old(Received())
      ensures sock.received == old(sock.received) && old(taken) <= taken
      ensures r == Done ==> Finished(writequeue.pieces, current, taken)
      ensures r != Done ==> Sending(files, writequeue.pieces, current, taken) && Wrap(FullTotal(writequeue.pieces)) != 0
      ensures old(sock.accepted) <= sock.accepted && old(sock.answers) < sock.answers
      ensures forall i | |old(sock.answers)| <= i < |sock.answers| :: sock.answers[i].Sends()
      ensures r == Broken <==> sock.answers[|sock.answers| - 1].Breaks()
      ensures r in {Again, Partly} <==> sock.answers[|sock.answers| - 1].Stops()
      ensures var last := sock.answers[|sock.answers| - 1]; r == Partly <==> last.WriteGave? && 0 <= last.n < last.asked
      ensures r in {Done, Partly} <==> sock.answers[|sock.answers| - 1].Took()
    {
      hide ChunkQueue.Valid, Buffer.Valid, Text, AllMem, SmallQueue, Answerable, Config.Valid, Stream, MemTotal;
      hide Consumed, FilesOpen, Total, FullTotal, Wrap, Kept;
      OfSmallQueue(writequeue.pieces);
      ghost var ps := writequeue.pieces;
      BytesLeft(ps, taken, current);
      ghost var data;
      r, data := HandleWrite(writequeue, sock, files);
      SendingKeepsSmall(ps, writequeue.pieces);
      Associative(taken, data, Stream(files, writequeue.pieces));
      Associative(Said(history), taken, data);
      NoStream(files);
      StreamLength(files, writequeue.pieces);
      taken := taken + data;
    }

    lemma BytesLeft(ps: seq<Piece>, sent: seq<char>, whole: seq<char>)
      requires Sending(files, ps, whole, sent)
      ensures Total(ps) > 0
    {
      StreamLength(files, ps);
    }

    lemma OfSmallQueue(ps: seq<Piece>)
      requires SmallQueue(ps)
      ensures FilesOpen(ps) && MemTotal(ps) < TWO_TO_THE_32
    {
    }

    lemma NoStream(files: Files)
      ensures Stream(files, []) == []
    {
    }

    /** While a response is sent, its queue looks empty exactly when it is 2^32 bytes long; then none of it was sent. */
    lemma NothingLeft()
      requires Sending(files, writequeue.pieces, current, taken)
      ensures |taken| < |current|
      ensures Wrap(FullTotal(writequeue.pieces)) == 0 <==> |current| == TWO_TO_THE_32
      ensures Wrap(FullTotal(writequeue.pieces)) == 0 ==> Finished(writequeue.pieces, current, taken)
    {
    }

    /** What was sent of a finished response: all of it, unless it is 2^32 bytes long. */
    lemma FinishedIs()
      requires Finished(writequeue.pieces, current, taken)
      ensures taken == if |current| == TWO_TO_THE_32 then [] else current
    {
    }

    /** CON_STATE_WRITE. */
    method WriteStep(now: int) returns (ghost r: Option<WriteResult>)
      requires Inv() && state == Writing
      modifies `state, `writeable, `activeWriteTs, `asked, `taken, sock, Parts()
      ensures Inv() && Parts() == old(Parts())
      ensures r.Some? <==> old(Wrap(FullTotal(writequeue.pieces)) != 0 && writeable)
      ensures state == match r
                       case None => if old(Wrap(FullTotal(writequeue.pieces))) != 0 then Writing else ResponseEnd
                       case Some(Done) => ResponseEnd
                       case Some(Broken) => Erring
                       case Some(_) => Writing
      ensures state == Writing ==> !writeable && Wrap(FullTotal(writequeue.pieces)) != 0
      ensures activeWriteTs == if r in {Some(Done), Some(Partly)} then now else old(activeWriteTs)
      ensures sock.received == old(sock.received) && old(taken) <= taken <= current && history == old(history)
      ensures Received() == old(Received()) && current == old(current)
      ensures |current| == TWO_TO_THE_32 ==> state == ResponseEnd && sock.accepted == old(sock.accepted)
      ensures state == ResponseEnd ==> taken == if |current| == TWO_TO_THE_32 then [] else current
      ensures state == Erring ==> asked == Received() && CutOff(asked) && |taken| < |current|
      ensures old(sock.accepted) <= sock.accepted
      ensures r.None? ==>
                && sock.answers == old(sock.answers) && sock.accepted == old(sock.accepted)
                && (asked, taken, writeable) == old((asked, taken, writeable))
      ensures r.Some? ==> old(sock.answers) < sock.answers
      ensures forall i | |old(sock.answers)| <= i < |sock.answers| :: sock.answers[i].Sends()
      ensures r.Some? ==> (state == Erring <==> sock.answers[|sock.answers| - 1].Breaks())
      ensures r.Some? ==> (state == Writing <==> sock.answers[|sock.answers| - 1].Stops())
      ensures r.Some? ==> var last := sock.answers[|sock.answers| - 1];
                && (r.value == Partly <==> last.WriteGave? && 0 <= last.n < last.asked)
                && (r.value in {Done, Partly} <==> last.Took())
    {
      hide *;
      InWriting();
      Apart();
      NothingLeft();
      TalkIs(false, Received());
      SentFront(sock.accepted, history, current, taken);
      r := None;
      var length := writequeue.Length();
      if length != 0 {
        if writeable {
          ghost var answer := WriteSome(now);
          r := Some(answer);
        } else {
          ToWriting();
        }
      } else if bodyFinished {
        state := ResponseEnd;
        FinishedIs();
        ToResponseEnd();
      }
    }

    /** connection_handle_write_state(). */
    method WriteSome(now: int) returns (ghost r: WriteResult)
      requires Shape() && Talk(false, Received()) && bodyFinished && state == Writing
      requires Promised(Received(), config, files, looked, current, keepAlive, httpStatus)
      requires Sending(files, writequeue.pieces, current, taken) && Wrap(FullTotal(writequeue.pieces)) != 0
      modifies `state, `writeable, `activeWriteTs, `asked, `taken, sock, Parts()
      ensures Inv() && Parts() == old(Parts())
      ensures state == if r == Done then ResponseEnd else if r == Broken then Erring else Writing
      ensures state == Writing ==> !writeable && Wrap(FullTotal(writequeue.pieces)) != 0
      ensures activeWriteTs == if r in {Done, Partly} then now else old(activeWriteTs)
      ensures sock.received == old(sock.received) && old(taken) <= taken <= current && Received() == old(Received())
      ensures state == ResponseEnd ==> taken == if |current| == TWO_TO_THE_32 then [] else current
      ensures state == Erring ==> asked == Received() && CutOff(asked) && |taken| < |current|
      ensures old(sock.accepted) <= sock.accepted && old(sock.answers) < sock.answers
      ensures forall i | |old(sock.answers)| <= i < |sock.answers| :: sock.answers[i].Sends()
      ensures state == Erring <==> sock.answers[|sock.answers| - 1].Breaks()
      ensures state == Writing <==> sock.answers[|sock.answers| - 1].Stops()
      ensures var last := sock.answers[|sock.answers| - 1]; r == Partly <==> last.WriteGave? && 0 <= last.n < last.asked
      ensures r in {Done, Partly} <==> sock.answers[|sock.answers| - 1].Took()
    {
      hide *;
      Apart();
      var answer := Send();
      Apart();
      TalkIs(false, Received());
      SentFront(sock.accepted, history, current, taken);
      r := answer;
      if answer == Done {
        if bodyFinished {
          state := ResponseEnd;
        }
        activeWriteTs := now;
        FinishedIs();
        ToResponseEnd();
      } else if answer == Again {
        writeable := false;
        ToWriting();
      } else if answer == Partly {
        writeable := false;
        activeWriteTs := now;
        ToWriting();
      } else {
        PromiseOf();
        NothingLeft();
        Fail();
      }
    }

    lemma InResponseEnd()
      requires Inv() && state == ResponseEnd
      ensures Shape() && Talk(false, Received())
      ensures Promised(Received(), config, files, looked, current, keepAlive, httpStatus)
      ensures Finished(writequeue.pieces, current, taken)
    {
      hide Shape, Talk, Promised, Sending, Finished, Understood, BodyQueued, BodyDue, Judge, Text, Buffer.Valid;
    }

    lemma ToRequestStart()
      requires state == RequestStart && Shape() && Talk(false, Received()) && Idle() && Unused()
      requires readqueue.pieces == []
      ensures Inv()
    {
      hide Shape, Talk, Promised, Sending, Finished, Understood, BodyQueued, BodyDue, Judge, Text, Buffer.Valid;
    }

    lemma InAnyState()
      requires Inv()
      ensures Shape() && Talk(Over(state), AtHand()) && CutOff(AtHand())
      ensures AtHand() == if Over(state) then asked else Received()
    {
      hide Replies, SaysKeepAlive, Shape, Talk, Sending, Finished, Understood, BodyQueued, BodyDue, Judge, Text;
      hide Buffer.Valid;
    }

    /** Empties both queues and forgets the head. */
    method ResetParts()
      requires Shape()
      modifies Parts()
      ensures Shape() && forall o | o in Parts() :: o in old(Parts()) || fresh(o)
      ensures readqueue.pieces == [] && writequeue.pieces == []
    {
      hide ChunkQueue.Valid, Text, AllMem, SmallQueue, Answerable, Config.Valid;
      readqueue.Reset();
      writequeue.Reset();
      content.Reset();
      NothingQueued();
    }

    /** connection_reset(). */
    method Reset()
      requires Shape()
      modifies `readable, `writeable, `httpStatus, `bodyFinished, `keepAlive, `request, `response
      modifies `activeReadTs, `activeWriteTs, Parts()
      ensures Shape() && forall o | o in Parts() :: o in old(Parts()) || fresh(o)
      ensures readqueue.pieces == [] && writequeue.pieces == [] && Unused() && !readable && !writeable
      ensures request == NO_REQUEST && response == NO_RESPONSE && activeReadTs == activeWriteTs == 0
      ensures forall over, rest :: old(Talk(over, rest)) ==> Talk(over, rest)
    {
      hide *;
      Apart();
      ResetFlags();
      ResetParts();
      Apart();
      ResetRequest();
      NothingUsed();
    }

    method ResetFlags()
      modifies `readable, `writeable, `httpStatus, `bodyFinished, `keepAlive
      ensures !readable && !writeable && httpStatus == 0 && !bodyFinished && !keepAlive
    {
      readable, writeable := false, false;
      httpStatus, bodyFinished, keepAlive := 0, false, false;
    }

    method ResetRequest()
      modifies `request, `response, `activeReadTs, `activeWriteTs
      ensures request == NO_REQUEST && response == NO_RESPONSE && activeReadTs == activeWriteTs == 0
    {
      request, response := NO_REQUEST, NO_RESPONSE;
      activeReadTs, activeWriteTs := 0, 0;
    }

    lemma NothingUsed()
      requires httpStatus == 0 && !bodyFinished && !keepAlive && request == NO_REQUEST
      ensures Unused()
    {
    }

    /** The response is over: all of it was sent, or nothing. */
    ghost method Conclude()
      requires Talk(false, Received()) && Finished(writequeue.pieces, current, taken)
      requires Promised(Received(), config, files, looked, current, keepAlive, httpStatus)
      modifies `history, `current, `asked, `taken
      ensures Talk(!keepAlive, []) && current == [] && asked == [] && taken == [] && CutOff(asked)
      ensures history == old(history + [Exchange(Received(), looked, current, taken)])
    {
      hide Replies, SaysKeepAlive, Text;
      var x := Exchange(Received(), looked, current, taken);
      ExchangeEnds(config, files, sock.accepted, sock.received, history, x, !keepAlive);
      history := history + [x];
      current, asked, taken := [], [], [];
    }

    lemma NothingReceived()
      requires readqueue.pieces == []
      ensures Received() == []
    {
    }

    lemma IsIdle()
      requires writequeue.pieces == [] && current == [] && taken == []
      ensures Idle()
    {
    }

    /** What the head promised is what keep-alive says. */
    lemma PromiseOf()
      requires Promised(Received(), config, files, looked, current, keepAlive, httpStatus)
      ensures SaysKeepAlive(current) <==> keepAlive
      ensures Refused(httpStatus) ==> !keepAlive
      ensures CutOff(Received())
    {
    }

    /** Shuts the socket down for writing, and waits for the peer's close unless that failed. */
    method CloseSoon(now: int)
      requires Shape() && Talk(true, asked) && CutOff(asked)
      modifies `state, `closeTimeoutTs, `readable, `writeable, `httpStatus, `bodyFinished, `keepAlive
      modifies `request, `response, `activeReadTs, `activeWriteTs, sock`answers, Parts()
      ensures Inv() && (forall o | o in Parts() :: o in old(Parts()) || fresh(o)) && state == Closing
      ensures !readable && !writeable && Received() == [] && activeReadTs == activeWriteTs == 0
      ensures |sock.answers| == |old(sock.answers)| + 1 && old(sock.answers) <= sock.answers
      ensures var last := sock.answers[|sock.answers| - 1];
              last.ShutGave? && closeTimeoutTs == if last.down then now else now - (CLOSE_TIMEOUT + 1)
    {
      hide *;
      Apart();
      var down := sock.Shutdown();
      closeTimeoutTs := if down then now else now - (CLOSE_TIMEOUT + 1);
      state := Closing;
      Reset();
      NothingReceived();
      ToClosing();
    }

    /**
     CON_STATE_RESPONSE_END: the connection starts over exactly when the head of the response said
     that it is kept alive, and is closed otherwise.
     */
    method EndStep(now: int)
      requires Inv() && state == ResponseEnd
      modifies this, sock`answers, Parts()
      ensures Inv() && (forall o | o in Parts() :: o in old(Parts()) || fresh(o)) && state in {RequestStart, Closing}
      ensures state == RequestStart <==> old(SaysKeepAlive(current))
      ensures old(Refused(httpStatus)) ==> state == Closing
      ensures old(taken == if |current| == TWO_TO_THE_32 then [] else current)
      ensures !readable && !writeable && history == old(history + [Exchange(Received(), looked, current, taken)])
      ensures Received() == [] && asked == [] && current == [] && taken == [] && activeReadTs == activeWriteTs == 0
      ensures state == RequestStart ==> sock.answers == old(sock.answers)
      ensures state == Closing ==>
                && |sock.answers| == |old(sock.answers)| + 1 && old(sock.answers) <= sock.answers
                && var last := sock.answers[|sock.answers| - 1];
                   last.ShutGave? && closeTimeoutTs == if last.down then now else now - (CLOSE_TIMEOUT + 1)
    {
      hide *;
      InResponseEnd();
      Apart();
      PromiseOf();
      FinishedIs();
      Conclude();
      if keepAlive {
        state := RequestStart;
        Reset();
        IsIdle();
        NothingReceived();
        ToRequestStart();
      } else {
        CloseSoon(now);
      }
    }

    /** CON_STATE_ERROR. */
    method ErrorStep(now: int)
      requires Inv() && state == Erring
      modifies this, sock`answers, Parts()
      ensures Inv() && (forall o | o in Parts() :: o in old(Parts()) || fresh(o)) && state == Closing
      ensures !readable && !writeable && history == old(history) && asked == old(asked)
      ensures current == old(current) && taken == old(taken) && Received() == [] && activeReadTs == activeWriteTs == 0
      ensures |sock.answers| == |old(sock.answers)| + 1 && old(sock.answers) <= sock.answers
      ensures var last := sock.answers[|sock.answers| - 1];
              last.ShutGave? && closeTimeoutTs == if last.down then now else now - (CLOSE_TIMEOUT + 1)
    {
      hide *;
      InAnyState();
      OverIs();
      Apart();
      keepAlive := false;
      CloseSoon(now);
    }

    lemma OverIs()
      ensures Over(state) <==> state in {Erring, Closing, Closed}
    {
    }

    lemma InClosing()
      requires Inv() && state == Closing
      ensures Shape() && Talk(true, asked) && CutOff(asked) && writequeue.pieces == []
    {
      hide Shape, Talk, Promised, Sending, Finished, Understood, BodyQueued, BodyDue, Judge, Text, Buffer.Valid;
    }

    lemma ToClosed()
      requires state == Closed && Shape() && Talk(true, asked) && CutOff(asked)
      ensures Inv()
    {
      hide Shape, Talk, Promised, Sending, Finished, Understood, BodyQueued, BodyDue, Judge, Text, Buffer.Valid;
    }

    /** connection_close(): nothing of the descriptor is left in the registry. */
    method Close(ev: FdEvents<Handler>)
      requires ev.Valid() && ev.Registered(fd) && fd in ev.open
      modifies ev`kernel, ev`open, ev.handlers
      ensures ev.Valid() && !ev.Registered(fd) && fd !in ev.kernel && ev.open == old(ev.open) - {fd}
      ensures forall f | 0 <= f < ev.handlers.Length && f != fd :: ev.handlers[f] == old(ev.handlers[f])
    {
      hide WithErrors;
      ev.UnsetEvent(fd);
      ev.UnregisterFd(fd);
      ev.CloseFd(fd);
    }

    /** read() of what still comes in. */
    method Discard() returns (n: int, errno: Errno)
      requires Talk(true, asked)
      modifies sock
      ensures Talk(true, asked) && |sock.received| == |old(sock.received)| + Max(n, 0)
      ensures old(sock.received) <= sock.received && sock.accepted == old(sock.accepted)
      ensures sock.answers == old(sock.answers) + [DropGave(n, errno)]
    {
      hide Kept, Delivered;
      n, errno := sock.Discard();
    }

    /**
     CON_STATE_CLOSE: what still comes in is dropped, and the descriptor is closed exactly when the
     peer closed its side, the socket failed, or the timeout is over.
     */
    method CloseStep(now: int, ev: FdEvents<Handler>) returns (ghost n: int, ghost errno: Errno)
      requires Inv() && state == Closing && ev.Valid() && ev.Registered(fd) && fd in ev.open && ev !in Parts()
      requires ev.handlers !in Parts()
      modifies sock, `state, `closeTimeoutTs, ev`kernel, ev`open, ev.handlers
      ensures Inv() && Parts() == old(Parts()) && state in {Closing, Closed}
      ensures state == Closed <==> n == 0 || (n < 0 && errno == Other) || now - old(closeTimeoutTs) > CLOSE_TIMEOUT
      ensures |sock.received| == |old(sock.received)| + Max(n, 0) && old(sock.received) <= sock.received
      ensures sock.accepted == old(sock.accepted) && sock.answers == old(sock.answers) + [DropGave(n, errno)]
      ensures state == Closing ==> now - closeTimeoutTs <= CLOSE_TIMEOUT && unchanged(ev) && unchanged(ev.handlers)
      ensures state == Closed ==> ev.Valid() && !ev.Registered(fd) && fd !in ev.kernel && ev.open == old(ev.open) - {fd}
      ensures state == Closed ==> forall f | 0 <= f < ev.handlers.Length && f != fd ::
                ev.handlers[f] == old(ev.handlers[f])
    {
      hide *;
      InClosing();
      Apart();
      var got, error := Discard();
      n, errno := got, error;
      if got == 0 || (got < 0 && error != Interrupted && error != WouldBlock) {
        closeTimeoutTs := now - (CLOSE_TIMEOUT + 1);
      }
      if now - closeTimeoutTs > CLOSE_TIMEOUT {
        Close(ev);
        state := Closed;
        ToClosed();
      } else {
        ToClosing();
      }
    }

    /** A state the machine may stop in, until an event or the sweep. */
    ghost predicate Resting()
      reads `state, `writeable, writequeue`pieces
    {
      state in {Reading, Closing} || (state == Writing && !writeable && Wrap(FullTotal(writequeue.pieces)) != 0)
    }

    /** The fields of how the connection stands. */
    lemma NowIs()
      ensures Now() == Stance(state, readable, writeable, closeTimeoutTs, activeReadTs, activeWriteTs, Received(),
                              history, asked, current, taken, sock.answers, sock.received, sock.accepted)
    {
    }

    /** One round of the machine before a request is read, and while it is looked at. */
    method RequestStep(now: int)
      requires Inv() && state in {RequestStart, RequestEnd, HandleRequest}
      modifies this, sock`answers, Parts()
      ensures Inv() && (forall o | o in Parts() :: o in old(Parts()) || fresh(o))
      ensures Round(old(Now()), Now(), now, config.maxHead)
      ensures state != old(state) && state != Closed
    {
      hide *;
      NowIs();
      ghost var before := Now();
      InAnyState();
      Apart();
      if state == RequestStart {
        StartStep();
        NowIs();
        StartRoundIs(before, Now(), now, config.maxHead);
      } else {
        if state == RequestEnd {
          ParseStep();
        } else {
          HandleStep();
        }
        NowIs();
        RequestRoundIs(before, Now(), now, config.maxHead);
      }
    }

    /** The round that reads. */
    method ReadingStep(now: int)
      requires Inv() && state == Reading
      modifies this, sock, Parts()
      ensures Inv() && (forall o | o in Parts() :: o in old(Parts()) || fresh(o))
      ensures Round(old(Now()), Now(), now, config.maxHead)
      ensures state != Closed
    {
      hide *;
      NowIs();
      ghost var before := Now();
      InAnyState();
      Apart();
      ghost var a, data := ReadStep(now);
      NowIs();
      ReadRoundIs(before, Now(), now, config.maxHead, a, data);
    }

    /** One round while a response is sent. */
    method ResponseStep(now: int)
      requires Inv() && state in {ResponseStart, Writing}
      modifies this, sock, Parts()
      ensures Inv() && (forall o | o in Parts() :: o in old(Parts()) || fresh(o))
      ensures Round(old(Now()), Now(), now, config.maxHead)
      ensures state == old(state) ==> Resting()
      ensures state != Closed
    {
      hide *;
      NowIs();
      ghost var before := Now();
      InAnyState();
      Apart();
      if state == ResponseStart {
        ghost var h, body := PrepareStep();
        NowIs();
        ResponseRoundIs(before, Now(), now, config.maxHead);
      } else {
        LooksSent();
        ghost var r := WriteStep(now);
        NowIs();
        WriteRoundIs(before, Now(), now, config.maxHead, r);
        WaitsForRoom();
      }
    }

    lemma WaitsForRoom()
      ensures state == Writing && !writeable && Wrap(FullTotal(writequeue.pieces)) != 0 ==> Resting()
    {
    }

    lemma LooksSent()
      requires Inv() && state == Writing
      ensures Wrap(FullTotal(writequeue.pieces)) == 0 <==> |current| == TWO_TO_THE_32
      ensures |taken| < |current| && taken <= current
    {
      hide *;
      InWriting();
      NothingLeft();
      TalkIs(false, Received());
      SentFront(sock.accepted, history, current, taken);
    }

    lemma SentFront(accepted: seq<char>, history: seq<Exchange>, current: seq<char>, taken: seq<char>)
      requires Delivered(accepted, history, current, taken)
      ensures taken <= current
    {
    }

    /** One round after a response, or after an error. */
    method EndingStep(now: int)
      requires Inv() && state in {ResponseEnd, Erring}
      modifies this, sock`answers, Parts()
      ensures Inv() && (forall o | o in Parts() :: o in old(Parts()) || fresh(o))
      ensures Round(old(Now()), Now(), now, config.maxHead)
      ensures state != old(state) && state != Closed
    {
      hide *;
      NowIs();
      ghost var before := Now();
      InAnyState();
      Apart();
      if state == ResponseEnd {
        EndStep(now);
        NowIs();
        EndRoundIs(before, Now(), now, config.maxHead);
      } else {
        ErrorStep(now);
        NowIs();
        ErrorRoundIs(before, Now(), now, config.maxHead);
      }
    }

    /** One round of the wait for a close. */
    method ClosingStep(now: int, ev: FdEvents<Handler>)
      requires Inv() && state == Closing && ev.Valid() && ev.Registered(fd) && fd in ev.open && ev !in Parts()
      requires ev.handlers !in Parts()
      modifies sock, `state, `closeTimeoutTs, ev`kernel, ev`open, ev.handlers
      ensures Inv() && Parts() == old(Parts()) && state in {Closing, Closed}
      ensures Round(old(Now()), Now(), now, config.maxHead)
      ensures state == Closing ==> now - closeTimeoutTs <= CLOSE_TIMEOUT && unchanged(ev) && unchanged(ev.handlers)
      ensures state == Closed ==> ev.Valid() && !ev.Registered(fd) && fd !in ev.kernel && ev.open == old(ev.open) - {fd}
      ensures state == Closed ==> forall f | 0 <= f < ev.handlers.Length && f != fd ::
                ev.handlers[f] == old(ev.handlers[f])
    {
      hide *;
      NowIs();
      ghost var before := Now();
      InAnyState();
      Apart();
      ghost var n, errno := CloseStep(now, ev);
      NowIs();
      CloseRoundIs(before, Now(), now, config.maxHead, n, errno);
    }

    /**
     The loop of connection_state_machine() goes on while the state changes. It ends for every answer
     of the socket, and only where it may rest or when the connection is closed.
     */
    method Loop(now: int, ev: FdEvents<Handler>)
      requires Inv() && state != Closed
      requires ev.Valid() && ev.Registered(fd) && fd in ev.open && ev !in Parts() && ev.handlers !in Parts()
      modifies this, sock, Parts(), ev`kernel, ev`open, ev.handlers
      ensures Inv() && (forall o | o in Parts() :: o in old(Parts()) || fresh(o))
      ensures state == Closed || Resting()
      ensures Ran(old(Now()), Now(), now, config.maxHead)
      ensures state == Closing ==> now - closeTimeoutTs <= CLOSE_TIMEOUT
      ensures state != Closed ==> unchanged(ev) && unchanged(ev.handlers)
      ensures state == Closed ==> ev.Valid() && !ev.Registered(fd) && fd !in ev.kernel && ev.open == old(ev.open) - {fd}
      ensures state == Closed ==> forall f | 0 <= f < ev.handlers.Length && f != fd ::
                ev.handlers[f] == old(ev.handlers[f])
    {
      hide Inv, Shape, Parts, FullTotal, Wrap, FdEvents.Valid, FdEvents.Registered, Talk, CutOff, AtHand, Received;
      hide Round, OnTheWay, Ran, Config.Valid, ChunkQueue.Valid;
      var handleDone, begun := false, false;
      ghost var start := Now();
      BeforeRun(start, now, config.maxHead);
      while !handleDone && state != Closed
        invariant Inv() && (forall o | o in Parts() :: o in old(Parts()) || fresh(o))
        invariant OnTheWay(start, Now(), begun, handleDone, now, config.maxHead)
        invariant handleDone ==> Resting()
        invariant handleDone && state == Closing ==> now - closeTimeoutTs <= CLOSE_TIMEOUT
        invariant state != Closed ==> unchanged(ev) && unchanged(ev.handlers)
        invariant state == Closed ==>
                  ev.Valid() && !ev.Registered(fd) && fd !in ev.kernel && ev.open == old(ev.open) - {fd}
        invariant state == Closed ==> forall f | 0 <= f < ev.handlers.Length && f != fd ::
                  ev.handlers[f] == old(ev.handlers[f])
        decreases !handleDone, Rank(state, readable)
      {
        var oldState := state;
        ghost var before := Now();
        InAnyState();
        Apart();
        if state == Closing {
          ClosingStep(now, ev);
        } else if state == Reading {
          ReadingStep(now);
        } else if state in {RequestStart, RequestEnd, HandleRequest} {
          RequestStep(now);
        } else if state in {ResponseStart, Writing} {
          ResponseStep(now);
        } else {
          EndingStep(now);
        }
        OneMoreRound(start, before, Now(), begun, now, config.maxHead);
        RankFalls(before, Now(), now, config.maxHead);
        handleDone, begun := state == oldState, true;
      }
      RunEnds(start, Now(), begun, handleDone, now, config.maxHead);
    }

    /**
     What the events say of an error: a hangup ends the wait for a close at the time it asks for, which
     the worker's clock may not have reached, and else is one.
     */
    method TakeErrors(events: Mask)
      requires Inv() && state in {Reading, Writing, Closing}
      modifies `state, `closeTimeoutTs, `asked, sock`answers
      ensures Inv() && state in {old(state), Erring}
      ensures asked == if state == Erring then old(AtHand()) else old(asked)
      ensures state == Erring <==> if events & EPOLLHUP != 0 then old(state) != Closing else events & EPOLLERR != 0
      ensures sock.answers == old(sock.answers) + if events & EPOLLHUP != 0 && old(state) == Closing
                                                  then [TimeGave(closeTimeoutTs + (CLOSE_TIMEOUT + 1))] else []
      ensures !(events & EPOLLHUP != 0 && old(state) == Closing) ==> closeTimeoutTs == old(closeTimeoutTs)
    {
      hide *;
      HasBits(events);
      InAnyState();
      ghost var over, rest := Over(state), AtHand();
      Apart();
      OtherBits(events);
      if Has(events, !(EPOLLIN | EPOLLOUT)) {
        if Has(events, EPOLLHUP) {
          if state == Closing {
            var time := sock.Time();
            closeTimeoutTs := time - (CLOSE_TIMEOUT + 1);
          } else {
            state := Erring;
          }
        } else if Has(events, EPOLLERR) {
          state := Erring;
        }
      }
      if state == Erring {
        CutShort(over, rest);
        ToErring();
      }
    }

    /** There is input, or room for output. */
    method TakeFlags(events: Mask)
      modifies `readable, `writeable
      ensures readable == (old(readable) || events & EPOLLIN != 0)
      ensures writeable == (old(writeable) || events & EPOLLOUT != 0)
    {
      hide *;
      HasBits(events);
      if Has(events, EPOLLIN) {
        readable := true;
      }
      if Has(events, EPOLLOUT) {
        writeable := true;
      }
    }

    /** connection_event_handle() before the machine runs. */
    method TakeEvents(events: Mask)
      requires Inv() && Resting()
      modifies `readable, `writeable, `state, `closeTimeoutTs, `asked, sock`answers
      ensures Inv() && state in {old(state), Erring}
      ensures asked == if state == Erring then old(AtHand()) else old(asked)
      ensures readable == (old(readable) || events & EPOLLIN != 0)
      ensures writeable == (old(writeable) || events & EPOLLOUT != 0)
      ensures state == Erring <==> if events & EPOLLHUP != 0 then old(state) != Closing else events & EPOLLERR != 0
      ensures sock.answers == old(sock.answers) + if events & EPOLLHUP != 0 && old(state) == Closing
                                                  then [TimeGave(closeTimeoutTs + (CLOSE_TIMEOUT + 1))] else []
      ensures !(events & EPOLLHUP != 0 && old(state) == Closing) ==> closeTimeoutTs == old(closeTimeoutTs)
      ensures Told(old(Now()), Now(), events)
    {
      hide *;
      NowIs();
      ghost var before := Now();
      OverIs();
      RestingIs();
      InAnyState();
      Apart();
      TakeFlags(events);
      TakeErrors(events);
      NowIs();
      ToldIs(before, Now(), events);
    }

    lemma NoData(a: Option<Answer>, data: seq<char>)
      requires a.None? ==> data == []
      requires a.Some? ==> a.value.ReadGave? && |data| == Max(a.value.n, 0)
      ensures a.Some? && a.value.n <= 0 ==> data == []
    {
    }

    /** One read of a run, when an event says that there is input: what it gave, if anything. */
    method ReadMore(now: int) returns (ghost part: Option<seq<char>>)
      requires Inv() && state == Reading
      modifies `state, `readable, `writeable, `httpStatus, `keepAlive, `activeReadTs, `closeTimeoutTs, `asked
      modifies sock, Parts()
      ensures Inv() && (forall o | o in Parts() :: o in old(Parts()) || fresh(o)) && history == old(history)
      ensures Received() == old(Received()) + if part.Some? then part.value else []
      ensures part.None? ==> state in {Reading, Erring, Closing}
      ensures part.Some? ==> state == AfterJudge(Judge(Received(), config.maxHead))
    {
      hide *;
      assert old(Received()) + [] == Received();
      var events: Mask := *;
      ReadingRests();
      TakeEvents(events);
      if state != Reading {
        return None;
      }
      ghost var a, data := ReadStep(now);
      NoData(a, data);
      part := if a.Some? && a.value.n > 0 then Some(data) else None;
      AfterJudgeIs(Judge(Received(), config.maxHead));
    }

    /**
     A run of reads, as long as it is CON_STATE_READ that rests: the state it ends in is that of the
     verdict on all that was read, one read after the other, unless the socket failed or was closed.
     */
    method ReadRun(now: int, steps: nat) returns (ghost parts: seq<seq<char>>)
      requires Inv() && state == Reading
      modifies `state, `readable, `writeable, `httpStatus, `keepAlive, `activeReadTs, `closeTimeoutTs, `asked
      modifies sock, Parts()
      ensures Inv() && (forall o | o in Parts() :: o in old(Parts()) || fresh(o)) && history == old(history)
      ensures Received() == old(Received()) + Flat(parts)
      ensures state in {Erring, Closing} || state == AfterJudge(Feed(old(Received()), parts, config.maxHead))
      ensures state == RequestEnd ==>
                content.Valid() && Feed(old(Received()), parts, config.maxHead) == Verdict.Complete(content.Contents())
    {
      hide *;
      parts := [];
      ghost var start := Received();
      NoParts(start);
      var n := 0;
      while n < steps && state == Reading
        invariant Inv() && (forall o | o in Parts() :: o in old(Parts()) || fresh(o)) && history == old(history)
        invariant Received() == start + Flat(parts)
        invariant state in {Reading, Erring, Closing} ||
                  Feed(start, parts, config.maxHead) == Judge(Received(), config.maxHead)
        invariant state == Reading ==> Feed(start, parts, config.maxHead) == Waiting
        invariant state in {Erring, Closing} || state == AfterJudge(Feed(start, parts, config.maxHead))
      {
        ghost var part := ReadMore(now);
        if part.Some? {
          FeedSnoc(start, parts, part.value, config.maxHead);
          FlatSnoc(parts, part.value);
          Associative(start, Flat(parts), part.value);
          parts := parts + [part.value];
          AfterJudgeIs(Judge(Received(), config.maxHead));
        }
        n := n + 1;
      }
      if state == RequestEnd {
        InRequestEnd();
      }
    }

    lemma NoParts(start: seq<char>)
      ensures Feed(start, [], config.maxHead) == Waiting && start + Flat([]) == start && AfterJudge(Waiting) == Reading
    {
    }

    lemma ReadingRests()
      requires state == Reading
      ensures Resting()
    {
    }

    /**
     However the peer's bytes come in: of a stream whose first CR LF CR LF stops at the limit plus one or
     before, the connection goes on with exactly the head, as soon as it was read.
     */
    method ReadStream(now: int, steps: nat, ghost s: seq<char>, ghost t: nat) returns (ghost parts: seq<seq<char>>)
      requires Inv() && state == Reading && FirstEnd(s, t) && t <= config.maxHead + 1
      modifies `state, `readable, `writeable, `httpStatus, `keepAlive, `activeReadTs, `closeTimeoutTs, `asked
      modifies sock, Parts()
      ensures Inv() && (forall o | o in Parts() :: o in old(Parts()) || fresh(o)) && history == old(history)
      ensures Received() == old(Received()) + Flat(parts)
      ensures Received() <= s && state !in {Erring, Closing} ==>
                t <= |s| && state == (if |Received()| >= t then RequestEnd else Reading)
      ensures Received() <= s && state == RequestEnd ==> t <= |s| && content.Valid() && content.Contents() == s[..t]
    {
      hide *;
      InReading();
      ghost var start := Received();
      parts := ReadRun(now, steps);
      if Received() <= s {
        StreamFed(start, parts, s, t);
        AfterJudgeIs(Feed(start, parts, config.maxHead));
      }
    }

    lemma StreamFed(start: seq<char>, parts: seq<seq<char>>, s: seq<char>, t: nat)
      requires FirstEnd(s, t) && t <= config.maxHead + 1 && start + Flat(parts) <= s
      requires Judge(start, config.maxHead) == Waiting
      ensures t <= |s|
      ensures Feed(start, parts, config.maxHead) ==
                if |start + Flat(parts)| >= t then Verdict.Complete(s[..t]) else Waiting
    {
      hide FirstEnd, Judge, Feed;
      FirstEndIsEnd(s, t);
      var n := |start|;
      assert s[..n] == start && s[n..n + |Flat(parts)|] == Flat(parts);
      JudgePrefix(s, t, n, config.maxHead);
      FeedIndependent(s, t, n, parts, config.maxHead);
    }

    lemma RestingIs()
      requires Resting()
      ensures state in {Reading, Writing, Closing}
    {
    }

    /**
     What the end of connection_state_machine() watches for; 0 stands for nothing. A connection that
     rests is never left unwatched: one that writes still has bytes to send, and its socket was full.
     */
    method WaitsFor() returns (events: Mask)
      requires Inv() && Resting()
      ensures events == (if state == Writing then EPOLLOUT else EPOLLIN) == Wanted(state)
    {
      hide Inv, Shape, Parts, FullTotal, Wrap, Talk;
      InAnyState();
      Apart();
      if state == Reading || state == Closing {
        events := EPOLLIN;
      } else {
        var length := writequeue.Length();
        events := if length != 0 && !writeable then EPOLLOUT else 0;
      }
    }

    lemma HasParts()
      requires Inv()
      ensures Repr() == {this, sock} + Parts() && {this, sock, readqueue, writequeue, content} <= Repr()
      ensures allocated(Repr())
    {
      hide Shape, ChunkQueue.Valid, Text, Talk, StateInv;
      Apart();
    }

    /** connection_set_state(conn, CON_STATE_ERROR), from outside of the machine. */
    method SetError()
      requires Inv()
      modifies `state, `asked
      ensures Inv() && state == Erring && asked == old(AtHand())
    {
      hide *;
      InAnyState();
      Apart();
      CutShort(Over(state), AtHand());
      state := Erring;
      ToErring();
    }
  }
}
