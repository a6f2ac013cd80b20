/** The worker of src/worker.cpp: its table of connections, the idle sweep, and the event loop around them. */
module Workers {
  import opened Words
  import opened Pieces
  import opened FdEventRegistry
  import opened Connections
  import opened Runs
  import opened Exchanges

  /** The number of slots in use. */
  ghost function Live(slots: seq<Connection?>): nat {
    if slots == [] then 0 else Live(slots[..|slots| - 1]) + if slots[|slots| - 1] != null then 1 else 0
  }

  lemma {:induction false} LiveUpdate(slots: seq<Connection?>, i: nat, c: Connection?)
    requires i < |slots|
    ensures Live(slots[i := c]) == Live(slots) + (if c != null then 1 else 0) - (if slots[i] != null then 1 else 0)
  {
    var n := |slots| - 1;
    if i < n {
      LiveUpdate(slots[..n], i, c);
      assert slots[i := c][..n] == slots[..n][i := c];
    } else {
      assert slots[i := c][..n] == slots[..n];
    }
  }

  /** By counting: all slots are in use exactly when as many are as there are. */
  lemma {:induction false} AllLive(slots: seq<Connection?>)
    ensures Live(slots) <= |slots|
    ensures Live(slots) == |slots| <==> forall i | 0 <= i < |slots| :: slots[i] != null
  {
    if slots != [] {
      var n := |slots| - 1;
      AllLive(slots[..n]);
      assert forall i | 0 <= i < n :: slots[..n][i] == slots[i];
    }
  }

  lemma {:induction false} NoneLive(slots: seq<Connection?>)
    requires forall i | 0 <= i < |slots| :: slots[i] == null
    ensures Live(slots) == 0
  {
    if slots != [] {
      NoneLive(slots[..|slots| - 1]);
    }
  }

  /** What the sweep looks at. */
  ghost function Stamps(c: Connection): (State, int, int, int)
    reads c`state, c`activeReadTs, c`activeWriteTs, c`closeTimeoutTs
  {
    (c.state, c.activeReadTs, c.activeWriteTs, c.closeTimeoutTs)
  }

  /** The tests of the sweep, on the state and the three times of a connection. */
  ghost predicate OnTime(stamps: (State, int, int, int), now: int, config: Config) {
    && (stamps.0 == Reading ==> now - stamps.1 <= config.maxReadIdle)
    && (stamps.0 == Writing && stamps.2 != 0 ==> now - stamps.2 <= config.maxWriteIdle)
    && (stamps.0 == Closing ==> now - stamps.3 <= CLOSE_TIMEOUT)
  }

  /**
   What the kernel told the worker: the events of a descriptor, the time, or what recvmsg() gave on the
   domain socket; and what became of a connection: as it was, as its events made it, and after its run.
   */
  datatype Note =
    | Wakeup(fd: int, events: Mask)
    | Clock(t: int)
    | Message(n: int, retry: bool)
    | Turn(fd: int, events: Mask, from: Stance, start: Stance, to: Stance, now: int, maxHead: nat)

  /** The number of wakeups. */
  function Wakeups(notes: seq<Note>): nat {
    if notes == [] then 0 else Wakeups(notes[..|notes| - 1]) + if notes[|notes| - 1].Wakeup? then 1 else 0
  }

  lemma OneMoreNote(notes: seq<Note>, x: Note)
    ensures Wakeups(notes + [x]) == Wakeups(notes) + if x.Wakeup? then 1 else 0
  {
    assert (notes + [x])[..|notes|] == notes;
  }

  /**
   The wakeup was answered by the next note: on the timer the time was asked for, on the domain socket a
   descriptor was received, and a connection took its turn.
   */
  ghost predicate Heeds(fd: int, events: Mask, next: Option<Note>, unixFd: int, timerFd: int) {
    if fd == timerFd then events & EPOLLIN != 0 ==> next.Some? && next.value.Clock?
    else if fd == unixFd then
      events & EPOLLHUP == 0 && events & EPOLLERR == 0 ==> next.Some? && next.value.Message?
    else
      && next.Some? && next.value.Turn?
      && var x := next.value;
         && x.fd == fd && x.events == events && Told(x.from, x.start, events)
         && Ran(x.start, x.to, x.now, x.maxHead)
  }

  function NoteAt(notes: seq<Note>, i: nat): Option<Note> {
    if i < |notes| then Some(notes[i]) else None
  }

  /** Every wakeup was answered at once. */
  ghost predicate AllHeeded(notes: seq<Note>, unixFd: int, timerFd: int) {
    forall i | 0 <= i < |notes| && notes[i].Wakeup? ::
      Heeds(notes[i].fd, notes[i].events, NoteAt(notes, i + 1), unixFd, timerFd)
  }

  class Worker {
    const conn: array<Connection?>
    var curConnectionNumber: nat
    const ev: FdEvents<Handler>
    var curTs: int
    const config: Config
    const files: Files
    const unixFd: int
    const timerFd: int
    ghost var world: set<object>  // what the connections are made of
    ghost var listening: bool     // the domain socket is watched
    ghost var notes: seq<Note>    // everything the kernel told

    /** An empty table at the time `now`; only the worker's own two descriptors have handlers. */
    constructor (
      ev: FdEvents<Handler>, unixFd: int, timerFd: int, size: nat, config: Config, files: Files, now: int)
      requires ev.Valid() && config.Valid() && unixFd != timerFd
      requires ev.Watches(unixFd, UnixSocket, EPOLLIN) && ev.Watches(timerFd, Timer, EPOLLIN)
      requires forall fd | ev.Registered(fd) :: fd == unixFd || fd == timerFd
      ensures Valid() && this.ev == ev && this.unixFd == unixFd && this.timerFd == timerFd
      ensures this.config == config && this.files == files
      ensures conn.Length == size && curConnectionNumber == 0 && listening && curTs == now && notes == []
    {
      this.ev, this.unixFd, this.timerFd, this.config, this.files := ev, unixFd, timerFd, config, files;
      conn := new Connection?[size](_ => null);
      curConnectionNumber, curTs, world := 0, now, {};
      listening, notes := true, [];
      new;
      NoneLive(conn[..]);
    }

    /** The connection is its descriptor's handler, and the kernel watches for what it waits for. */
    ghost predicate Watched(c: Connection, events: Mask)
      reads ev, ev.handlers
    {
      Attached(c) && ev.handlers[c.fd].value.events == events
    }

    ghost predicate Attached(c: Connection)
      reads ev, ev.handlers
    {
      c.fd in ev.open && ev.Registered(c.fd) && ev.handlers[c.fd].value.context == OfConnection(c)
    }

    /** The counter is the number of live connections. */
    ghost predicate Counted()
      reads `curConnectionNumber, conn
    {
      curConnectionNumber == Live(conn[..])
    }

    ghost predicate Base()
      reads `curConnectionNumber, `world, conn, ev, ev.handlers
    {
      && ev.Valid() && config.Valid() && Counted()
      && this !in world && conn !in world && ev !in world && ev.handlers !in world
    }

    lemma BaseParts()
      requires Base()
      ensures ev.Valid() && config.Valid() && Counted()
      ensures this !in world && conn !in world && ev !in world && ev.handlers !in world
    {
    }

    lemma NowBase()
      requires ev.Valid() && config.Valid() && Counted()
      requires this !in world && conn !in world && ev !in world && ev.handlers !in world
      ensures Base()
    {
    }

    /**
     Every descriptor with a handler is the worker's own or that of a live connection; the timer is watched
     for input, and the domain socket as long as the worker listens.
     */
    ghost predicate Contexts()
      reads ev.handlers, conn, `listening
    {
      && ev.Watches(unixFd, UnixSocket, if listening then EPOLLIN else 0) && ev.Watches(timerFd, Timer, EPOLLIN)
      && forall fd | ev.Registered(fd) ::
           match ev.handlers[fd].value.context
           case UnixSocket => fd == unixFd
           case Timer => fd == timerFd
           case OfConnection(c) => c.fd == fd && c.connectionIndex < conn.Length && conn[c.connectionIndex] == c
    }

    /** The connection in slot `i` knows its slot, and is part of the worker's world. */
    ghost predicate Sits(i: nat)
      requires i < conn.Length && conn[i] != null
      reads conn, `world
    {
      var c := conn[i];
      && c.connectionIndex == i && c.config == config && c.files == files
      && {c, c.sock, c.readqueue, c.writequeue, c.content} <= world
    }

    /** The invariant of every live connection holds. */
    ghost predicate Served()
      reads conn, `world, world
    {
      forall i | 0 <= i < conn.Length && conn[i] != null :: Sits(i) && conn[i].Repr() <= world && conn[i].Inv()
    }

    /** No two connections share an object. */
    ghost predicate Separated()
      requires Served()
      reads conn, `world, world
    {
      forall i, j | 0 <= i < j < conn.Length && conn[i] != null && conn[j] != null :: conn[i].Repr() !! conn[j].Repr()
    }

    /** All rest and are watched, but for the one in slot `k`, which need not be at rest. */
    ghost predicate Rested(k: int)
      requires Served()
      reads conn, ev, ev.handlers, `world, world
    {
      forall i | 0 <= i < conn.Length && conn[i] != null && i != k ::
        conn[i].Resting() && Watched(conn[i], Wanted(conn[i].state))
    }

    ghost predicate Table(k: int)
      reads conn, ev, ev.handlers, `world, world
    {
      Served() && Separated() && Rested(k)
    }

    /** The whole worker is in order; the connection in slot `k` need not be at rest. */
    ghost predicate ValidBut(k: int)
      reads `curConnectionNumber, `world, `listening, conn, ev, ev.handlers, world
    {
      Base() && Contexts() && Table(k)
    }

    ghost predicate Valid()
      reads `curConnectionNumber, `world, `listening, conn, ev, ev.handlers, world
    {
      ValidBut(-1)
    }

    lemma PartsOf(k: int)
      requires ValidBut(k)
      ensures Base() && Contexts()
      ensures this !in world && conn !in world && ev !in world && ev.handlers !in world
    {
    }

    /** What a connection in the table is made of, apart from the worker's own objects. */
    lemma Solid(i: nat)
      requires i < conn.Length && conn[i] != null && Base() && Sits(i) && conn[i].Repr() <= world && conn[i].Inv()
      ensures var c := conn[i];
              && allocated(c.Repr()) && c.Repr() == {c, c.sock} + c.Parts()
              && {c.readqueue, c.writequeue, c.content} <= c.Repr()
              && this !in c.Repr() && conn !in c.Repr() && ev !in c.Repr() && ev.handlers !in c.Repr()
    {
      hide Connection.Inv, Connection.Resting, Connection.Shape, FdEvents.Valid, Counted;
      conn[i].InAnyState();
      conn[i].Apart();
    }

    lemma Lives(i: nat, k: int)
      requires ValidBut(k) && i < conn.Length && conn[i] != null
      ensures var c := conn[i];
              && Sits(i) && c.Repr() <= world && c.Inv() && allocated(c.Repr()) && c.Repr() == {c, c.sock} + c.Parts()
              && {c.readqueue, c.writequeue, c.content} <= c.Repr()
              && this !in c.Repr() && conn !in c.Repr() && ev !in c.Repr() && ev.handlers !in c.Repr()
              && (i != k ==> c.Resting() && Watched(c, Wanted(c.state)))
    {
      hide Connection.Inv, Connection.Resting, FdEvents.Valid, Counted, Connection.Parts;
      Solid(i);
    }

    lemma LiveApart(i: nat, j: nat, k: int)
      requires ValidBut(k) && i < conn.Length && conn[i] != null && j < conn.Length && conn[j] != null && i != j
      ensures conn[i].Repr() !! conn[j].Repr() && conn[i] != conn[j]
      ensures Attached(conn[i]) && Attached(conn[j]) ==> conn[i].fd != conn[j].fd
    {
      hide Connection.Inv, Connection.Resting, FdEvents.Valid, Connection.Parts;
    }

    /** All but the connection in slot `k` are in order, and it does not share an object with them. */
    ghost predicate Around(k: nat)
      reads `curConnectionNumber, `world, `listening, conn, ev, ev.handlers, world
    {
      && k < conn.Length && conn[k] != null && Sits(k)
      && (forall i | 0 <= i < conn.Length && conn[i] != null && i != k ::
            && Sits(i) && conn[i].Repr() <= world && conn[i].Inv() && conn[i].Resting()
            && Watched(conn[i], Wanted(conn[i].state)) && conn[i].Repr() !! conn[k].Repr())
      && (forall i, j | 0 <= i < j < conn.Length && i != k && j != k && conn[i] != null && conn[j] != null ::
            conn[i].Repr() !! conn[j].Repr())
    }

    lemma WatchedIs(c: Connection, events: Mask)
      requires Watched(c, events)
      ensures Attached(c) && c.fd in ev.open && 0 <= c.fd < ev.handlers.Length && ev.handlers[c.fd].Some?
      ensures ev.handlers[c.fd].value.context == OfConnection(c) && ev.handlers[c.fd].value.events == events
    {
    }

    lemma NowAround(k: nat)
      requires k < conn.Length && conn[k] != null && Sits(k)
      requires forall i | 0 <= i < conn.Length && conn[i] != null && i != k ::
                 && Sits(i) && conn[i].Repr() <= world && conn[i].Inv() && conn[i].Resting()
                 && conn[i].Repr() !! conn[k].Repr()
      requires forall i | 0 <= i < conn.Length && conn[i] != null && i != k ::
                 && conn[i].fd in ev.open && 0 <= conn[i].fd < ev.handlers.Length && ev.handlers[conn[i].fd].Some?
                 && ev.handlers[conn[i].fd].value.context == OfConnection(conn[i])
                 && ev.handlers[conn[i].fd].value.events == Wanted(conn[i].state)
      requires forall i, j | 0 <= i < j < conn.Length && i != k && j != k && conn[i] != null && conn[j] != null ::
                 conn[i].Repr() !! conn[j].Repr()
      ensures Around(k)
    {
      hide Connection.Inv, Connection.Resting, Connection.Repr, Wanted;
    }

    /** The machine of a connection runs, and the worker's own things stay in order. */
    method Spin(c: Connection)
      requires Base() && Contexts() && c.Inv() && Attached(c) && c.state != Closed
      requires this !in c.Repr() && conn !in c.Repr() && ev !in c.Repr() && ev.handlers !in c.Repr()
      modifies c, c.sock, c.Parts(), ev`kernel, ev`open, ev.handlers
      ensures Base() && Contexts() && c.Inv() && forall o | o in c.Parts() :: o in old(c.Parts()) || fresh(o)
      ensures c.state == Closed ==> !ev.Registered(c.fd)
      ensures c.state != Closed ==> Attached(c) && c.Resting()
      ensures old(c.state) == RequestStart && !old(c.readable) ==> c.state == Reading
      ensures old(c.state) in {Erring, Closing} ==> c.state in {Closing, Closed}
      ensures c.state == Closing ==> curTs - c.closeTimeoutTs <= CLOSE_TIMEOUT
      ensures forall f | f in old(ev.open) && f != c.fd :: f in ev.open
      ensures forall f | 0 <= f < ev.handlers.Length && f != c.fd :: ev.handlers[f] == old(ev.handlers[f])
      ensures old(c.history) <= c.history
      ensures Ran(old(c.Now()), c.Now(), curTs, c.config.maxHead)
    {
      hide Connection.Inv, Connection.Resting, Connection.Parts, FdEvents.Valid, Config.Valid, Counted, Base;
      BaseParts();
      c.Loop(curTs, ev);
      NowBase();
      RanToo(old(c.Now()), c.Now(), curTs, c.config.maxHead);
    }

    /** The machine of the connection in slot `k` runs until it rests or is closed. */
    method RunLoop(k: nat)
      requires k < conn.Length && conn[k] != null && ValidBut(k) && Attached(conn[k]) && conn[k].state != Closed
      modifies conn[k].Repr(), ev`kernel, ev`open, ev.handlers
      ensures Base() && Contexts() && Around(k)
      ensures conn[k].Inv() && forall o | o in conn[k].Repr() :: o in old(conn[k].Repr()) || fresh(o)
      ensures conn[k].state == Closed ==> !ev.Registered(conn[k].fd)
      ensures conn[k].state != Closed ==> Attached(conn[k]) && conn[k].Resting()
      ensures old(conn[k].state) == RequestStart && !old(conn[k].readable) ==> conn[k].state == Reading
      ensures old(conn[k].state) in {Erring, Closing} ==> conn[k].state in {Closing, Closed}
      ensures conn[k].state == Closing ==> curTs - conn[k].closeTimeoutTs <= CLOSE_TIMEOUT
      ensures forall i | 0 <= i < conn.Length && conn[i] != null && i != k :: Stamps(conn[i]) == old(Stamps(conn[i]))
      ensures old(conn[k].history) <= conn[k].history
      ensures forall i | 0 <= i < conn.Length && conn[i] != null && i != k :: conn[i].history == old(conn[i].history)
      ensures Ran(old(conn[k].Now()), conn[k].Now(), curTs, conn[k].config.maxHead)
    {
      hide *;
      PartsOf(k);
      Lives(k, k);
      var c := conn[k];
      forall i | 0 <= i < conn.Length && conn[i] != null && i != k
        ensures conn[i].Repr() !! c.Repr() && conn[i].fd != c.fd && conn[i].Resting() && conn[i].Inv()
        ensures Sits(i) && conn[i].Repr() <= world
        ensures {conn[i].readqueue, conn[i].writequeue, conn[i].content} <= conn[i].Repr()
        ensures conn[i].Repr() == {conn[i], conn[i].sock} + conn[i].Parts() && allocated(conn[i].Repr())
        ensures conn[i].fd in ev.open && 0 <= conn[i].fd < ev.handlers.Length && ev.handlers[conn[i].fd].Some?
        ensures ev.handlers[conn[i].fd].value.context == OfConnection(conn[i])
        ensures ev.handlers[conn[i].fd].value.events == Wanted(conn[i].state)
      {
        Lives(i, k);
        LiveApart(i, k, k);
        WatchedIs(conn[i], Wanted(conn[i].state));
      }
      forall i, j | 0 <= i < j < conn.Length && i != k && j != k && conn[i] != null && conn[j] != null
        ensures conn[i].Repr() !! conn[j].Repr()
      {
        LiveApart(i, j, k);
      }
      Spin(c);
      c.HasParts();
      NowAround(k);
    }

    /** The objects the connection in slot `k` was given become part of the world. */
    ghost method Adopt(k: nat)
      requires Base() && Contexts() && Around(k) && conn[k].Inv()
      requires this !in conn[k].Repr() && conn !in conn[k].Repr() && ev !in conn[k].Repr()
      requires ev.handlers !in conn[k].Repr()
      modifies `world
      ensures ValidBut(k) && world == old(world) + conn[k].Repr()
    {
      hide Connection.Inv, Connection.Resting, Connection.Parts, FdEvents.Valid, Config.Valid, Contexts, Watched;
      hide Wanted, Counted;
      world := world + conn[k].Repr();
    }

    method SetSlot(k: nat, c: Connection?)
      requires k < conn.Length && Counted() && (conn[k] == null <==> c != null)
      modifies conn, `curConnectionNumber
      ensures Counted() && conn[k] == c && forall i | 0 <= i < conn.Length && i != k :: conn[i] == old(conn[i])
      ensures curConnectionNumber == old(curConnectionNumber) + if c != null then 1 else -1
    {
      ghost var before := conn[..];
      LiveUpdate(before, k, c);
      conn[k] := c;
      assert conn[..] == before[k := c];
      curConnectionNumber := if c != null then curConnectionNumber + 1 else curConnectionNumber - 1;
    }

    /** The connection in slot `k` was closed: its slot is free again. */
    method FreeSlot(k: nat)
      requires Base() && Contexts() && Around(k) && !ev.Registered(conn[k].fd)
      modifies conn, `curConnectionNumber
      ensures Valid() && conn[k] == null && forall i | 0 <= i < conn.Length && i != k :: conn[i] == old(conn[i])
    {
      hide Connection.Inv, Connection.Resting, Connection.Parts, FdEvents.Valid, Config.Valid, Watched, Wanted, Counted;
      forall i | 0 <= i < conn.Length && conn[i] != null && i != k
        ensures conn !in conn[i].Repr() && this !in conn[i].Repr()
        ensures conn[i].Repr() == {conn[i], conn[i].sock} + conn[i].Parts()
        ensures {conn[i].readqueue, conn[i].writequeue, conn[i].content} <= conn[i].Repr()
      {
        Solid(i);
      }
      SetSlot(k, null);
    }

    /** fdevents_set_events() or, for 0, fdevents_unset_event(); whose handler is whose stays. */
    method Watch(fd: int, events: Mask)
      requires Base() && Contexts() && ev.Registered(fd) && ev.handlers[fd].value.context.OfConnection?
      modifies ev`kernel, ev.handlers
      ensures Base() && Contexts()
      ensures ev.Watches(fd, old(ev.handlers[fd].value.context), events) && (events == 0 ==> fd !in ev.kernel)
      ensures forall f | 0 <= f < ev.handlers.Length && f != fd :: ev.handlers[f] == old(ev.handlers[f])
    {
      hide FdEvents.Valid, Config.Valid, Counted, WithErrors;
      if events != 0 {
        ev.SetEvents(fd, events);
      } else {
        ev.UnsetEvent(fd);
      }
    }

    /** After its machine stopped, the kernel watches for what the connection in slot `k` waits for. */
    method Arm(k: nat)
      requires k < conn.Length && conn[k] != null && ValidBut(k) && Attached(conn[k]) && conn[k].Resting()
      modifies ev`kernel, ev.handlers
      ensures Valid()
    {
      hide Connection.Inv, Connection.Resting, Connection.Parts, FdEvents.Valid, Config.Valid, Counted, Contexts;
      hide Wanted;
      Lives(k, k);
      var events := conn[k].WaitsFor();
      ArmFor(k, events);
    }

    method ArmFor(k: nat, events: Mask)
      requires k < conn.Length && conn[k] != null && ValidBut(k) && Attached(conn[k]) && conn[k].Resting()
      requires events == Wanted(conn[k].state)
      modifies ev`kernel, ev.handlers
      ensures Valid()
    {
      hide Connection.Inv, Connection.Resting, Connection.Parts, Base, Contexts, Served, Separated, Wanted;
      var c := conn[k];
      forall i | 0 <= i < conn.Length && conn[i] != null
        ensures ev !in conn[i].Repr() && ev.handlers !in conn[i].Repr()
        ensures conn[i].Repr() == {conn[i], conn[i].sock} + conn[i].Parts()
        ensures conn[i].writequeue in conn[i].Repr() && (i != k ==> conn[i].fd != c.fd)
      {
        Lives(i, k);
        if i != k {
          LiveApart(i, k, k);
        }
      }
      BaseParts();
      Watch(c.fd, events);
    }

    /**
     connection_state_machine() for the connection in slot `k`: it runs, and then its slot is freed or
     the kernel watches for what it waits for.
     */
    method StateMachine(k: nat)
      requires k < conn.Length && conn[k] != null && ValidBut(k) && Attached(conn[k]) && conn[k].state != Closed
      modifies conn[k].Repr(), ev`kernel, ev`open, ev.handlers, conn, `curConnectionNumber, `world
      ensures Valid() && forall o | o in world :: o in old(world) || fresh(o)
      ensures conn[k] == null || conn[k] == old(conn[k])
      ensures old(conn[k].state) == RequestStart && !old(conn[k].readable) ==>
                conn[k] == old(conn[k]) && conn[k].state == Reading
      ensures old(conn[k].state) in {Erring, Closing} ==> conn[k] == null || conn[k].state == Closing
      ensures conn[k] != null && conn[k].state == Closing ==> curTs - conn[k].closeTimeoutTs <= CLOSE_TIMEOUT
      ensures forall i | 0 <= i < conn.Length && i != k :: conn[i] == old(conn[i])
      ensures forall i | 0 <= i < conn.Length && conn[i] != null && i != k :: Stamps(conn[i]) == old(Stamps(conn[i]))
      ensures conn[k] != null ==> old(conn[k].history) <= conn[k].history
      ensures forall i | 0 <= i < conn.Length && conn[i] != null && i != k :: conn[i].history == old(conn[i].history)
      ensures var c := old(conn[k]);
              && Ran(old(conn[k].Now()), c.Now(), curTs, c.config.maxHead) && (conn[k] == null <==> c.state == Closed)
    {
      hide Connection.Inv, Connection.Resting, Connection.Parts, FdEvents.Valid, Config.Valid, Base, Contexts;
      hide Wanted, Table;
      hide Around, Attached;
      Lives(k, k);
      RunLoop(k);
      if conn[k].state == Closed {
        FreeSlot(k);
      } else {
        Adopt(k);
        Arm(k);
      }
    }

    /** The first free slot: there is one whenever the counter is below the size of the table. */
    method FindFree() returns (k: nat)
      requires Counted() && curConnectionNumber < conn.Length
      ensures k < conn.Length && conn[k] == null && forall i | 0 <= i < k :: conn[i] != null
    {
      AllLive(conn[..]);
      k := 0;
      while k < conn.Length && conn[k] != null
        invariant k <= conn.Length && forall i | 0 <= i < k :: conn[i] != null
      {
        k := k + 1;
      }
    }

    /** The objects of a new connection become part of the world. */
    ghost method Welcome(c: Connection)
      requires Valid() && c.Inv() && c.Repr() !! world
      requires this !in c.Repr() && conn !in c.Repr() && ev !in c.Repr() && ev.handlers !in c.Repr()
      requires {c, c.sock, c.readqueue, c.writequeue, c.content} <= c.Repr()
      modifies `world
      ensures Valid() && world == old(world) + c.Repr()
      ensures forall i | 0 <= i < conn.Length && conn[i] != null :: conn[i].Repr() !! c.Repr()
    {
      hide Connection.Inv, Connection.Resting, Connection.Parts, FdEvents.Valid, Config.Valid, Watched, Wanted;
      hide Counted, Contexts;
      world := world + c.Repr();
    }

    /** A new connection takes the free slot `k`. */
    method Seat(k: nat, c: Connection)
      requires Valid() && k < conn.Length && conn[k] == null
      requires c.Inv() && c.connectionIndex == k && c.config == config && c.files == files
      requires c.Repr() <= world && {c, c.sock, c.readqueue, c.writequeue, c.content} <= c.Repr()
      requires c.Repr() == {c, c.sock} + c.Parts()
      requires forall i | 0 <= i < conn.Length && conn[i] != null :: conn[i].Repr() !! c.Repr()
      modifies conn, `curConnectionNumber
      ensures conn[k] == c && ValidBut(k) && forall i | 0 <= i < conn.Length && i != k :: conn[i] == old(conn[i])
      ensures curConnectionNumber == old(curConnectionNumber) + 1
    {
      hide Connection.Inv, Connection.Resting, Connection.Parts, FdEvents.Valid, Config.Valid, Watched, Wanted, Counted;
      forall i | 0 <= i < conn.Length && conn[i] != null
        ensures conn !in conn[i].Repr() && this !in conn[i].Repr()
        ensures conn[i].Repr() == {conn[i], conn[i].sock} + conn[i].Parts()
        ensures {conn[i].readqueue, conn[i].writequeue, conn[i].content} <= conn[i].Repr()
      {
        Lives(i, -1);
      }
      SetSlot(k, c);
    }

    /** worker_get_new_connection(): a connection in a free slot, unless the table is full. */
    method GetNewConnection(fd: int) returns (k: nat)
      requires Valid()
      modifies conn, `curConnectionNumber, `world
      ensures k < conn.Length <==> old(curConnectionNumber) < conn.Length
      ensures forall o | o in world :: o in old(world) || fresh(o)
      ensures k >= conn.Length ==> Valid() && unchanged(this) && unchanged(conn)
      ensures k < conn.Length ==>
                && old(conn[k]) == null && conn[k] != null && conn[k].fd == fd && conn[k].state == RequestStart &&
                    !conn[k].readable && ValidBut(k)
                && fresh(conn[k].Repr()) && curConnectionNumber == old(curConnectionNumber) + 1
                && forall i | 0 <= i < conn.Length && i != k :: conn[i] == old(conn[i])
    {
      hide *;
      BaseIs();
      if curConnectionNumber >= conn.Length {
        return conn.Length;
      }
      k := FindFree();
      var c := new Connection(k, fd, config, files);
      c.HasParts();
      Welcome(c);
      Seat(k, c);
    }

    lemma BaseIs()
      requires Valid()
      ensures Base() && Counted() && config.Valid()
    {
    }

    /** The kernel's table of open descriptors may change where no handler is. */
    method TakeFd() returns (fd: int)
      requires Valid()
      modifies ev`open
      ensures Valid() && ev.open == if fd == -1 then old(ev.open) else old(ev.open) + {fd}
      ensures fd != -1 ==> fd !in old(ev.open) && !ev.Registered(fd) && 0 <= fd < ev.handlers.Length
    {
      hide Connection.Inv, Connection.Resting, Connection.Parts, Base, Contexts, Served, Separated, Wanted;
      Outside();
      fd := OpenFd();
    }

    method OpenFd() returns (fd: int)
      requires Base() && Contexts()
      modifies ev`open
      ensures Base() && Contexts() && ev.open == if fd == -1 then old(ev.open) else old(ev.open) + {fd}
      ensures fd != -1 ==> fd !in old(ev.open) && !ev.Registered(fd) && 0 <= fd < ev.handlers.Length
    {
      hide Config.Valid, Counted;
      fd := ev.OpenFd();
    }

    /** No connection is made of the registry's objects, and their descriptors have handlers. */
    lemma Outside()
      requires Valid()
      ensures Base() && ev !in world && ev.handlers !in world
      ensures forall i | 0 <= i < conn.Length && conn[i] != null ::
                ev !in conn[i].Repr() && ev.handlers !in conn[i].Repr() &&
                    conn[i].Repr() == {conn[i], conn[i].sock} + conn[i].Parts()
                && conn[i].writequeue in conn[i].Repr() && ev.Registered(conn[i].fd)
    {
      hide Connection.Inv, Connection.Resting, Connection.Parts, FdEvents.Valid, Contexts, Counted, Wanted;
      forall i | 0 <= i < conn.Length && conn[i] != null
        ensures ev !in conn[i].Repr() && ev.handlers !in conn[i].Repr()
        ensures conn[i].Repr() == {conn[i], conn[i].sock} + conn[i].Parts()
        ensures conn[i].writequeue in conn[i].Repr()
      {
        Lives(i, -1);
      }
    }

    /** The table is full: the descriptor is closed again. */
    method Refuse(fd: int)
      requires Valid() && fd in ev.open && !ev.Registered(fd)
      modifies ev`open
      ensures Valid() && ev.open == old(ev.open) - {fd}
    {
      hide Connection.Inv, Connection.Resting, Connection.Parts, Base, Contexts, Served, Separated, Wanted;
      Outside();
      CloseFd(fd);
    }

    method CloseFd(fd: int)
      requires Base() && Contexts() && fd in ev.open && !ev.Registered(fd)
      modifies ev`open
      ensures Base() && Contexts() && ev.open == old(ev.open) - {fd}
    {
      hide Config.Valid, Counted;
      ev.CloseFd(fd);
    }

    /** Registers the connection in slot `k` for its new descriptor. */
    method Register(k: nat)
      requires k < conn.Length && conn[k] != null && ValidBut(k)
      requires var fd := conn[k].fd; fd in ev.open && !ev.Registered(fd) && 0 <= fd < ev.handlers.Length
      modifies ev.handlers
      ensures ValidBut(k) && Attached(conn[k])
    {
      hide Connection.Inv, Connection.Resting, Connection.Parts, Base, Contexts, Served, Separated, Wanted;
      OutsideBut(k);
      RegisterFd(k);
    }

    method RegisterFd(k: nat)
      requires Base() && Contexts() && k < conn.Length && conn[k] != null && conn[k].connectionIndex == k
      requires var fd := conn[k].fd; fd in ev.open && !ev.Registered(fd) && 0 <= fd < ev.handlers.Length
      modifies ev.handlers
      ensures Base() && Contexts() && Attached(conn[k])
      ensures forall f | 0 <= f < ev.handlers.Length && f != conn[k].fd :: ev.handlers[f] == old(ev.handlers[f])
    {
      hide Config.Valid, Counted;
      ev.RegisterFd(conn[k].fd, OfConnection(conn[k]));
    }

    lemma OutsideBut(k: nat)
      requires k < conn.Length && conn[k] != null && ValidBut(k)
      ensures Base() && ev !in world && ev.handlers !in world && conn[k].connectionIndex == k
      ensures forall i | 0 <= i < conn.Length && conn[i] != null ::
                ev !in conn[i].Repr() && ev.handlers !in conn[i].Repr() &&
                    conn[i].Repr() == {conn[i], conn[i].sock} + conn[i].Parts()
                && conn[i].writequeue in conn[i].Repr() && (i != k ==> ev.Registered(conn[i].fd))
    {
      hide Connection.Inv, Connection.Resting, Connection.Parts, FdEvents.Valid, Contexts, Counted, Wanted;
      forall i | 0 <= i < conn.Length && conn[i] != null
        ensures ev !in conn[i].Repr() && ev.handlers !in conn[i].Repr()
        ensures conn[i].Repr() == {conn[i], conn[i].sock} + conn[i].Parts()
        ensures conn[i].writequeue in conn[i].Repr()
      {
        Lives(i, k);
      }
    }

    /**
     The hand-in part of unix_domain_socket_handle(): a received descriptor gets a connection whose
     machine starts and waits for a request in a slot that was free, or is closed again when the table is full.
     */
    method HandIn() returns (fd: int, k: nat)
      requires Valid()
      modifies ev`kernel, ev`open, ev.handlers, conn, `curConnectionNumber, `world
      ensures Valid() && forall o | o in world :: o in old(world) || fresh(o)
      ensures fd == -1 || old(curConnectionNumber) >= conn.Length ==> unchanged(conn) && ev.open == old(ev.open)
      ensures fd != -1 && old(curConnectionNumber) < conn.Length ==>
                && fd !in old(ev.open) && k < conn.Length && old(conn[k]) == null && conn[k] != null && fresh(conn[k])
                && conn[k].fd == fd && conn[k].state == Reading && Watched(conn[k], EPOLLIN)
      ensures forall i | 0 <= i < conn.Length && old(conn[i]) != null ::
                conn[i] == old(conn[i]) && Stamps(conn[i]) == old(Stamps(conn[i]))
      ensures forall i | 0 <= i < conn.Length && old(conn[i]) != null :: conn[i].history == old(conn[i].history)
      ensures forall i | 0 <= i < conn.Length && old(conn[i]) == null && conn[i] != null :: fresh(conn[i])
    {
      hide *;
      k := 0;
      fd := TakeFd();
      if fd == -1 {
        return;
      }
      k := GetNewConnection(fd);
      if k >= conn.Length {
        Refuse(fd);
      } else {
        Register(k);
        StateMachine(k);
        WaitsForInput(k);
      }
    }

    lemma WaitsForInput(k: nat)
      requires Valid() && k < conn.Length && conn[k] != null && conn[k].state == Reading
      ensures Watched(conn[k], EPOLLIN)
    {
      hide Connection.Inv, Connection.Resting, Connection.Parts, FdEvents.Valid, Watched;
    }

    /** Stops watching the domain socket. */
    method StopListening()
      requires Valid()
      modifies ev`kernel, ev.handlers, `listening
      ensures Valid() && !listening && unixFd !in ev.kernel
    {
      hide Connection.Inv, Connection.Resting, Connection.Parts, Base, Contexts, Served, Separated, Wanted;
      Outside();
      Apart();
      forall i | 0 <= i < conn.Length && conn[i] != null
        ensures conn[i].fd != unixFd
      {
        HandlerOfConnection(i, conn[i].fd);
      }
      Unwatch();
    }

    method Unwatch()
      requires Base() && Contexts()
      modifies ev`kernel, ev.handlers, `listening
      ensures Base() && Contexts() && !listening && unixFd !in ev.kernel
      ensures forall f | 0 <= f < ev.handlers.Length && f != unixFd :: ev.handlers[f] == old(ev.handlers[f])
    {
      hide Config.Valid, Counted;
      ev.UnsetEvent(unixFd);
      listening := false;
    }

    /** recvmsg() of a descriptor: more than 0 bytes when one came; a failure may be worth another try. */
    method Receive() returns (n: int, retry: bool)
      modifies `notes
      ensures notes == old(notes) + [Message(n, retry)]
    {
      n, retry := *, *;
      notes := notes + [Message(n, retry)];
    }

    /** time(). */
    method Time() returns (t: int)
      modifies `notes
      ensures notes == old(notes) + [Clock(t)]
    {
      t := *;
      notes := notes + [Clock(t)];
    }

    /**
     unix_domain_socket_handle(): `got` is the descriptor that was handed in, if any, and the slot its
     connection has, if there was room.
     */
    method UnixDomainSocketHandle(events: Mask) returns (ghost got: Option<(int, nat)>)
      requires Valid()
      modifies ev`kernel, ev`open, ev.handlers, conn, `curConnectionNumber, `world, `listening, `notes
      ensures Valid() && forall o | o in world :: o in old(world) || fresh(o)
      ensures forall i | 0 <= i < conn.Length && old(conn[i]) != null :: conn[i] == old(conn[i])
      ensures events & EPOLLHUP != 0 ==> notes == old(notes) && !listening
      ensures events & EPOLLHUP != 0 || events & EPOLLERR != 0 ==> unchanged(conn) && ev.open == old(ev.open)
      ensures events & EPOLLHUP == 0 && events & EPOLLERR != 0 ==>
                unchanged(ev) && unchanged(ev.handlers) && notes == old(notes) && listening == old(listening)
      ensures events & EPOLLHUP == 0 && events & EPOLLERR == 0 ==>
                && old(notes) < notes && |notes| == |old(notes)| + 1
                && var m := notes[|old(notes)|];
                   && m.Message?
                   && (m.n > 0 ==> got.Some? && listening == old(listening))
                   && (m.n <= 0 ==> got.None? && unchanged(conn) && ev.open == old(ev.open))
                   && (m.n <= 0 ==> listening == (old(listening) && m.n < 0 && m.retry))
      ensures got.Some? && (got.value.0 == -1 || old(curConnectionNumber) >= conn.Length) ==>
                unchanged(conn) && ev.open == old(ev.open)
      ensures got.Some? && got.value.0 != -1 && old(curConnectionNumber) < conn.Length ==>
                var (fd, k) := got.value;
                && fd !in old(ev.open) && k < conn.Length && old(conn[k]) == null && conn[k] != null && fresh(conn[k])
                && conn[k].fd == fd && conn[k].state == Reading && Watched(conn[k], EPOLLIN)
      ensures forall i | 0 <= i < conn.Length && old(conn[i]) != null :: conn[i].history == old(conn[i].history)
      ensures forall i | 0 <= i < conn.Length && old(conn[i]) == null && conn[i] != null :: fresh(conn[i])
    {
      hide *;
      got := None;
      HasBits(events);
      if Has(events, EPOLLHUP) {
        StopListening();
      } else if !Has(events, EPOLLERR) {
        Apart();
        var n, retry := Receive();
        if n < 0 {
          if !retry {
            StopListening();
          }
        } else if n == 0 {
          StopListening();
        } else {
          var fd, k := HandIn();
          got := Some((fd, k));
        }
      }
    }

    /** No idle time or close timeout of the connection in slot `i` is over. */
    ghost predicate Timely(i: nat)
      requires i < conn.Length && conn[i] != null
      reads conn, conn[i], `curTs
    {
      OnTime(Stamps(conn[i]), curTs, config)
    }

    /** The sweep gives up the connection in slot `k`. */
    method GiveUp(k: nat, c: Connection)
      requires Valid() && k < conn.Length && conn[k] == c
      modifies c`state, c`asked
      ensures ValidBut(k) && Attached(conn[k]) && conn[k].state == Erring
    {
      hide Connection.Inv, Connection.Resting, Connection.Parts, Base, Contexts, Wanted, FdEvents.Valid;
      Lives(k, -1);
      forall i | 0 <= i < conn.Length && conn[i] != null && i != k
        ensures conn[i].Repr() !! conn[k].Repr() && conn[i].Repr() == {conn[i], conn[i].sock} + conn[i].Parts()
        ensures {conn[i].readqueue, conn[i].writequeue, conn[i].content} <= conn[i].Repr()
      {
        Lives(i, -1);
        LiveApart(i, k, -1);
      }
      c.SetError();
    }

    /** The sweep's look at the connection in slot `k`. */
    method CheckIdle(k: nat)
      requires Valid() && k < conn.Length && conn[k] != null
      modifies conn[k].Repr(), ev`kernel, ev`open, ev.handlers, conn, `curConnectionNumber, `world
      ensures Valid() && forall o | o in world :: o in old(world) || fresh(o)
      ensures conn[k] != null ==> Timely(k)
      ensures old(Timely(k)) ==> conn[k] == old(conn[k]) && Stamps(conn[k]) == old(Stamps(conn[k]))
      ensures !old(Timely(k)) ==> conn[k] == null || conn[k].state == Closing
      ensures forall i | 0 <= i < conn.Length && i != k :: conn[i] == old(conn[i])
      ensures forall i | 0 <= i < conn.Length && conn[i] != null && i != k :: Stamps(conn[i]) == old(Stamps(conn[i]))
      ensures conn[k] != null ==> conn[k] == old(conn[k]) && old(conn[k].history) <= conn[k].history
      ensures forall i | 0 <= i < conn.Length && conn[i] != null && i != k :: conn[i].history == old(conn[i].history)
    {
      hide Connection.Inv, Connection.Resting, Connection.Parts, Valid, ValidBut, Attached;
      Alive(k);
      var c := conn[k];
      if c.state == Reading && curTs - c.activeReadTs > config.maxReadIdle {
        GiveUp(k, c);
      } else if c.state == Writing && c.activeWriteTs != 0 && curTs - c.activeWriteTs > config.maxWriteIdle {
        GiveUp(k, c);
      } else if !(c.state == Closing && curTs - c.closeTimeoutTs > CLOSE_TIMEOUT) {
        return;
      }
      StateMachine(k);
    }

    lemma Alive(k: nat)
      requires Valid() && k < conn.Length && conn[k] != null
      ensures ValidBut(k) && Attached(conn[k]) && conn[k].state != Closed && {conn[k], conn[k].sock} <= conn[k].Repr()
      ensures forall i | 0 <= i < conn.Length && i != k :: conn[i] != conn[k]
    {
      hide Connection.Inv, Connection.Parts;
    }

    /**
     worker_timer_expire_handler(): a timer event asks for the time, and after the sweep of a new second no
     connection is overdue, whatever the sockets answer meanwhile. One that was overdue is gone or closing,
     and one that was not is left alone.
     */
    method TimerExpire(events: Mask)
      requires Valid()
      modifies ev`kernel, ev`open, ev.handlers, conn, `curConnectionNumber, `world, `curTs, `notes, world
      ensures Valid() && listening == old(listening) && forall o | o in world :: o in old(world) || fresh(o)
      ensures events & EPOLLIN == 0 ==> notes == old(notes) && curTs == old(curTs)
      ensures events & EPOLLIN != 0 ==> notes == old(notes) + [Clock(curTs)]
      ensures curTs != old(curTs) ==> forall i | 0 <= i < conn.Length && conn[i] != null ::
                && (conn[i].state == Reading ==> curTs - conn[i].activeReadTs <= config.maxReadIdle)
                && (conn[i].state == Writing && conn[i].activeWriteTs != 0 ==>
                    curTs - conn[i].activeWriteTs <= config.maxWriteIdle)
                && (conn[i].state == Closing ==> curTs - conn[i].closeTimeoutTs <= CLOSE_TIMEOUT)
      ensures forall i | 0 <= i < conn.Length && old(conn[i]) != null && OnTime(old(Stamps(conn[i])), curTs, config) ::
                conn[i] == old(conn[i]) && Stamps(conn[i]) == old(Stamps(conn[i]))
      ensures curTs != old(curTs) ==>
                forall i | 0 <= i < conn.Length && old(conn[i]) != null &&
                           !OnTime(old(Stamps(conn[i])), curTs, config) ::
                  conn[i] == null || conn[i].state == Closing
      ensures curTs == old(curTs) ==> forall i | 0 <= i < conn.Length ::
                conn[i] == old(conn[i]) && (conn[i] != null ==> Stamps(conn[i]) == old(Stamps(conn[i])))
      ensures forall i | 0 <= i < conn.Length && conn[i] != null ::
                conn[i] == old(conn[i]) && old(conn[i].history) <= conn[i].history
    {
      hide Connection.Inv, Connection.Resting, Connection.Parts, Valid, ValidBut, OnTime;
      HasBits(events);
      if !Has(events, EPOLLIN) {
        return;
      }
      Apart();
      var localtime := Time();
      if localtime == curTs {
        return;
      }
      BaseIs();
      BaseParts();
      curTs := localtime;
      for index := 0 to conn.Length
        invariant Valid() && listening == old(listening) && forall o | o in world :: o in old(world) || fresh(o)
        invariant curTs == localtime && notes == old(notes) + [Clock(curTs)]
        invariant forall i | 0 <= i < index && conn[i] != null :: Timely(i)
        invariant forall i | 0 <= i < conn.Length && conn[i] != null ::
                  conn[i] == old(conn[i]) && old(conn[i].history) <= conn[i].history
        invariant forall i | 0 <= i < conn.Length && old(conn[i]) != null &&
                  (i >= index || OnTime(old(Stamps(conn[i])), curTs, config)) ::
            conn[i] == old(conn[i]) && Stamps(conn[i]) == old(Stamps(conn[i]))
        invariant forall i | 0 <= i < index && old(conn[i]) != null && !OnTime(old(Stamps(conn[i])), curTs, config) ::
                  conn[i] == null || conn[i].state == Closing
      {
        if conn[index] != null {
          InWorld(index);
          CheckIdle(index);
        }
      }
      AllOnTime();
    }

    lemma AllOnTime()
      requires forall i | 0 <= i < conn.Length && conn[i] != null :: Timely(i)
      ensures forall i | 0 <= i < conn.Length && conn[i] != null ::
                && (conn[i].state == Reading ==> curTs - conn[i].activeReadTs <= config.maxReadIdle)
                && (conn[i].state == Writing && conn[i].activeWriteTs != 0 ==>
                    curTs - conn[i].activeWriteTs <= config.maxWriteIdle)
                && (conn[i].state == Closing ==> curTs - conn[i].closeTimeoutTs <= CLOSE_TIMEOUT)
    {
      forall i | 0 <= i < conn.Length && conn[i] != null
        ensures OnTime(Stamps(conn[i]), curTs, config)
      {
        assert Timely(i);
      }
    }

    /** The worker is not part of the world. */
    lemma Apart()
      requires Valid()
      ensures this !in world && conn !in world && ev !in world && ev.handlers !in world
    {
      hide Contexts, Table;
    }

    lemma InWorld(k: nat)
      requires Valid() && k < conn.Length && conn[k] != null
      ensures conn[k].Repr() <= world && this !in conn[k].Repr()
    {
    }

    /** Tells the connection in slot `k` of its events. */
    method Deliver(k: nat, c: Connection, events: Mask)
      requires Valid() && k < conn.Length && conn[k] == c
      modifies c`readable, c`writeable, c`state, c`closeTimeoutTs, c`asked, c.sock`answers
      ensures ValidBut(k) && Attached(c) && c.state in {old(c.state), Erring} && c.state != Closed
      ensures Told(old(c.Now()), c.Now(), events)
    {
      hide Connection.Inv, Connection.Parts, Base, Contexts, Wanted, FdEvents.Valid, FullTotal, Wrap;
      Lives(k, -1);
      forall i | 0 <= i < conn.Length && conn[i] != null && i != k
        ensures conn[i].Repr() !! conn[k].Repr() && conn[i].Repr() == {conn[i], conn[i].sock} + conn[i].Parts()
        ensures {conn[i].readqueue, conn[i].writequeue, conn[i].content} <= conn[i].Repr()
      {
        Lives(i, -1);
        LiveApart(i, k, -1);
      }
      c.TakeEvents(events);
    }

    /**
     connection_event_handle(): the connection is told of its events, which brings it to `start`, and its
     machine runs from there.
     */
    method ConnectionEventHandle(k: nat, c: Connection, events: Mask) returns (ghost start: Stance)
      requires Valid() && k < conn.Length && conn[k] == c
      modifies c.Repr(), ev`kernel, ev`open, ev.handlers, conn, `curConnectionNumber, `world, `notes
      ensures Valid() && forall o | o in world :: o in old(world) || fresh(o)
      ensures forall i | 0 <= i < conn.Length && i != k :: conn[i] == old(conn[i])
      ensures conn[k] == null || conn[k] == c
      ensures Told(old(c.Now()), start, events) && Ran(start, c.Now(), curTs, c.config.maxHead)
      ensures notes == old(notes) + [Turn(c.fd, events, old(c.Now()), start, c.Now(), curTs, c.config.maxHead)]
      ensures conn[k] == null <==> c.state == Closed
      ensures conn[k] != null ==> old(c.history) <= c.history
      ensures forall i | 0 <= i < conn.Length && conn[i] != null && i != k :: conn[i].history == old(conn[i].history)
    {
      hide *;
      Alive(k);
      InWorld(k);
      ghost var from := c.Now();
      Deliver(k, c, events);
      start := c.Now();
      StateMachine(k);
      Apart();
      ghost var to := c.Now();
      notes := notes + [Turn(c.fd, events, from, start, to, curTs, c.config.maxHead)];
      assert c.Now() == to;
    }

    /** Every descriptor that the kernel watches has a handler, and a connection's is its own. */
    lemma HandlerOf(fd: int)
      requires Valid() && fd in ev.kernel
      ensures 0 <= fd < ev.handlers.Length && ev.handlers[fd].Some?
      ensures match ev.handlers[fd].value.context
              case UnixSocket => fd == unixFd
              case Timer => fd == timerFd
              case OfConnection(c) =>
                c.fd == fd && c.connectionIndex < conn.Length && conn[c.connectionIndex] == c && c.Repr() <= world
    {
      hide Connection.Inv, Connection.Resting, Connection.Parts, Counted, Watched, Separated;
    }

    /** What the handler of a connection's descriptor is. */
    lemma HandlerOfConnection(i: nat, fd: int)
      requires Valid() && i < conn.Length && conn[i] != null && conn[i].fd == fd
      ensures 0 <= fd < ev.handlers.Length && ev.handlers[fd].Some?
      ensures ev.handlers[fd].value.context == OfConnection(conn[i]) && conn[i].connectionIndex == i
      ensures fd != unixFd && fd != timerFd
    {
      hide Connection.Inv, Connection.Resting, Connection.Parts, Counted, Separated, Wanted;
    }

    lemma OwnHandlers()
      requires Valid()
      ensures 0 <= unixFd < ev.handlers.Length && ev.handlers[unixFd].Some?
      ensures 0 <= timerFd < ev.handlers.Length && ev.handlers[timerFd].Some?
      ensures ev.handlers[unixFd].value.context == UnixSocket && ev.handlers[timerFd].value.context == Timer
    {
      hide Connection.Inv, Connection.Resting, Connection.Parts, Counted, Separated, Wanted;
    }

    /**
     One event of the loop in src/main.cpp, for a descriptor that the kernel watches: the time is asked for on
     the timer, a descriptor is received on the domain socket, and on a connection's the connection is told of
     its events and its machine runs.
     */
    method Dispatch(fd: int, events: Mask) returns (ghost got: Option<(int, nat)>, ghost start: Option<Stance>)
      requires Valid() && fd in ev.kernel
      modifies ev`kernel, ev`open, ev.handlers, conn, `curConnectionNumber, `world, `curTs, `listening, `notes, world
      ensures Valid() && forall o | o in world :: o in old(world) || fresh(o)
      ensures forall i | 0 <= i < conn.Length && conn[i] != null && !fresh(conn[i]) ::
                conn[i] == old(conn[i]) && old(conn[i].history) <= conn[i].history
      ensures fd == timerFd && events & EPOLLIN != 0 ==> notes == old(notes) + [Clock(curTs)]
      ensures fd == timerFd && curTs != old(curTs) ==>
                forall i | 0 <= i < conn.Length && conn[i] != null :: OnTime(Stamps(conn[i]), curTs, config)
      ensures fd != timerFd ==> curTs == old(curTs)
      ensures fd == unixFd && events & EPOLLHUP == 0 && events & EPOLLERR == 0 ==>
                && old(notes) < notes && |notes| == |old(notes)| + 1 && notes[|old(notes)|].Message?
                && (notes[|old(notes)|].n > 0 <==> got.Some?)
      ensures fd == unixFd && got.Some? && got.value.0 != -1 && old(curConnectionNumber) < conn.Length ==>
                var (fd, k) := got.value;
                && k < conn.Length && conn[k] != null && fresh(conn[k]) && conn[k].fd == fd && conn[k].state == Reading
      ensures fd == unixFd && events & EPOLLHUP != 0 ==> !listening
      ensures fd != unixFd ==> listening == old(listening)
      ensures forall i | 0 <= i < conn.Length && old(conn[i]) != null && old(conn[i].fd) == fd ::
                var c := old(conn[i]);
                && start.Some? && Told(old(conn[i].Now()), start.value, events)
                && Ran(start.value, c.Now(), curTs, c.config.maxHead) && (conn[i] == null <==> c.state == Closed)
      ensures old(notes) <= notes && |notes| <= |old(notes)| + 1
      ensures |notes| > |old(notes)| ==> !notes[|old(notes)|].Wakeup?
      ensures Heeds(fd, events, NoteAt(notes, |old(notes)|), unixFd, timerFd)
    {
      hide *;
      HandlerOf(fd);
      Apart();
      OwnHandlers();
      got, start := None, None;
      ghost var before := |notes|;
      forall i | 0 <= i < conn.Length && conn[i] != null && conn[i].fd == fd
        ensures ev.handlers[fd].value.context == OfConnection(conn[i]) && conn[i].connectionIndex == i
        ensures fd != unixFd && fd != timerFd
      {
        HandlerOfConnection(i, fd);
      }
      match ev.handlers[fd].value.context
      case UnixSocket =>
        got := UnixDomainSocketHandle(events);
        OwnTurn(fd, events, before);
      case Timer =>
        TimerExpire(events);
        AreOnTime();
        OwnTurn(fd, events, before);
      case OfConnection(c) =>
        ghost var from := ConnectionEventHandle(c.connectionIndex, c, events);
        start := Some(from);
        TookTurn(before);
    }

    lemma OwnTurn(fd: int, events: Mask, from: nat)
      requires fd == timerFd || (fd == unixFd && unixFd != timerFd)
      requires fd == timerFd && events & EPOLLIN != 0 ==> from < |notes| && notes[from].Clock?
      requires fd == unixFd && events & EPOLLHUP == 0 && events & EPOLLERR == 0 ==>
                 from < |notes| && notes[from].Message?
      ensures Heeds(fd, events, NoteAt(notes, from), unixFd, timerFd)
    {
    }

    lemma TookTurn(from: nat)
      requires from < |notes|
      requires var x := notes[from];
               && x.Turn? && Told(x.from, x.start, x.events) && Ran(x.start, x.to, x.now, x.maxHead)
               && x.fd != timerFd && x.fd != unixFd
      ensures Heeds(notes[from].fd, notes[from].events, NoteAt(notes, from), unixFd, timerFd)
    {
      hide Told, Ran;
    }

    lemma AreOnTime()
      ensures (forall i | 0 <= i < conn.Length && conn[i] != null ::
                && (conn[i].state == Reading ==> curTs - conn[i].activeReadTs <= config.maxReadIdle)
                && (conn[i].state == Writing && conn[i].activeWriteTs != 0 ==>
                    curTs - conn[i].activeWriteTs <= config.maxWriteIdle)
                && (conn[i].state == Closing ==> curTs - conn[i].closeTimeoutTs <= CLOSE_TIMEOUT))
           <==> forall i | 0 <= i < conn.Length && conn[i] != null :: OnTime(Stamps(conn[i]), curTs, config)
    {
    }

    /** epoll_wait(): the events of a descriptor that the kernel watches. */
    method Wait() returns (fd: int, events: Mask)
      requires Valid()
      modifies `notes
      ensures Valid() && fd in ev.kernel && notes == old(notes) + [Wakeup(fd, events)]
    {
      hide Valid, ValidBut;
      Apart();
      fd, events := *, *;
      if !(0 <= fd < ev.handlers.Length && ev.handlers[fd].Some? && ev.handlers[fd].value.events != 0) {
        fd := timerFd;
      }
      InKernel(fd);
      notes := notes + [Wakeup(fd, events)];
    }

    /**
     Any run of the worker: whatever events come in whatever order, and whatever the kernel answers,
     the table, the counter, the registry and every connection stay in order, and every wakeup is answered.
     */
    method Run(steps: nat)
      requires Valid()
      modifies ev`kernel, ev`open, ev.handlers, conn, `curConnectionNumber, `world, `curTs, `listening, `notes, world
      ensures Valid() && curConnectionNumber <= conn.Length
      ensures forall i | 0 <= i < conn.Length && conn[i] != null && !fresh(conn[i]) ::
                conn[i] == old(conn[i]) && old(conn[i].history) <= conn[i].history
      ensures old(notes) <= notes && Wakeups(notes) == Wakeups(old(notes)) + steps
      ensures AllHeeded(notes[|old(notes)|..], unixFd, timerFd)
    {
      hide Connection.Inv, Connection.Resting, Connection.Parts, Valid, Live, Heeds, Wakeups, AllHeeded;
      ghost var start := |notes|;
      NothingHeeded(notes[start..]);
      for n := 0 to steps
        invariant Valid() && forall o | o in world :: o in old(world) || fresh(o)
        invariant forall i | 0 <= i < conn.Length && conn[i] != null && !fresh(conn[i]) ::
                  conn[i] == old(conn[i]) && old(conn[i].history) <= conn[i].history
        invariant old(notes) <= notes && Wakeups(notes) == Wakeups(old(notes)) + n
        invariant AllHeeded(notes[start..], unixFd, timerFd)
      {
        Apart();
        ghost var before := notes;
        var fd, events := Wait();
        ghost var got, from := Dispatch(fd, events);
        OneMoreHeeded(before, start, notes, fd, events);
      }
      BaseIs();
      AllLive(conn[..]);
    }

    lemma NothingHeeded(ns: seq<Note>)
      requires ns == []
      ensures AllHeeded(ns, unixFd, timerFd)
    {
    }

    /** One more wakeup that was answered. */
    lemma OneMoreHeeded(before: seq<Note>, start: nat, after: seq<Note>, fd: int, events: Mask)
      requires start <= |before| && AllHeeded(before[start..], unixFd, timerFd)
      requires before + [Wakeup(fd, events)] <= after && |after| <= |before| + 2
      requires |after| == |before| + 2 ==> !after[|before| + 1].Wakeup?
      requires Heeds(fd, events, NoteAt(after, |before| + 1), unixFd, timerFd)
      ensures before <= after && Wakeups(after) == Wakeups(before) + 1
      ensures AllHeeded(after[start..], unixFd, timerFd)
    {
      hide Heeds, Wakeups, AllHeeded;
      var w, rest := Wakeup(fd, events), after[|before| + 1..];
      assert after == before + [w] + rest;
      OneMoreNote(before, w);
      if rest == [] {
        assert after == before + [w];
      } else {
        OneMoreNote(before + [w], rest[0]);
        assert after == before + [w] + [rest[0]];
      }
      HeededToo(before[start..], fd, events, rest);
      assert after[start..] == before[start..] + [w] + rest;
    }

    lemma HeededToo(ns: seq<Note>, fd: int, events: Mask, rest: seq<Note>)
      requires AllHeeded(ns, unixFd, timerFd) && |rest| <= 1 && (rest != [] ==> !rest[0].Wakeup?)
      requires Heeds(fd, events, NoteAt(rest, 0), unixFd, timerFd)
      ensures AllHeeded(ns + [Wakeup(fd, events)] + rest, unixFd, timerFd)
    {
      hide Heeds;
      var n, ms := |ns|, ns + [Wakeup(fd, events)] + rest;
      forall i | 0 <= i < |ms| && ms[i].Wakeup?
        ensures Heeds(ms[i].fd, ms[i].events, NoteAt(ms, i + 1), unixFd, timerFd)
      {
        if i < n {
          assert ms[i] == ns[i] && ns[i].Wakeup?;
          assert Heeds(ns[i].fd, ns[i].events, NoteAt(ns, i + 1), unixFd, timerFd);
          if i == n - 1 {
            LastHeeded(ns[i].fd, ns[i].events, ms[n]);
          } else {
            assert ms[i + 1] == ns[i + 1];
          }
        }
      }
    }

    /** What needed no answer needs none whatever comes next. */
    lemma LastHeeded(fd: int, events: Mask, next: Note)
      requires Heeds(fd, events, None, unixFd, timerFd)
      ensures Heeds(fd, events, Some(next), unixFd, timerFd)
    {
    }

    /**
     The wakeups: the kernel watches the descriptor of every connection, for output and not for input while
     a response waits to be sent, for input and not for output in READ and CLOSE, and always for errors and
     hangups; it watches the timer, and the domain socket as long as the worker listens.
     */
    lemma KernelWatches()
      requires Valid()
      ensures forall i | 0 <= i < conn.Length && conn[i] != null ::
                && conn[i].fd in ev.kernel && conn[i].state in {Reading, Writing, Closing}
                && var mask := ev.kernel[conn[i].fd];
                   && (mask & EPOLLOUT != 0 <==> conn[i].state == Writing)
                   && (mask & EPOLLIN != 0 <==> conn[i].state in {Reading, Closing})
                   && mask & EPOLLERR != 0 && mask & EPOLLHUP != 0
      ensures timerFd in ev.kernel && ev.kernel[timerFd] & EPOLLIN != 0
      ensures unixFd in ev.kernel <==> listening
      ensures listening ==> ev.kernel[unixFd] & EPOLLIN != 0
    {
      hide Connection.Inv, Connection.Parts, Counted, Separated, Wanted, Contexts, FdEvents.Valid, WithErrors;
      OwnMasks();
      forall i | 0 <= i < conn.Length && conn[i] != null
        ensures conn[i].fd in ev.kernel && conn[i].state in {Reading, Writing, Closing}
        ensures var mask := ev.kernel[conn[i].fd];
                && (mask & EPOLLOUT != 0 <==> conn[i].state == Writing)
                && (mask & EPOLLIN != 0 <==> conn[i].state in {Reading, Closing})
                && mask & EPOLLERR != 0 && mask & EPOLLHUP != 0
      {
        Lives(i, -1);
        MaskOf(conn[i]);
      }
    }

    lemma MaskOf(c: Connection)
      requires ev.Valid() && Watched(c, Wanted(c.state)) && c.Resting()
      ensures c.fd in ev.kernel && c.state in {Reading, Writing, Closing}
      ensures var mask := ev.kernel[c.fd];
              && (mask & EPOLLOUT != 0 <==> c.state == Writing)
              && (mask & EPOLLIN != 0 <==> c.state in {Reading, Closing})
              && mask & EPOLLERR != 0 && mask & EPOLLHUP != 0
    {
    }

    lemma OwnMasks()
      requires Valid()
      ensures ev.Valid()
      ensures timerFd in ev.kernel && ev.kernel[timerFd] & EPOLLIN != 0
      ensures unixFd in ev.kernel <==> listening
      ensures listening ==> ev.kernel[unixFd] & EPOLLIN != 0
    {
      hide Connection.Inv, Connection.Parts, Counted, Table;
    }

    lemma InKernel(fd: int)
      requires Valid()
      ensures timerFd in ev.kernel
      ensures ev.Registered(fd) && ev.handlers[fd].value.events != 0 ==> fd in ev.kernel
    {
    }
  }

  /** Opens one of the worker's own descriptors and watches it for input. */
  method Listen(ev: FdEvents<Handler>, context: Handler) returns (fd: int)
    requires ev.Valid()
    modifies ev`open, ev`kernel, ev.handlers
    ensures ev.Valid()
    ensures fd != -1 ==> old(!ev.Registered(fd)) && ev.Watches(fd, context, EPOLLIN)
    ensures forall f | 0 <= f < ev.handlers.Length && f != fd :: ev.handlers[f] == old(ev.handlers[f])
  {
    hide WithErrors;
    fd := ev.OpenFd();
    if fd != -1 {
      ev.RegisterFd(fd, context);
      ev.SetEvents(fd, EPOLLIN);
    }
  }

  /**
   A worker as src/main.cpp starts it, with room for half as many connections as descriptors, at the time
   `now` that time() gives, unless the kernel refuses one of its two descriptors.
   */
  method StartWorker(maxFd: nat, config: Config, files: Files, now: int) returns (w: Worker?)
    requires config.Valid()
    ensures w != null ==> fresh(w) && w.Valid() && w.conn.Length == maxFd / 2 && w.curConnectionNumber == 0
    ensures w != null ==> w.curTs == now && w.ev.maxFd == maxFd && w.config == config && w.files == files && w.listening
    ensures w != null ==> w.ev.Watches(w.unixFd, UnixSocket, EPOLLIN) && w.ev.Watches(w.timerFd, Timer, EPOLLIN)
  {
    hide FdEvents.Valid, Config.Valid;
    var ev := new FdEvents<Handler>(maxFd);
    var unixFd := Listen(ev, UnixSocket);
    if unixFd == -1 {
      return null;
    }
    var timerFd := Listen(ev, Timer);
    if timerFd == -1 {
      return null;
    }
    w := new Worker(ev, unixFd, timerFd, maxFd / 2, config, files, now);
  }
}
