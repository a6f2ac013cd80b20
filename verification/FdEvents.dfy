/** The epoll registry of src/fdevents.cpp, against the kernel's interest set. */
module FdEventRegistry {
  import opened Words

  type Mask = bv32

  const EPOLLIN: Mask := 0x1
  const EPOLLOUT: Mask := 0x4
  const EPOLLERR: Mask := 0x8
  const EPOLLHUP: Mask := 0x10

  /** What the kernel is asked for: errors and hangups are always reported. */
  function WithErrors(events: Mask): Mask {
    events | EPOLLERR | EPOLLHUP
  }

  predicate Has(events: Mask, bits: Mask) {
    events & bits != 0
  }

  datatype FdNode<T> = FdNode(fd: int, context: T, events: Mask)

  datatype EpollOp = Add | Mod | Del

  class FdEvents<T> {
    const maxFd: nat
    const handlers: array<Option<FdNode<T>>>  // indexed by descriptor

    ghost var kernel: map<int, Mask>  // the kernel's interest set
    var open: set<int>                // the kernel's table of open descriptors

    /** What is registered is what the kernel watches: the same mask, with errors and hangups. */
    ghost predicate Valid()
      reads this, handlers
    {
      && handlers.Length == maxFd
      && (forall fd | 0 <= fd < maxFd :: handlers[fd].Some? ==> handlers[fd].value.fd == fd && fd in open)
      && (forall fd | 0 <= fd < maxFd :: handlers[fd].Some? && handlers[fd].value.events != 0 ==> fd in kernel)
      && (forall fd | fd in kernel ::
            && 0 <= fd < maxFd && handlers[fd].Some? && handlers[fd].value.events != 0
            && kernel[fd] == WithErrors(handlers[fd].value.events))
    }

    ghost predicate Registered(fd: int)
      reads handlers
    {
      0 <= fd < handlers.Length && handlers[fd].Some?
    }

    /** `fd` is registered with this context, and the kernel watches it for `events`. */
    ghost predicate Watches(fd: int, context: T, events: Mask)
      reads handlers
    {
      Registered(fd) && handlers[fd].value == FdNode(fd, context, events)
    }

    /** Nothing but `fd` changed. */
    twostate predicate OnlyChanged(fd: int)
      reads this, handlers
    {
      && (forall f | 0 <= f < handlers.Length && f != fd :: handlers[f] == old(handlers[f]))
      && (forall f | f != fd :: f in kernel <==> f in old(kernel))
      && (forall f | f in kernel && f != fd :: f in old(kernel) && kernel[f] == old(kernel)[f])
      && open == old(open)
    }

    constructor (maxFd: nat)
      ensures Valid() && this.maxFd == maxFd && fresh(handlers)
      ensures forall fd | 0 <= fd < maxFd :: handlers[fd].None?
      ensures open == {}
    {
      this.maxFd := maxFd;
      handlers := new Option<FdNode<T>>[maxFd](_ => None);
      kernel, open := map[], {};
    }

    /** epoll_ctl(): adding what is watched, or changing what is not, would fail. */
    ghost method EpollCtl(op: EpollOp, fd: int, mask: Mask)
      requires op == Add ==> fd !in kernel
      requires op != Add ==> fd in kernel
      modifies `kernel
      ensures kernel == if op == Del then old(kernel) - {fd} else old(kernel)[fd := mask]
    {
      kernel := if op == Del then kernel - {fd} else kernel[fd := mask];
    }

    /** The kernel hands out a descriptor that is not open; nothing is registered for it. */
    method OpenFd() returns (fd: int)
      requires Valid()
      modifies `open
      ensures Valid() && (fd == -1 ==> open == old(open))
      ensures fd != -1 ==> 0 <= fd < maxFd && fd !in old(open) && !Registered(fd) && open == old(open) + {fd}
    {
      fd := *;
      if 0 <= fd < maxFd && fd !in open {
        open := open + {fd};
      } else {
        fd := -1;
      }
    }

    /** close() of a descriptor that is not registered any more. */
    method CloseFd(fd: int)
      requires Valid() && fd in open && !Registered(fd)
      modifies `open
      ensures Valid() && open == old(open) - {fd}
    {
      open := open - {fd};
    }

    /** A slot is only filled when it is empty, and the kernel does not watch the descriptor yet. */
    method RegisterFd(fd: int, context: T)
      requires Valid() && 0 <= fd < maxFd && fd in open && !Registered(fd)
      modifies handlers
      ensures Valid() && Watches(fd, context, 0) && OnlyChanged(fd) && fd !in kernel
    {
      handlers[fd] := Some(FdNode(fd, context, 0));
    }

    /** The descriptor must not be watched any more: nothing would undo that later. */
    method UnregisterFd(fd: int)
      requires Valid() && Registered(fd) && handlers[fd].value.events == 0
      modifies handlers
      ensures Valid() && !Registered(fd) && OnlyChanged(fd) && fd !in kernel
    {
      handlers[fd] := None;
    }

    /** Watches the descriptor for `events`: added the first time, changed later. */
    method SetEvents(fd: int, events: Mask)
      requires Valid() && Registered(fd) && events != 0
      modifies handlers, `kernel
      ensures Valid() && Watches(fd, old(handlers[fd].value.context), events) && OnlyChanged(fd)
      ensures kernel == old(kernel)[fd := WithErrors(events)]
    {
      hide WithErrors;
      var node := handlers[fd].value;
      EpollCtl(if node.events == 0 then Add else Mod, fd, WithErrors(events));
      handlers[fd] := Some(node.(events := events));
    }

    /** Stops watching the descriptor, if it is watched. */
    method UnsetEvent(fd: int)
      requires Valid() && Registered(fd)
      modifies handlers, `kernel
      ensures Valid() && Watches(fd, old(handlers[fd].value.context), 0) && OnlyChanged(fd)
      ensures fd !in kernel
    {
      var node := handlers[fd].value;
      if node.events != 0 {
        EpollCtl(Del, fd, 0);
      }
      handlers[fd] := Some(node.(events := 0));
    }
  }
}
