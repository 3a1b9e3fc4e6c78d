/**
  The reactor of `main`: for each ready event reported by `epoll_wait`,
  either accept and register a new client, or hand a readable client to the
  worker pool. The socket calls are represented by their return values,
  the pool by the sequence of client fds it is given, and the epoll
  interest list by the set of registered fds.
 */
module Reactor {

  import opened Sequences

  /** The capacity of the `events` array handed to `epoll_wait`. */
  const MaxEvents: nat := 10

  const EPOLLIN: bv32 := 0x001

  /** Both the listener and every client are registered for writability too. */
  const EPOLLOUT: bv32 := 0x004

  /** One entry of the array `epoll_wait` fills: the fd and the ready bits. */
  datatype Event = Event(fd: int, events: bv32)

  /**
    A ready event together with the return values of the calls its handling
    may make: `accept` (a new fd, or -1) and then `epoll_ctl` (-1 on failure).
   */
  datatype Ready = Ready(event: Event, acceptResult: int, ctlResult: int)

  /** What the reactor does with one ready event. */
  datatype Action =
    | Register(clientFd: int)        // accepted and added to the interest list
    | CloseNewFd(clientFd: int)      // accepted, registration failed, closed
    | AcceptFailed
    | EnqueueHandleClient(fd: int)   // a `handleClient(fd)` task for the pool
    | Ignore(fd: int)                // a client event without EPOLLIN

  /** Whether the ready bits include EPOLLIN. */
  predicate Readable(events: bv32) {
    (events & EPOLLIN) != 0
  }

  /** The per-event rule of the reactor loop. */
  function Classify(r: Ready, listenFd: int): (a: Action)
    ensures a.EnqueueHandleClient? <==> r.event.fd != listenFd && Readable(r.event.events)
    ensures a.Register? <==> r.event.fd == listenFd && r.acceptResult != -1 && r.ctlResult != -1
    ensures a.CloseNewFd? <==> r.event.fd == listenFd && r.acceptResult != -1 && r.ctlResult == -1
    ensures a.AcceptFailed? <==> r.event.fd == listenFd && r.acceptResult == -1
    ensures (a.Register? || a.CloseNewFd?) ==> a.clientFd == r.acceptResult
    ensures (a.EnqueueHandleClient? || a.Ignore?) ==> a.fd == r.event.fd
  {
    if r.event.fd == listenFd then
      if r.acceptResult != -1 then
        if r.ctlResult == -1 then CloseNewFd(r.acceptResult) else Register(r.acceptResult)
      else AcceptFailed
    else if Readable(r.event.events) then EnqueueHandleClient(r.event.fd)
    else Ignore(r.event.fd)
  }

  /** What the reactor has done so far. */
  datatype ReactorState = ReactorState(listenFd: int, registered: set<int>, tasks: seq<int>, closed: seq<int>)

  /** The state once the listening socket is registered. */
  function Initial(listenFd: int): (st: ReactorState)
    ensures st.registered == {listenFd} && st.tasks == [] && st.closed == []
  {
    ReactorState(listenFd, {listenFd}, [], [])
  }

  /** The effect of one action on the reactor state. */
  function Apply(st: ReactorState, a: Action): ReactorState {
    match a
    case Register(c) => st.(registered := st.registered + {c})
    case CloseNewFd(c) => st.(closed := st.closed + [c])
    case EnqueueHandleClient(fd) => st.(tasks := st.tasks + [fd])
    case AcceptFailed => st
    case Ignore(_) => st
  }

  /** Handles the ready events in order. */
  function ProcessEvents(st: ReactorState, rs: seq<Ready>): (st': ReactorState)
    ensures st'.listenFd == st.listenFd
    ensures st.registered <= st'.registered
    ensures |st.tasks| <= |st'.tasks| && st'.tasks[..|st.tasks|] == st.tasks
    ensures |st.closed| <= |st'.closed| && st'.closed[..|st.closed|] == st.closed
    decreases |rs|
  {
    if |rs| == 0 then st
    else ProcessEvents(Apply(st, Classify(rs[0], st.listenFd)), rs[1..])
  }

  /** Reference: the fds of the readable client events, in order. */
  function ReadableClients(rs: seq<Ready>, listenFd: int): seq<int>
    decreases |rs|
  {
    if |rs| == 0 then []
    else
      var head := if rs[0].event.fd != listenFd && Readable(rs[0].event.events) then [rs[0].event.fd] else [];
      head + ReadableClients(rs[1..], listenFd)
  }

  /** Reference: the accepted fds whose registration failed, in order. */
  function FailedRegistrations(rs: seq<Ready>, listenFd: int): seq<int>
    decreases |rs|
  {
    if |rs| == 0 then []
    else
      var r := rs[0];
      var head := if r.event.fd == listenFd && r.acceptResult != -1 && r.ctlResult == -1 then [r.acceptResult] else [];
      head + FailedRegistrations(rs[1..], listenFd)
  }

  /** Reference: the accepted fds that were registered. */
  function Registrations(rs: seq<Ready>, listenFd: int): set<int>
    decreases |rs|
  {
    if |rs| == 0 then {}
    else
      var r := rs[0];
      var head := if r.event.fd == listenFd && r.acceptResult != -1 && r.ctlResult != -1 then {r.acceptResult} else {};
      head + Registrations(rs[1..], listenFd)
  }

  /** One event changes the state exactly as the reference filters say for a batch of that single event. */
  lemma ApplyContents(st: ReactorState, r: Ready)
    ensures Apply(st, Classify(r, st.listenFd)).listenFd == st.listenFd
    ensures Apply(st, Classify(r, st.listenFd)).tasks == st.tasks + ReadableClients([r], st.listenFd)
    ensures Apply(st, Classify(r, st.listenFd)).closed == st.closed + FailedRegistrations([r], st.listenFd)
    ensures Apply(st, Classify(r, st.listenFd)).registered == st.registered + Registrations([r], st.listenFd)
  {
    assert [r][1..] == [];
  }

  /** The reference filters of a batch are those of its first event followed by those of the rest. */
  lemma FiltersSplit(rs: seq<Ready>, listenFd: int)
    requires |rs| > 0
    ensures ReadableClients(rs, listenFd) == ReadableClients([rs[0]], listenFd) + ReadableClients(rs[1..], listenFd)
    ensures FailedRegistrations(rs, listenFd) == FailedRegistrations([rs[0]], listenFd) + FailedRegistrations(rs[1..], listenFd)
    ensures Registrations(rs, listenFd) == Registrations([rs[0]], listenFd) + Registrations(rs[1..], listenFd)
  {
    assert [rs[0]][1..] == [];
  }

  /**
    A batch of events enqueues a task for exactly the readable client
    events, in order, closes exactly the accepted fds whose registration
    failed, and registers exactly the others.
   */
  lemma {:induction false} ProcessEventsContents(st: ReactorState, rs: seq<Ready>)
    ensures ProcessEvents(st, rs).tasks == st.tasks + ReadableClients(rs, st.listenFd)
    ensures ProcessEvents(st, rs).closed == st.closed + FailedRegistrations(rs, st.listenFd)
    ensures ProcessEvents(st, rs).registered == st.registered + Registrations(rs, st.listenFd)
    decreases |rs|
  {
    if |rs| > 0 {
      var l := st.listenFd;
      var r := rs[0];
      var rest := rs[1..];
      var next := Apply(st, Classify(r, l));
      var final := ProcessEvents(st, rs);
      assert final == ProcessEvents(next, rest);
      ProcessEventsContents(next, rest);
      ApplyContents(st, r);
      FiltersSplit(rs, l);
      assert final.tasks == st.tasks + ReadableClients(rs, l) by {
        ConcatAssociates(st.tasks, ReadableClients([r], l), ReadableClients(rest, l));
      }
      assert final.closed == st.closed + FailedRegistrations(rs, l) by {
        ConcatAssociates(st.closed, FailedRegistrations([r], l), FailedRegistrations(rest, l));
      }
    }
  }

  /** The listening socket never becomes a `handleClient` task. */
  lemma {:induction false} ListenerNeverEnqueued(rs: seq<Ready>, listenFd: int)
    ensures listenFd !in ReadableClients(rs, listenFd)
    decreases |rs|
  {
    if |rs| > 0 {
      ListenerNeverEnqueued(rs[1..], listenFd);
    }
  }

  /** `epoll_wait` only reports fds that are on the interest list at that moment. */
  ghost predicate ReportsRegistered(st: ReactorState, rs: seq<Ready>)
    decreases |rs|
  {
    |rs| == 0 ||
    (rs[0].event.fd in st.registered && ReportsRegistered(Apply(st, Classify(rs[0], st.listenFd)), rs[1..]))
  }

  /**
    An fd that is not registered before a batch and not registered after it
    (its only registrations in the batch failed) never gets a task.
   */
  lemma {:induction false} UnregisteredNeverEnqueued(st: ReactorState, rs: seq<Ready>, c: int)
    requires ReportsRegistered(st, rs)
    requires c !in ProcessEvents(st, rs).registered
    ensures c !in ProcessEvents(st, rs).tasks[|st.tasks|..]
    decreases |rs|
  {
    if |rs| > 0 {
      var next := Apply(st, Classify(rs[0], st.listenFd));
      assert c !in st.registered;
      UnregisteredNeverEnqueued(next, rs[1..], c);
      var final := ProcessEvents(st, rs);
      assert final == ProcessEvents(next, rs[1..]);
      assert final.tasks[|st.tasks|..] == next.tasks[|st.tasks|..] + final.tasks[|next.tasks|..];
    }
  }

  /** The outcome of one `epoll_wait`: some ready events, or -1. */
  datatype Wake = Woken(ready: seq<Ready>) | WaitFailed

  /**
    One pass of the reactor loop: a failed wait handles nothing; otherwise
    every reported event is handled, enqueuing exactly the readable client
    events and never the listening socket.
   */
  function ProcessWake(st: ReactorState, w: Wake): (st': ReactorState)
    requires w.Woken? ==> |w.ready| <= MaxEvents
    ensures w.WaitFailed? ==> st' == st
    ensures w.Woken? ==> st'.tasks == st.tasks + ReadableClients(w.ready, st.listenFd)
    ensures w.Woken? ==> st.listenFd !in st'.tasks[|st.tasks|..]
  {
    match w
    case Woken(ready) =>
      ProcessEventsContents(st, ready);
      ListenerNeverEnqueued(ready, st.listenFd);
      ProcessEvents(st, ready)
    case WaitFailed => st
  }

  /**
    A client event that only reports writability, which the registration
    also asks for, is ignored: no task is enqueued.
   */
  lemma WritableOnlyIgnored(fd: int, listenFd: int, acceptResult: int, ctlResult: int)
    requires fd != listenFd
    ensures Classify(Ready(Event(fd, EPOLLOUT), acceptResult, ctlResult), listenFd) == Ignore(fd)
  {
  }

  /**
    From the start of the reactor, an accepted fd whose registration failed
    and that is not registered later in the batch is closed and never
    handed to `handleClient`.
   */
  lemma FailedRegistrationClosedNeverEnqueued(listenFd: int, rs: seq<Ready>, c: int)
    requires ReportsRegistered(Initial(listenFd), rs)
    requires c != listenFd
    requires c in FailedRegistrations(rs, listenFd)
    requires c !in Registrations(rs, listenFd)
    ensures c in ProcessEvents(Initial(listenFd), rs).closed
    ensures c !in ProcessEvents(Initial(listenFd), rs).tasks
  {
    var st := Initial(listenFd);
    ProcessEventsContents(st, rs);
    UnregisteredNeverEnqueued(st, rs, c);
    assert ProcessEvents(st, rs).tasks[|st.tasks|..] == ProcessEvents(st, rs).tasks;
  }
}
