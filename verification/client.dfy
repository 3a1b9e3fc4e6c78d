/**
  `handleClient`: the per-connection loop, driven by a finite trace of
  `recv` outcomes. It records, in order, the commands it hands to
  `executeCommand`, the sends it makes and the final `close`.

  The write buffer lives across iterations. Its last byte is written by
  neither the `memset` of the loop (as written, it clears only the first
  `ReadBufferSize` bytes) nor `strncpy` (which stops at `CopyLimit`), so it
  keeps its uninitialised value for the whole connection; `init` is that
  initial content.
 */
module Client {

  import opened Options
  import opened Bytes
  import opened Recv
  import opened Executor
  import opened WriteBuffer

  /** One externally visible step of the loop. */
  datatype Effect =
    | Execute(command: seq<byte>)   // executeCommand is called
    | Send(fd: int, payload: seq<byte>)
    | SendOverread(fd: int)         // strlen ran past the write buffer
    | Close(fd: int)

  /** Why the loop ended. */
  datatype ExitReason = PeerClosed | SentinelReceived | RecvFailed(errno: Errno)

  /** The effects of a session, and its exit reason if the loop has ended. */
  datatype Session = Session(effects: seq<Effect>, exit: Option<ExitReason>)

  /** An outcome after which the loop leaves. */
  predicate Stops(o: RecvOutcome) {
    match o
    case Data(available) => RecvReturn(o) == 0 || IsSentinel(ReceivedCommand(available))
    case PeerShutdown => true
    case Failed(e) => !Retryable(e)
  }

  /** The reason recorded for an outcome that stops the loop. */
  function ExitOf(o: RecvOutcome): ExitReason
    requires Stops(o)
  {
    match o
    case Data(available) => if RecvReturn(o) == 0 then PeerClosed else SentinelReceived
    case PeerShutdown => PeerClosed
    case Failed(e) => RecvFailed(e)
  }

  /** The send that follows a filled write buffer. */
  function SendOf(fd: int, buf: seq<byte>): Effect {
    match SendPayload(buf)
    case Some(p) => Send(fd, p)
    case None => SendOverread(fd)
  }

  /** The result of one iteration: go round again with new effects and buffer, or leave. */
  datatype Step = Proceed(effects: seq<Effect>, wb: seq<byte>) | Leave(reason: ExitReason)

  /**
    One iteration of the loop body: clear the front of the write buffer,
    receive, and either leave, retry, or run the command and send its
    output. `clearLen` is the number of bytes the `memset` clears.
   */
  function Iterate(fd: int, o: RecvOutcome, run: Runner, wb: seq<byte>, clearLen: nat): (st: Step)
    requires |wb| == WriteBufferSize
    ensures st.Leave? <==> Stops(o)
    ensures st.Leave? ==> st.reason == ExitOf(o)
    ensures st.Proceed? ==> |st.wb| == WriteBufferSize
    ensures st.Proceed? ==> forall e :: e in st.effects ==> !e.Close?
    ensures st.Proceed? ==> forall e :: e in st.effects && e.Execute? ==> !IsSentinel(e.command) && |e.command| <= RecvLimit
  {
    var cleared := Memset(wb, clearLen);
    var n := RecvReturn(o);
    if n > 0 then
      var command := ReceivedCommand(o.available);
      if IsSentinel(command) then Leave(SentinelReceived)
      else
        var filled := StrNCopy(cleared, ExecuteCommand(command, run), CopyLimit);
        Proceed([Execute(command), SendOf(fd, filled)], filled)
    else if n == 0 then Leave(PeerClosed)
    else if !Retryable(o.errno) then Leave(RecvFailed(o.errno))
    else Proceed([], cleared)
  }

  /**
    The loop from the current iteration on. When the trace runs out before
    a stopping outcome the loop is still running: nothing is closed and
    `exit` is `None`.
   */
  function Loop(fd: int, trace: seq<RecvOutcome>, run: Runner, wb: seq<byte>, clearLen: nat): (s: Session)
    requires |wb| == WriteBufferSize
    ensures s.exit.Some? <==> exists i :: 0 <= i < |trace| && Stops(trace[i])
    ensures forall e :: e in s.effects && e.Execute? ==> !IsSentinel(e.command) && |e.command| <= RecvLimit
    decreases |trace|
  {
    if |trace| == 0 then Session([], None)
    else
      match Iterate(fd, trace[0], run, wb, clearLen)
      case Leave(reason) =>
        assert Stops(trace[0]);
        Session([Close(fd)], Some(reason))
      case Proceed(step, next) =>
        var rest := Loop(fd, trace[1..], run, next, clearLen);
        var effects := step + rest.effects;
        assert !Stops(trace[0]);
        assert (exists i :: 0 <= i < |trace| && Stops(trace[i])) ==> exists i :: 0 <= i < |trace[1..]| && Stops(trace[1..][i]) by {
          if exists i :: 0 <= i < |trace| && Stops(trace[i]) {
            var i :| 0 <= i < |trace| && Stops(trace[i]);
            assert Stops(trace[1..][i - 1]);
          }
        }
        Session(effects, rest.exit)
  }

  /** `handleClient` as written: the loop clears only `ReadBufferSize` bytes of the write buffer. */
  function HandleClient(fd: int, trace: seq<RecvOutcome>, run: Runner, init: seq<byte>): Session
    requires |init| == WriteBufferSize
  {
    Loop(fd, trace, run, init, ReadBufferSize)
  }

  /** `handleClient` with the whole write buffer cleared on every iteration. */
  function HandleClientCorrected(fd: int, trace: seq<RecvOutcome>, run: Runner, init: seq<byte>): Session
    requires |init| == WriteBufferSize
  {
    Loop(fd, trace, run, init, WriteBufferSize)
  }
}
