/**
  What a whole `handleClient` session does, stated against a reference
  transcript: the commands received before the first outcome that ends the
  loop, each executed once and answered by one send, then a single close.
 */
module Session {

  import opened Options
  import opened Sequences
  import opened Bytes
  import opened Recv
  import opened Executor
  import opened WriteBuffer
  import opened Client

  /** `k` is the position of the first outcome that ends the loop, or `|trace|` if none does. */
  ghost predicate StopsAt(trace: seq<RecvOutcome>, k: nat) {
    && k <= |trace|
    && (forall i :: 0 <= i < k ==> !Stops(trace[i]))
    && (k < |trace| ==> Stops(trace[k]))
  }

  /** Prepending an outcome that does not stop the loop moves the first stop one place on. */
  lemma StopsAtCons(trace: seq<RecvOutcome>, k: nat)
    requires |trace| > 0 && !Stops(trace[0])
    ensures StopsAt(trace[1..], k) <==> StopsAt(trace, k + 1)
  {
    var rest := trace[1..];
    assert forall i :: 0 <= i < |rest| ==> rest[i] == trace[i + 1];
    if StopsAt(trace, k + 1) {
      assert forall i :: 0 <= i < k ==> !Stops(rest[i]) by {
        forall i | 0 <= i < k
          ensures !Stops(rest[i])
        {
          assert rest[i] == trace[i + 1];
        }
      }
    }
    if StopsAt(rest, k) {
      assert forall i :: 0 <= i < k + 1 ==> !Stops(trace[i]) by {
        forall i | 0 <= i < k + 1
          ensures !Stops(trace[i])
        {
          if i > 0 {
            assert trace[i] == rest[i - 1];
          }
        }
      }
    }
  }

  /** The position of the first outcome that ends the loop, or `|trace|`. */
  function FirstStop(trace: seq<RecvOutcome>): (k: nat)
    ensures StopsAt(trace, k)
    decreases |trace|
  {
    if |trace| == 0 || Stops(trace[0]) then 0
    else
      var k := FirstStop(trace[1..]);
      StopsAtCons(trace, k);
      k + 1
  }

  /** The commands carried by the data outcomes of `trace`, in order. */
  function Commands(trace: seq<RecvOutcome>): seq<seq<byte>>
    decreases |trace|
  {
    if |trace| == 0 then []
    else if RecvReturn(trace[0]) > 0 then [ReceivedCommand(trace[0].available)] + Commands(trace[1..])
    else Commands(trace[1..])
  }

  /**
    The byte `strlen` meets at index `CopyLimit` of the write buffer: the
    last byte after the `memset` of `clearLen` bytes. It is NUL when the
    whole buffer is cleared, and otherwise the buffer's initial last byte.
   */
  function GuardByte(wb: seq<byte>, clearLen: nat): (g: byte)
    requires |wb| == WriteBufferSize
    ensures g == (if clearLen > CopyLimit then NUL else wb[CopyLimit])
  {
    Memset(wb, clearLen)[CopyLimit]
  }

  /** The send that answers `response`, given the guard byte: the truncated response, unless `strlen` overreads. */
  function Reply(fd: int, response: seq<byte>, guard: byte): Effect {
    if |CutAtNul(response)| < CopyLimit || guard == NUL then Send(fd, Truncate(response))
    else SendOverread(fd)
  }

  /** The effects of executing and answering each of `commands` in turn. */
  function Transcript(fd: int, commands: seq<seq<byte>>, run: Runner, guard: byte): seq<Effect>
    decreases |commands|
  {
    if |commands| == 0 then []
    else
      [Execute(commands[0]), Reply(fd, ExecuteCommand(commands[0], run), guard)]
      + Transcript(fd, commands[1..], run, guard)
  }

  /**
    One iteration that does not end the loop: a data outcome executes its
    command once and sends one reply; a would-block outcome has no effect.
    Either way the guard byte is kept.
   */
  lemma IterateProceeds(fd: int, o: RecvOutcome, run: Runner, wb: seq<byte>, clearLen: nat)
    requires |wb| == WriteBufferSize
    requires !Stops(o)
    ensures var st := Iterate(fd, o, run, wb, clearLen);
      && st.Proceed?
      && GuardByte(st.wb, clearLen) == GuardByte(wb, clearLen)
      && st.effects == (if RecvReturn(o) > 0
                        then var c := ReceivedCommand(o.available);
                             [Execute(c), Reply(fd, ExecuteCommand(c, run), GuardByte(wb, clearLen))]
                        else [])
  {
    var cleared := Memset(wb, clearLen);
    var st := Iterate(fd, o, run, wb, clearLen);
    if RecvReturn(o) > 0 {
      var command := ReceivedCommand(o.available);
      var response := ExecuteCommand(command, run);
      PayloadAfterCopy(cleared, response);
      assert st.wb[CopyLimit] == cleared[CopyLimit];
    }
  }

  /** A non-stopping first outcome contributes the iteration's effects ahead of the rest of the loop. */
  lemma LoopUnfoldsProceed(fd: int, trace: seq<RecvOutcome>, run: Runner, wb: seq<byte>, clearLen: nat)
    requires |wb| == WriteBufferSize
    requires |trace| > 0 && !Stops(trace[0])
    ensures var st := Iterate(fd, trace[0], run, wb, clearLen);
      && st.Proceed?
      && Loop(fd, trace, run, wb, clearLen).effects == st.effects + Loop(fd, trace[1..], run, st.wb, clearLen).effects
      && Loop(fd, trace, run, wb, clearLen).exit == Loop(fd, trace[1..], run, st.wb, clearLen).exit
  {
  }

  /** The transcript of a prefix whose first outcome does not stop: that iteration's effects, then the rest. */
  lemma TranscriptUnfolds(fd: int, trace: seq<RecvOutcome>, run: Runner, wb: seq<byte>, clearLen: nat, k: nat)
    requires |wb| == WriteBufferSize
    requires 0 < k <= |trace| && !Stops(trace[0])
    ensures var st := Iterate(fd, trace[0], run, wb, clearLen);
      && st.Proceed?
      && GuardByte(st.wb, clearLen) == GuardByte(wb, clearLen)
      && Transcript(fd, Commands(trace[..k]), run, GuardByte(wb, clearLen))
         == st.effects + Transcript(fd, Commands(trace[1..][..k - 1]), run, GuardByte(wb, clearLen))
  {
    var st := Iterate(fd, trace[0], run, wb, clearLen);
    IterateProceeds(fd, trace[0], run, wb, clearLen);
    var g := GuardByte(wb, clearLen);
    var later := Commands(trace[1..][..k - 1]);
    assert trace[..k][1..] == trace[1..][..k - 1];
    if RecvReturn(trace[0]) > 0 {
      var c := ReceivedCommand(trace[0].available);
      assert Commands(trace[..k]) == [c] + later;
      assert ([c] + later)[1..] == later;
    } else {
      assert Commands(trace[..k]) == later;
    }
  }

  /**
    The whole session: the loop executes, in order, the commands received
    before the first outcome `trace[k]` that ends it, answers each with one
    reply, and after that outcome closes the socket once and does nothing
    more. If no outcome ends it, nothing is closed.
   */
  lemma {:induction false} LoopFollowsTranscript(fd: int, trace: seq<RecvOutcome>, run: Runner, wb: seq<byte>, clearLen: nat, k: nat)
    requires |wb| == WriteBufferSize
    requires StopsAt(trace, k)
    ensures Loop(fd, trace, run, wb, clearLen).effects ==
      Transcript(fd, Commands(trace[..k]), run, GuardByte(wb, clearLen)) + (if k < |trace| then [Close(fd)] else [])
    ensures Loop(fd, trace, run, wb, clearLen).exit == (if k < |trace| then Some(ExitOf(trace[k])) else None)
    decreases |trace|
  {
    if |trace| == 0 {
    } else if Stops(trace[0]) {
      assert k == 0;
    } else {
      var st := Iterate(fd, trace[0], run, wb, clearLen);
      var rest := trace[1..];
      StopsAtCons(trace, k - 1);
      LoopUnfoldsProceed(fd, trace, run, wb, clearLen);
      TranscriptUnfolds(fd, trace, run, wb, clearLen, k);
      LoopFollowsTranscript(fd, rest, run, st.wb, clearLen, k - 1);
      assert k < |trace| ==> trace[k] == rest[k - 1];
      var later := Transcript(fd, Commands(rest[..k - 1]), run, GuardByte(wb, clearLen));
      var close: seq<Effect> := if k < |trace| then [Close(fd)] else [];
      ConcatAssociates(st.effects, later, close);
    }
  }

  /** A response whose C string fills the whole copy: `strncpy` leaves it unterminated. */
  predicate LongResponse(command: seq<byte>, run: Runner) {
    |CutAtNul(ExecuteCommand(command, run))| >= CopyLimit
  }

  /** A transcript only executes and sends: it never closes. */
  lemma {:induction false} TranscriptNeverCloses(fd: int, commands: seq<seq<byte>>, run: Runner, guard: byte)
    ensures forall e :: e in Transcript(fd, commands, run, guard) ==> !e.Close?
    decreases |commands|
  {
    if |commands| > 0 {
      TranscriptNeverCloses(fd, commands[1..], run, guard);
    }
  }

  /** A transcript overreads exactly when the guard byte is not NUL and some response is long. */
  lemma {:induction false} TranscriptOverreadIff(fd: int, commands: seq<seq<byte>>, run: Runner, guard: byte)
    ensures SendOverread(fd) in Transcript(fd, commands, run, guard) <==>
      guard != NUL && exists c :: c in commands && LongResponse(c, run)
    decreases |commands|
  {
    if |commands| > 0 {
      var c := commands[0];
      var tail := commands[1..];
      TranscriptOverreadIff(fd, tail, run, guard);
      var reply := Reply(fd, ExecuteCommand(c, run), guard);
      var r := Transcript(fd, tail, run, guard);
      assert Transcript(fd, commands, run, guard) == [Execute(c), reply] + r;
      assert reply == SendOverread(fd) <==> guard != NUL && LongResponse(c, run);
      assert commands == [c] + tail;
      if guard != NUL && exists x :: x in commands && LongResponse(x, run) {
        var x :| x in commands && LongResponse(x, run);
        assert x == c || x in tail;
      }
    }
  }

  /** When no reply depends on it, the guard byte does not change the transcript. */
  lemma {:induction false} TranscriptIgnoresGuard(fd: int, commands: seq<seq<byte>>, run: Runner, guard: byte)
    requires forall c :: c in commands ==> !LongResponse(c, run)
    ensures Transcript(fd, commands, run, guard) == Transcript(fd, commands, run, NUL)
    decreases |commands|
  {
    if |commands| > 0 {
      assert commands[0] in commands;
      TranscriptIgnoresGuard(fd, commands[1..], run, guard);
    }
  }

  /** The effects `handleClient` is meant to have: every reply is the truncated response. */
  function IntendedEffects(fd: int, trace: seq<RecvOutcome>, run: Runner): seq<Effect> {
    var k := FirstStop(trace);
    Transcript(fd, Commands(trace[..k]), run, NUL) + (if k < |trace| then [Close(fd)] else [])
  }

  /** The loop never closes the socket except as its last effect, and closes it exactly when it has exited. */
  lemma {:induction false} CloseOnceAtEnd(fd: int, trace: seq<RecvOutcome>, run: Runner, wb: seq<byte>, clearLen: nat)
    requires |wb| == WriteBufferSize
    ensures var s := Loop(fd, trace, run, wb, clearLen);
      && (s.exit.Some? <==> |s.effects| > 0 && s.effects[|s.effects| - 1] == Close(fd))
      && (forall i :: 0 <= i < |s.effects| - 1 ==> !s.effects[i].Close?)
  {
    var k := FirstStop(trace);
    var t := Transcript(fd, Commands(trace[..k]), run, GuardByte(wb, clearLen));
    LoopFollowsTranscript(fd, trace, run, wb, clearLen, k);
    TranscriptNeverCloses(fd, Commands(trace[..k]), run, GuardByte(wb, clearLen));
    assert forall i :: 0 <= i < |t| ==> t[i] in t;
  }

  /**
    `handleClient` as written has its intended effects exactly when the
    initial last byte of the write buffer is NUL or no response of the
    session fills the copy.
   */
  lemma HandleClientIntendedIff(fd: int, trace: seq<RecvOutcome>, run: Runner, init: seq<byte>)
    requires |init| == WriteBufferSize
    ensures HandleClient(fd, trace, run, init).effects == IntendedEffects(fd, trace, run) <==>
      init[CopyLimit] == NUL || forall c :: c in Commands(trace[..FirstStop(trace)]) ==> !LongResponse(c, run)
  {
    var k := FirstStop(trace);
    var commands := Commands(trace[..k]);
    var closing: seq<Effect> := if k < |trace| then [Close(fd)] else [];
    var actual := Transcript(fd, commands, run, init[CopyLimit]);
    var intended := Transcript(fd, commands, run, NUL);
    LoopFollowsTranscript(fd, trace, run, init, ReadBufferSize, k);
    if init[CopyLimit] == NUL {
    } else if forall c :: c in commands ==> !LongResponse(c, run) {
      TranscriptIgnoresGuard(fd, commands, run, init[CopyLimit]);
    } else {
      TranscriptOverreadIff(fd, commands, run, init[CopyLimit]);
      TranscriptOverreadIff(fd, commands, run, NUL);
      assert SendOverread(fd) in actual + closing;
      assert SendOverread(fd) !in intended + closing;
    }
  }

  /** With the whole write buffer cleared, every session has its intended effects. */
  lemma HandleClientCorrectedIntended(fd: int, trace: seq<RecvOutcome>, run: Runner, init: seq<byte>)
    requires |init| == WriteBufferSize
    ensures HandleClientCorrected(fd, trace, run, init).effects == IntendedEffects(fd, trace, run)
    ensures SendOverread(fd) !in HandleClientCorrected(fd, trace, run, init).effects
  {
    var k := FirstStop(trace);
    LoopFollowsTranscript(fd, trace, run, init, WriteBufferSize, k);
    TranscriptOverreadIff(fd, Commands(trace[..k]), run, NUL);
  }

  /**
    A failing `handleClient` session: one short command whose output fills
    the copy, and an initial last buffer byte that is not NUL, make `strlen`
    run past the write buffer.
   */
  lemma OverreadCounterexample()
    ensures var init := seq(WriteBufferSize, _ => 0x41 as byte);
      var output := seq(CopyLimit, _ => 0x78 as byte);
      var run: Runner := _ => Some(output);
      HandleClient(5, [Data(Ascii("ls"))], run, init).effects == [Execute(Ascii("ls")), SendOverread(5)]
  {
    var init := seq(WriteBufferSize, _ => 0x41 as byte);
    var output := seq(CopyLimit, _ => 0x78 as byte);
    var run: Runner := _ => Some(output);
    var trace := [Data(Ascii("ls"))];
    ShortCleanChunkIsCommand(Ascii("ls"));
    assert !IsSentinel(Ascii("ls"));
    assert FirstStop(trace) == 1;
    assert trace[..1] == trace;
    assert Commands(trace) == [Ascii("ls")];
    CutAtNulOfNulFree(output);
    LoopFollowsTranscript(5, trace, run, init, ReadBufferSize, 1);
  }

  /** A would-block outcome leaves no trace: the session is the one without it. */
  lemma {:induction false} WouldBlockIsInvisible(fd: int, e: Errno, trace: seq<RecvOutcome>, run: Runner, wb: seq<byte>, clearLen: nat)
    requires |wb| == WriteBufferSize
    requires Retryable(e)
    ensures Loop(fd, [Failed(e)] + trace, run, wb, clearLen) == Loop(fd, trace, run, wb, clearLen)
  {
    var longer := [Failed(e)] + trace;
    var k := FirstStop(trace);
    assert StopsAt(longer, k + 1) by {
      assert forall i :: 1 <= i < |longer| ==> longer[i] == trace[i - 1];
    }
    assert longer[..k + 1] == [Failed(e)] + trace[..k];
    assert Commands(longer[..k + 1]) == Commands(trace[..k]);
    LoopFollowsTranscript(fd, longer, run, wb, clearLen, k + 1);
    LoopFollowsTranscript(fd, trace, run, wb, clearLen, k);
  }

  /** When the process cannot be started, the peer is sent exactly the diagnostic. */
  lemma FailedSpawnIsReported(fd: int, command: seq<byte>, run: Runner, guard: byte)
    requires run(ShellLine(command)).None?
    ensures Reply(fd, ExecuteCommand(command, run), guard) == Send(fd, Ascii("Failed to execute command\n"))
  {
    var message := FailureMessage();
    assert NUL !in message by {
      assert forall i :: 0 <= i < |message| ==> message[i] != NUL;
    }
    CutAtNulOfNulFree(message);
  }
}
