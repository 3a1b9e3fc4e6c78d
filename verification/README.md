# Boba-Server: the client loop and the reactor rule in Dafny

Boba-Server is a remote command-execution server. A single reactor thread
waits on an edge-triggered epoll set. It accepts new clients. For a
readable client it hands a `handleClient` task to a thread pool.
`handleClient` loops on `recv`. Each chunk it receives is a shell command.
A command containing the letter `q` ends the session. Any other command is
run through `popen`, and its captured output is sent back.

This project models two parts of `BobaServer.cpp`:

- **The client loop** (`handleClient`, lines 86-120) is a deterministic
  state machine. It is driven by a finite trace of `recv` outcomes: data,
  end of stream, would-block, or another error. It produces the ordered
  effects of the session: each command handed to `executeCommand`, each
  send, and the final close. The C buffers are modelled byte by byte. The
  1024-byte read buffer is zeroed, filled and terminated, then read as a C
  string. The 4096-byte write buffer is partly cleared by `memset`, filled
  by `strncpy` and measured by `strlen`. That is how the model pins down
  what is sent.
- **The reactor rule** (lines 154-183) is a pure classification of each
  ready event: accept and register, close the new fd, enqueue a task, or
  ignore. A fold over a batch of events gives the reactor state: the
  registered fds, the enqueued tasks and the closed fds.

Modules and files:

- `bytes.dfy`: `Options` (an `Option` type), `Sequences` (a generic
  sequence fact) and `Bytes` (the `byte` type, C-string cut at the first
  NUL, bounded prefix).
- `recv.dfy`: `Recv` (recv outcomes, the read buffer, the received
  command, the `q` rule).
- `executor.dfy`: `Executor` (the shell line, `executeCommand` with the
  process as a parameter).
- `write_buffer.dfy`: `WriteBuffer` (`memset`, `strncpy`, `strlen`, what is
  sent).
- `client.dfy`: `Client` (one iteration, the loop, `handleClient` as
  written and corrected).
- `session.dfy`: `Session` (the reference transcript and the properties of
  whole sessions).
- `reactor.dfy`: `Reactor` (event classification, batch processing).

The process started by `popen` is a parameter `run` of type
`seq<byte> -> Option<seq<byte>>`. `None` means the process could not be
started. `Some(output)` carries everything it printed. Inside the loop,
`executeCommand` is therefore an uninterpreted function of the command,
apart from two facts: the appended redirect and the fixed diagnostic.

Notes on the code:

- The session ends on any command that contains `q` (line 102), whatever
  else the command holds.
- A finished connection is only `close`d (line 118). It is never removed
  from the epoll set first.
- Nothing stops two tasks for the same fd from being queued (lines
  178-181).

## Model

| member | source | states |
|---|---|---|
| Recv.ReceivedCommand | BobaServer.cpp:91-98 | The command built from the zeroed, filled and terminated read buffer is the received bytes cut at 1023 and again at the first NUL. It has at most 1023 bytes and no NUL. |
| Recv.SentinelIffQuitBeforeNul | BobaServer.cpp:94-104 | The received command contains `q` if and only if a `q` occurs in the chunk's first 1023 bytes before any NUL. |
| Recv.TerminatorEndsCommand | BobaServer.cpp:91-98 | Reading the zeroed, filled and terminated read buffer as a C string gives the received bytes, at most 1023 of them, cut at their first NUL: the zeroes behind the terminator never reach the command. |
| Recv.ShortCleanChunkIsCommand | BobaServer.cpp:94-98 | A chunk of at most 1023 bytes with no NUL reaches the loop unchanged. |
| Executor.ShellLine | BobaServer.cpp:62-65 | The shell receives the command followed by ` 2>&1`, as a C string. For a NUL-free command, that is exactly the command plus the redirect. |
| Executor.ExecuteCommandContract | BobaServer.cpp:57-68 | The shell line starts with the command and ends with ` 2>&1`. A process that cannot be started yields exactly `Failed to execute command\n`. Otherwise the result is the process's output. |
| WriteBuffer.Strlen | BobaServer.cpp:108 | The scan finds the first NUL exactly when the buffer has one. The bytes before it are what `send` is given. When the buffer has no NUL, the scan runs past its end. |
| WriteBuffer.PayloadAfterCopy | BobaServer.cpp:107-108 | After `strncpy` of 4095 bytes, a response whose C string is shorter than 4095 is sent in full. A longer one is sent cut to 4095 bytes if and only if the buffer's last byte is NUL; otherwise `strlen` overreads. |
| Client.Iterate | BobaServer.cpp:90-116 | One iteration leaves exactly on an outcome that stops the loop, with that outcome's exit reason. Otherwise it makes no close, never executes a command containing `q`, and keeps the buffer size. |
| Client.Loop | BobaServer.cpp:90-118 | The loop exits if and only if some outcome in the trace stops it. No executed command contains `q`, and every executed command has at most 1023 bytes. |
| Session.StopsAtCons | BobaServer.cpp:96-116 | After an outcome that lets the loop go on, the first stopping outcome of the rest is exactly one place later in the whole trace, and conversely. |
| Session.FirstStop | BobaServer.cpp:96-116 | Finds the first outcome that ends the loop: zero bytes, a `q` command, or an error other than would-block. |
| Session.IterateProceeds | BobaServer.cpp:94-116 | An iteration that does not stop executes a data chunk's command once and sends one reply. A would-block iteration has no effect. Either way the byte `strlen` will meet at index 4095 is unchanged. |
| Session.LoopFollowsTranscript | BobaServer.cpp:90-118 | A session's effects are, in order, one execute and one reply for each command received before the first stopping outcome. Then comes one close if that outcome exists. The exit reason is that outcome's. |
| Session.CloseOnceAtEnd | BobaServer.cpp:104-118 | The socket is closed exactly when the loop has exited, as the last effect, and never before. |
| Session.TranscriptNeverCloses | BobaServer.cpp:106-108 | Executing and answering commands never closes the socket. |
| Session.TranscriptOverreadIff | BobaServer.cpp:92-108 | A reply runs `strlen` past the write buffer if and only if the buffer's last byte is not NUL and some response has at least 4095 bytes before its first NUL. |
| Session.TranscriptIgnoresGuard | BobaServer.cpp:107-108 | When every response is shorter than 4095 bytes, the write buffer's last byte has no influence on what is sent. |
| Session.HandleClientIntendedIff | BobaServer.cpp:86-120 | `handleClient` as written sends each response cut at the first NUL and at 4095 bytes if and only if the write buffer's initial last byte is NUL or no response reaches 4095 bytes. |
| Session.HandleClientCorrectedIntended | BobaServer.cpp:92 | With the whole write buffer cleared, every session has the intended effects, and `strlen` never overreads. |
| Session.OverreadCounterexample | BobaServer.cpp:92 | The command `ls` with a 4095-byte output and a non-NUL last buffer byte makes `handleClient` as written overread instead of sending. |
| Session.WouldBlockIsInvisible | BobaServer.cpp:113-116 | A would-block outcome changes nothing: the session equals the one without it. |
| Session.FailedSpawnIsReported | BobaServer.cpp:65-68 | When the process cannot be started, the peer receives exactly `Failed to execute command\n`. |
| Reactor.Classify | BobaServer.cpp:155-183 | Listen-fd events accept. A successful accept registers the fd, or closes it if registration fails. Any other fd gets a task if and only if EPOLLIN is set. |
| Reactor.ProcessEventsContents | BobaServer.cpp:155-183 | A batch enqueues tasks for exactly the readable client events, in order. It closes exactly the accepted fds whose registration failed and registers exactly the others. |
| Reactor.ListenerNeverEnqueued | BobaServer.cpp:156-182 | The listening socket is never handed to `handleClient`. |
| Reactor.UnregisteredNeverEnqueued | BobaServer.cpp:158-171 | The interest list reports only registered fds. So an fd whose registration failed, and which is not registered by the end of the batch, never gets a task. |
| Reactor.WritableOnlyIgnored | BobaServer.cpp:163-182 | A client event that reports only writability, which every registration also asks for, gets no task. |
| Reactor.FailedRegistrationClosedNeverEnqueued | BobaServer.cpp:139-171 | Starting from the registered listening socket, an accepted fd whose registration failed, and which is not registered later in the batch, is closed and never handed to `handleClient`. |
| Reactor.ProcessWake | BobaServer.cpp:154-155 | A failed `epoll_wait` handles nothing. A successful one enqueues exactly the readable client events of that wake and never the listening socket. |

## Left out

- Socket creation, bind, listen, `setNonBlocking` and `epoll_create1`
  (lines 19-54, 123-149, 161) are OS setup with no logic beyond error
  returns. The reactor starts from the state in which the listening socket
  is registered.
- The thread pool and the epoll thread (lines 138, 152-188) exist for
  concurrency. The pool is modelled only as the ordered list of fds handed
  to it. Several tasks for one fd can run at once in the source; that is
  not modelled.
- A worker's `close` of a client fd also removes it from the epoll set.
  That is concurrent with the reactor and not modelled, so the registered
  set only grows. Reuse of fd numbers by the OS is not modelled either.
- The `popen`/`fgets` capture loop (lines 70-75) is left out. `run`
  returns the captured output directly. The cut that `result +=
  buffer.data()` makes at an embedded NUL inside each 127-byte `fgets`
  chunk is not modelled.
- `send` and `close` return values are ignored by the source. Partial
  sends and send errors are not modelled: a send effect records the
  requested bytes.
- `recv` copies at most 1023 bytes. Bytes beyond that stay queued in the
  kernel. The model treats the next outcome in the trace as standing for
  them, and does not model consistency between successive outcomes.
- What an overreading `strlen` finds beyond the write buffer is undefined
  behaviour. The model records it as a `SendOverread` effect with no
  content.
- Console logging throughout is left out.
- Reactor.ProcessWake: requires at most 10 events per wake. That is the
  size of the array passed to `epoll_wait`, which the kernel never exceeds.

## Findings

| source | as written | input that shows it | evidently intended | confidence | as-written member | corrected member |
|---|---|---|---|---|---|---|
| BobaServer.cpp:92 | The `memset` of the write buffer clears `sizeof(readBuffer)` bytes, which is 1024 of 4096. Index 4095 is never written, because `strncpy` stops at 4095 bytes. That byte keeps its uninitialised value, and `strlen` relies on it for any response of 4095 or more bytes. | A command whose output has at least 4095 bytes before any NUL, while the write buffer's last byte holds a non-zero value. `strlen` then reads past the buffer. | Clear the whole write buffer, so the response is always terminated at index 4095 and sent cut to 4095 bytes. | high; not executed | Session.OverreadCounterexample | Session.HandleClientCorrectedIntended |
