/**
  One `recv` call of the client loop, seen through its outcome, and how the
  loop turns the bytes it received into a command string.
 */
module Recv {

  import opened Bytes

  /** `sizeof(readBuffer)` */
  const ReadBufferSize: nat := 1024

  /** The length passed to `recv`: one byte is kept for the terminator. */
  const RecvLimit: nat := ReadBufferSize - 1

  /** The letter `q`, whose presence anywhere in a command ends the session. */
  const QUIT: byte := 0x71

  /** The `errno` values the loop distinguishes after a failed `recv`. */
  datatype Errno = EAGAIN | EWOULDBLOCK | OtherErrno(code: int)

  /** What one `recv` call finds on the socket. */
  datatype RecvOutcome =
    | Data(available: seq<byte>)   // the bytes `recv` would copy; empty stands for a return of 0
    | PeerShutdown                 // orderly shutdown by the peer
    | Failed(errno: Errno)         // the call failed and set errno

  /** The value `recv` returns: a byte count, 0 at end of stream, -1 on error. */
  function RecvReturn(o: RecvOutcome): (n: int)
    ensures n > 0 <==> o.Data? && |o.available| > 0
    ensures n == -1 <==> o.Failed?
    ensures o.Data? ==> n == |Take(o.available, RecvLimit)|
  {
    match o
    case Data(available) => |Take(available, RecvLimit)|
    case PeerShutdown => 0
    case Failed(_) => -1
  }

  /** An error after which the loop simply calls `recv` again. */
  predicate Retryable(e: Errno) {
    e == EWOULDBLOCK || e == EAGAIN
  }

  /**
    The read buffer after it was zeroed, `recv` wrote its bytes at the front,
    and a terminator was stored behind them.
   */
  function ReadBufferAfterRecv(available: seq<byte>): (buf: seq<byte>)
    ensures |buf| == ReadBufferSize
  {
    var received := Take(available, RecvLimit);
    var cleared := seq(ReadBufferSize, _ => NUL);
    var written := received + cleared[|received|..];
    written[|received| := NUL]
  }

  /** The terminator stored behind the received bytes ends the C string the buffer holds. */
  lemma TerminatorEndsCommand(available: seq<byte>)
    ensures CutAtNul(ReadBufferAfterRecv(available)) == CutAtNul(Take(available, RecvLimit))
  {
    var buf := ReadBufferAfterRecv(available);
    var received := Take(available, RecvLimit);
    var behind := buf[|received| + 1..];
    assert buf == received + [NUL] + behind;
    CutAtNulStopsAtTerminator(received, behind);
  }

  /**
    The command built from the read buffer: what `recv` delivered, cut at
    `RecvLimit` bytes and again at its first NUL.
   */
  function ReceivedCommand(available: seq<byte>): (command: seq<byte>)
    ensures |command| <= RecvLimit
    ensures NUL !in command
    ensures command == CutAtNul(Take(available, RecvLimit))
  {
    TerminatorEndsCommand(available);
    CutAtNul(ReadBufferAfterRecv(available))
  }

  /** The disconnect rule of the loop: the command contains a `q`. */
  predicate IsSentinel(command: seq<byte>) {
    QUIT in command
  }

  /**
    A chunk ends the session exactly when a `q` occurs among its first
    `RecvLimit` bytes before any NUL.
   */
  lemma SentinelIffQuitBeforeNul(available: seq<byte>)
    ensures IsSentinel(ReceivedCommand(available)) <==>
      exists i :: 0 <= i < |available| && i < RecvLimit && available[i] == QUIT && NUL !in available[..i]
  {
    var command := ReceivedCommand(available);
    var received := Take(available, RecvLimit);
    if IsSentinel(command) {
      var i :| 0 <= i < |command| && command[i] == QUIT;
      assert command[..i] == available[..i];
      assert NUL !in available[..i];
    }
    if exists i :: 0 <= i < |available| && i < RecvLimit && available[i] == QUIT && NUL !in available[..i] {
      var i :| 0 <= i < |available| && i < RecvLimit && available[i] == QUIT && NUL !in available[..i];
      assert received[i] == QUIT;
      assert command[i] == QUIT;
    }
  }

  /** A short, NUL-free chunk is received unchanged. */
  lemma ShortCleanChunkIsCommand(available: seq<byte>)
    requires |available| <= RecvLimit
    requires NUL !in available
    ensures ReceivedCommand(available) == available
  {
    CutAtNulOfNulFree(available);
  }
}
