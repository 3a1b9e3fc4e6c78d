/**
  `executeCommand`: the command is handed to the shell with standard error
  merged into standard output, and the captured output is returned. The
  process itself is a parameter `run`: `run(line)` is `None` when the
  process cannot be started and `Some(output)` with everything it printed
  otherwise.
 */
module Executor {

  import opened Options
  import opened Bytes

  /** What `executeCommand` appends to every command. */
  function Redirect(): (r: seq<byte>)
    ensures |r| == 5
  {
    Ascii(" 2>&1")
  }

  /** The diagnostic returned when the process cannot be started. */
  function FailureMessage(): (r: seq<byte>)
    ensures |r| == 26
  {
    Ascii("Failed to execute command\n")
  }

  /** The process starter: maps a shell line to the captured output, or `None`. */
  type Runner = seq<byte> -> Option<seq<byte>>

  /**
    The line the shell is given: the command with the redirect appended, as
    the C string `popen` reads, so it stops at the first NUL.
   */
  function ShellLine(command: seq<byte>): (line: seq<byte>)
    ensures |line| <= |command| + |Redirect()|
    ensures line == (command + Redirect())[..|line|]
    ensures NUL !in line
    ensures NUL !in command ==> line == command + Redirect()
  {
    var full := command + Redirect();
    if NUL !in command then
      assert NUL !in Redirect();
      CutAtNulOfNulFree(full);
      CutAtNul(full)
    else
      CutAtNul(full)
  }

  /** The response `executeCommand` returns for `command`. */
  function ExecuteCommand(command: seq<byte>, run: Runner): (response: seq<byte>)
  {
    match run(ShellLine(command))
    case None => FailureMessage()
    case Some(output) => output
  }

  /**
    The shell sees exactly the command followed by the redirect, and the
    result is the diagnostic if and only if the process could not be started
    (or its output happened to be that same text).
   */
  lemma ExecuteCommandContract(command: seq<byte>, run: Runner)
    requires NUL !in command
    ensures ShellLine(command)[..|command|] == command
    ensures ShellLine(command)[|command|..] == Ascii(" 2>&1")
    ensures run(command + Ascii(" 2>&1")).None? ==> ExecuteCommand(command, run) == Ascii("Failed to execute command\n")
    ensures run(command + Ascii(" 2>&1")).Some? ==> ExecuteCommand(command, run) == run(command + Ascii(" 2>&1")).value
  {
  }
}
