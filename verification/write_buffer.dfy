/**
  The 4096-byte write buffer of the client loop: the `memset` that clears a
  prefix of it, the `strncpy` that copies a response into it, and the
  `strlen` that decides how many of its bytes are sent.
 */
module WriteBuffer {

  import opened Options
  import opened Bytes

  /** `sizeof(writeBuffer)` */
  const WriteBufferSize: nat := 4096

  /** The length passed to `strncpy`: the last byte is not copied into. */
  const CopyLimit: nat := WriteBufferSize - 1

  /** `memset(buf, 0, n)`: the first `n` bytes become NUL, the rest are kept. */
  function Memset(buf: seq<byte>, n: nat): (r: seq<byte>)
    ensures |r| == |buf|
    ensures forall i :: 0 <= i < |buf| ==> r[i] == (if i < n then NUL else buf[i])
  {
    seq(|buf|, i requires 0 <= i < |buf| => if i < n then NUL else buf[i])
  }

  /**
    `strncpy(dst, src.c_str(), n)`: the C string of `src`, at most `n` bytes
    of it, padded with NUL up to `n`; bytes from `n` on are untouched. No
    terminator is written when the C string has `n` bytes or more.
   */
  function StrNCopy(dst: seq<byte>, src: seq<byte>, n: nat): (r: seq<byte>)
    requires n <= |dst|
    ensures |r| == |dst|
    ensures r[n..] == dst[n..]
  {
    var s := CutAtNul(src);
    seq(|dst|, i requires 0 <= i < |dst| => if i < n then (if i < |s| then s[i] else NUL) else dst[i])
  }

  /**
    `send(fd, buf, strlen(buf), 0)`: the bytes before the first NUL, or `None`
    when the buffer holds no NUL, in which case `strlen` reads past its end.
   */
  function SendPayload(buf: seq<byte>): (p: Option<seq<byte>>)
    ensures p.Some? <==> NUL in buf
    ensures p.Some? ==> p.value == CutAtNul(buf) && |p.value| < |buf|
  {
    if NUL in buf then Some(CutAtNul(buf)) else None
  }

  /** The bytes of a response that can reach the peer: its C string, at most `CopyLimit` of them. */
  function Truncate(response: seq<byte>): (t: seq<byte>)
    ensures |t| <= CopyLimit
    ensures NUL !in t
    ensures |t| <= |response| && t == response[..|t|]
  {
    Take(CutAtNul(response), CopyLimit)
  }

  /**
    `strlen` as the loop it is: the index of the first NUL, or `None` when
    the buffer has none.
   */
  method Strlen(buf: seq<byte>) returns (n: Option<nat>)
    ensures n.Some? <==> NUL in buf
    ensures n.Some? ==> n.value < |buf| && buf[n.value] == NUL
    ensures n.Some? ==> forall j :: 0 <= j < n.value ==> buf[j] != NUL
    ensures n.Some? ==> SendPayload(buf) == Some(buf[..n.value])
  {
    var i := 0;
    while i < |buf| && buf[i] != NUL
      invariant 0 <= i <= |buf|
      invariant forall j :: 0 <= j < i ==> buf[j] != NUL
    {
      i := i + 1;
    }
    if i < |buf| {
      CutAtNulUnique(buf, buf[..i]);
      n := Some(i);
    } else {
      n := None;
    }
  }

  /**
    What the peer receives after a response was copied into a buffer of
    `WriteBufferSize` bytes: the truncated response when its C string is
    shorter than `CopyLimit`; when it is not, the outcome rests on the last
    byte of the buffer, which `strncpy` never writes, and it is defined
    exactly when that byte is NUL.
   */
  lemma PayloadAfterCopy(dst: seq<byte>, response: seq<byte>)
    requires |dst| == WriteBufferSize
    ensures var p := SendPayload(StrNCopy(dst, response, CopyLimit));
      && (|CutAtNul(response)| < CopyLimit ==> p == Some(CutAtNul(response)))
      && (p.Some? <==> |CutAtNul(response)| < CopyLimit || dst[CopyLimit] == NUL)
      && (p.Some? ==> p.value == Truncate(response))
  {
    var s := CutAtNul(response);
    var buf := StrNCopy(dst, response, CopyLimit);
    var t := Truncate(response);
    assert buf[..|t|] == t by {
      assert forall i :: 0 <= i < |t| ==> buf[i] == s[i];
    }
    if |s| < CopyLimit {
      assert buf[|s|] == NUL;
      CutAtNulUnique(buf, t);
    } else {
      assert |t| == CopyLimit;
      assert forall i :: 0 <= i < CopyLimit ==> buf[i] == s[i] && buf[i] != NUL;
      assert buf[CopyLimit] == dst[CopyLimit];
      if dst[CopyLimit] == NUL {
        CutAtNulUnique(buf, t);
      } else {
        assert forall i :: 0 <= i < |buf| ==> buf[i] != NUL;
        assert NUL !in buf;
      }
    }
  }
}
