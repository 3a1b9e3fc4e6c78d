/** Optional values, used for results the C code can leave undefined. */
module Options {

  datatype Option<+T> = None | Some(value: T)
}

/** Generic facts about sequences that the larger proofs cite instead of rediscovering. */
module Sequences {

  /** Concatenation regroups freely. */
  lemma ConcatAssociates<T>(a: seq<T>, b: seq<T>, c: seq<T>)
    ensures a + (b + c) == (a + b) + c
  {
  }
}

/**
  C `char` buffers as byte sequences, and the two C-string views the server
  relies on: a buffer read up to its first NUL (`std::string(char*)`,
  `c_str()`, `strlen`) and a bounded prefix.
 */
module Bytes {

  newtype byte = b: int | 0 <= b < 256

  const NUL: byte := 0

  /** The bytes of an ASCII literal (each character taken modulo 256). */
  function Ascii(s: string): (r: seq<byte>)
    ensures |r| == |s|
  {
    seq(|s|, i requires 0 <= i < |s| => (s[i] as int % 256) as byte)
  }

  /** The first `n` bytes of `s`, or all of `s` when it is shorter. */
  function Take(s: seq<byte>, n: nat): (r: seq<byte>)
    ensures |r| <= n && |r| <= |s|
    ensures |r| == n || |r| == |s|
    ensures r == s[..|r|]
  {
    if |s| <= n then s else s[..n]
  }

  /** The C string held by `s`: its bytes before the first NUL. */
  function CutAtNul(s: seq<byte>): (r: seq<byte>)
    ensures |r| <= |s| && r == s[..|r|]
    ensures NUL !in r
    ensures |r| < |s| ==> s[|r|] == NUL
  {
    if |s| == 0 || s[0] == NUL then []
    else [s[0]] + CutAtNul(s[1..])
  }

  /** The three facts in CutAtNul's contract determine its result. */
  lemma CutAtNulUnique(s: seq<byte>, p: seq<byte>)
    requires |p| <= |s| && p == s[..|p|]
    requires NUL !in p
    requires |p| < |s| ==> s[|p|] == NUL
    ensures CutAtNul(s) == p
  {
  }

  /** A buffer without NUL is its own C string. */
  lemma CutAtNulOfNulFree(s: seq<byte>)
    requires NUL !in s
    ensures CutAtNul(s) == s
  {
    CutAtNulUnique(s, s);
  }

  /** A terminator behind `a` hides whatever follows it: the C string is that of `a`. */
  lemma CutAtNulStopsAtTerminator(a: seq<byte>, b: seq<byte>)
    ensures CutAtNul(a + [NUL] + b) == CutAtNul(a)
  {
    var s := a + [NUL] + b;
    var p := CutAtNul(a);
    assert s[..|p|] == p;
    assert |p| < |s| ==> s[|p|] == NUL;
    CutAtNulUnique(s, p);
  }
}
