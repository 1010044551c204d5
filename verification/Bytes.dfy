/** Bytes and C strings.

A text is a sequence of bytes without its terminator: reading at its length
yields the terminating NUL, as `Peek` says. A pointer into a text is a position.
 */
module Bytes {

  type byte = b: int | 0 <= b < 256

  const NUL: byte := 0
  const QUOTE: byte := 0x22
  const BACKSLASH: byte := 0x5C
  const COMMA: byte := 0x2C
  const COLON: byte := 0x3A
  const SPACE: byte := 0x20
  const TAB: byte := 0x09
  const LF: byte := 0x0A
  const CR: byte := 0x0D
  const LBRACKET: byte := 0x5B
  const RBRACKET: byte := 0x5D
  const LBRACE: byte := 0x7B
  const RBRACE: byte := 0x7D

  /** A text of ASCII characters as bytes. */
  function Ascii(s: string): (r: seq<byte>)
    requires forall k :: 0 <= k < |s| ==> s[k] < 128 as char
    ensures |r| == |s| && forall k :: 0 <= k < |s| ==> r[k] == s[k] as int
  {
    seq(|s|, k requires 0 <= k < |s| => s[k] as int)
  }

  /** The bytes by their characters. */
  lemma CharacterCodes()
    ensures [QUOTE] == Ascii("\"") && [BACKSLASH] == Ascii("\\") && [COMMA] == Ascii(",") && [COLON] == Ascii(":")
    ensures [SPACE] == Ascii(" ") && [TAB] == Ascii("\t") && [LF] == Ascii("\n") && [CR] == Ascii("\r")
    ensures [LBRACKET] == Ascii("[") && [RBRACKET] == Ascii("]") && [LBRACE] == Ascii("{") && [RBRACE] == Ascii("}")
  {
  }

  /** What `*(text + i)` reads. */
  function Peek(t: seq<byte>, i: nat): byte {
    if i < |t| then t[i] else NUL
  }

  /** The bytes `s` stand in `t` at position `i`. */
  predicate MatchesAt(t: seq<byte>, i: nat, s: seq<byte>) {
    i + |s| <= |t| && t[i..i + |s|] == s
  }

  lemma MatchesSplit(t: seq<byte>, i: nat, a: seq<byte>, b: seq<byte>)
    ensures MatchesAt(t, i, a + b) <==> MatchesAt(t, i, a) && MatchesAt(t, i + |a|, b)
  {
    if MatchesAt(t, i, a + b) {
      assert t[i..i + |a|] == t[i..i + |a + b|][..|a|];
      assert t[i + |a|..i + |a| + |b|] == t[i..i + |a + b|][|a|..];
    }
    if MatchesAt(t, i, a) && MatchesAt(t, i + |a|, b) {
      assert t[i..i + |a + b|] == t[i..i + |a|] + t[i + |a|..i + |a| + |b|];
    }
  }

  lemma MatchesPeek(t: seq<byte>, i: nat, s: seq<byte>, k: nat)
    requires MatchesAt(t, i, s) && k < |s|
    ensures i + k < |t| && t[i + k] == s[k]
  {
    assert t[i..i + |s|][k] == s[k];
  }

  predicate NulFree(s: seq<byte>) {
    forall k :: 0 <= k < |s| ==> s[k] != NUL
  }

  /** `skip`: the first position from `i` on that is no white space; the terminator is none. */
  function Skip(t: seq<byte>, i: nat): (j: nat)
    ensures i <= j
    ensures i <= |t| ==> j <= |t|
    decreases |t| - i
  {
    if i < |t| && t[i] != NUL && t[i] <= 32 then Skip(t, i + 1) else i
  }

  /** `skip` as the loop it is. */
  method SkipSpace(t: seq<byte>, i: nat) returns (j: nat)
    ensures j == Skip(t, i)
    ensures forall k :: i <= k < j ==> Peek(t, k) != NUL && Peek(t, k) <= 32
    ensures !(Peek(t, j) != NUL && Peek(t, j) <= 32)
  {
    j := i;
    while Peek(t, j) != NUL && Peek(t, j) <= 32
      invariant i <= j && (j <= |t| || j == i)
      invariant Skip(t, i) == Skip(t, j)
      invariant forall k :: i <= k < j ==> Peek(t, k) != NUL && Peek(t, k) <= 32
      decreases |t| - j
    {
      j := j + 1;
    }
  }
}
