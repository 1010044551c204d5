/** String literals: `parse_string` and `print_string_ptr` (cJSON.c:214-389). */
module JsonString {
  import opened Bytes
  import opened ByteBlocks
  import opened JsonUtf

  const LOWER_B: byte := 0x62
  const LOWER_F: byte := 0x66
  const LOWER_N: byte := 0x6E
  const LOWER_R: byte := 0x72
  const LOWER_T: byte := 0x74
  const LOWER_U: byte := 0x75
  const BACKSPACE: byte := 0x08
  const FORMFEED: byte := 0x0C

  // ----- hexadecimal digits -----

  predicate IsHex(b: byte) {
    0x30 <= b <= 0x39 || 0x41 <= b <= 0x46 || 0x61 <= b <= 0x66
  }

  function HexValue(b: byte): (v: bv32)
    requires IsHex(b)
    ensures v < 16
  {
    if b <= 0x39 then [0, 1, 2, 3, 4, 5, 6, 7, 8, 9][b - 0x30]
    else if b <= 0x46 then [10, 11, 12, 13, 14, 15][b - 0x41]
    else [10, 11, 12, 13, 14, 15][b - 0x61]
  }

  /** Four hexadecimal digits stand at `i`. */
  predicate HexAt(t: seq<byte>, i: nat) {
    i + 4 <= |t| && IsHex(t[i]) && IsHex(t[i + 1]) && IsHex(t[i + 2]) && IsHex(t[i + 3])
  }

  function Shift4(v: bv32, d: bv32): (w: bv32)
    requires v < 0x1000 && d < 16
    ensures w < 0x10000 && (v < 16 ==> w < 0x100) && (v < 0x100 ==> w < 0x1000)
  {
    (v << 4) | d
  }

  /** What `sscanf` with `%4x` reads there. */
  function Hex4(t: seq<byte>, i: nat): (v: bv32)
    requires HexAt(t, i)
    ensures v < 0x10000
  {
    Shift4(Shift4(Shift4(HexValue(t[i]), HexValue(t[i + 1])), HexValue(t[i + 2])), HexValue(t[i + 3]))
  }

  // ----- reading -----

  /** The end of a literal: its closing quote, or the end of the text. */
  predicate StopsAt(t: seq<byte>, i: nat) {
    Peek(t, i) == QUOTE || Peek(t, i) == NUL
  }

  /** Where the counting pass stops. */
  function ScanEnd(t: seq<byte>, i: nat): nat
    decreases |t| - i
  {
    if StopsAt(t, i) then i
    else if t[i] == BACKSLASH then ScanEnd(t, i + 2)
    else ScanEnd(t, i + 1)
  }

  /** What the counting pass counts: an escaped byte counts as one with its backslash. */
  function ScanCount(t: seq<byte>, i: nat): nat
    decreases |t| - i
  {
    if StopsAt(t, i) then 0
    else if t[i] == BACKSLASH then 1 + ScanCount(t, i + 2)
    else 1 + ScanCount(t, i + 1)
  }

  /** One escape decoded, or an escape that the text or the literal cuts off. */
  datatype Piece = Piece(bytes: seq<byte>, next: nat) | CutShort

  /** The escape whose backslash stands at `i`. */
  function EscapeAt(t: seq<byte>, i: nat): (p: Piece)
    requires i < |t|
    ensures p.Piece? ==> i + 2 <= p.next <= |t| && NulFree(p.bytes)
  {
    var c := Peek(t, i + 1);
    if c == NUL then CutShort
    else if c == LOWER_B then Piece([BACKSPACE], i + 2)
    else if c == LOWER_F then Piece([FORMFEED], i + 2)
    else if c == LOWER_N then Piece([LF], i + 2)
    else if c == LOWER_R then Piece([CR], i + 2)
    else if c == LOWER_T then Piece([TAB], i + 2)
    else if c == LOWER_U then UnicodeAt(t, i + 2)
    else Piece([c], i + 2)
  }

  /** The unit or the pair of units whose first hexadecimal digit stands at `i`. */
  function UnicodeAt(t: seq<byte>, i: nat): (p: Piece)
    ensures p.Piece? ==> i + 4 <= p.next <= |t| && NulFree(p.bytes)
  {
    if !HexAt(t, i) then CutShort
    else
      var uc := Hex4(t, i);
      if IsLowSurrogate(uc) || uc == 0 then Piece([], i + 4)
      else if IsHighSurrogate(uc) then
        if Peek(t, i + 4) != BACKSLASH || Peek(t, i + 5) != LOWER_U then Piece([], i + 4)
        else if !HexAt(t, i + 6) then CutShort
        else if !IsLowSurrogate(Hex4(t, i + 6)) then Piece([], i + 10)
        else
          CombineRange(uc, Hex4(t, i + 6));
          Utf8NulFree(Combine(uc, Hex4(t, i + 6)));
          Piece(AsBytes(Utf8(Combine(uc, Hex4(t, i + 6)))), i + 10)
      else
        Utf8NulFree(uc);
        Piece(AsBytes(Utf8(uc)), i + 4)
  }

  lemma CombineRange(hi: bv32, lo: bv32)
    ensures 0 < Combine(hi, lo) < 0x200000
  {
  }

  /** The rest of a literal decoded and where it stops, or an escape in it that is cut off. */
  datatype Literal = Literal(bytes: seq<byte>, end: nat) | Broken

  function Unescape(t: seq<byte>, i: nat): (l: Literal)
    ensures l.Literal? ==> NulFree(l.bytes) && i <= l.end && (i <= |t| ==> l.end <= |t|) && StopsAt(t, l.end)
    decreases |t| - i
  {
    if StopsAt(t, i) then Literal([], i)
    else if t[i] != BACKSLASH then Prepend([t[i]], Unescape(t, i + 1))
    else
      var p := EscapeAt(t, i);
      if p.CutShort? then Broken else Prepend(p.bytes, Unescape(t, p.next))
  }

  function Prepend(s: seq<byte>, l: Literal): Literal {
    if l.Broken? then Broken else Literal(s + l.bytes, l.end)
  }

  lemma ScanHex(t: seq<byte>, i: nat)
    requires HexAt(t, i)
    ensures ScanEnd(t, i) == ScanEnd(t, i + 4) && ScanCount(t, i) == 4 + ScanCount(t, i + 4)
  {
    assert ScanEnd(t, i + 1) == ScanEnd(t, i + 2) == ScanEnd(t, i + 3);
    assert ScanCount(t, i + 1) == 1 + ScanCount(t, i + 2);
    assert ScanCount(t, i + 2) == 1 + ScanCount(t, i + 3);
  }

  lemma ScanEscape(t: seq<byte>, i: nat)
    requires i < |t| && t[i] == BACKSLASH && EscapeAt(t, i).Piece?
    ensures ScanEnd(t, i) == ScanEnd(t, EscapeAt(t, i).next)
    ensures ScanCount(t, i) >= |EscapeAt(t, i).bytes| + ScanCount(t, EscapeAt(t, i).next)
  {
    if Peek(t, i + 1) == LOWER_U {
      ScanHex(t, i + 2);
      if EscapeAt(t, i).next == i + 12 {
        assert ScanEnd(t, i + 6) == ScanEnd(t, i + 8) && ScanCount(t, i + 6) == 1 + ScanCount(t, i + 8);
        ScanHex(t, i + 8);
      }
    }
  }

  /** When no escape is cut off, both passes stop at the same byte and the buffer is long enough. */
  lemma {:induction false} PassesAgree(t: seq<byte>, i: nat)
    requires Unescape(t, i).Literal?
    ensures ScanEnd(t, i) == Unescape(t, i).end
    ensures |Unescape(t, i).bytes| <= ScanCount(t, i)
    decreases |t| - i
  {
    if StopsAt(t, i) {
    } else if t[i] != BACKSLASH {
      PassesAgree(t, i + 1);
    } else {
      ScanEscape(t, i);
      PassesAgree(t, EscapeAt(t, i).next);
    }
  }

  /** `parse_string`: the decoded bytes and the position after the literal; no string; or cut off. */
  datatype StringResult = Parsed(bytes: seq<byte>, pos: nat) | NotAString | Incomplete

  function StringAt(t: seq<byte>, i: nat): (r: StringResult)
    ensures r.Parsed? ==> i < r.pos <= |t| && NulFree(r.bytes)
  {
    if Peek(t, i) != QUOTE then NotAString
    else
      var l := Unescape(t, i + 1);
      if l.Broken? then Incomplete
      else Parsed(l.bytes, if Peek(t, l.end) == QUOTE then l.end + 1 else l.end)
  }

  /** The counting pass. */
  method CountString(t: seq<byte>, i: nat) returns (len: nat, end: nat)
    ensures len == ScanCount(t, i) && end == ScanEnd(t, i)
  {
    len, end := 0, i;
    while !StopsAt(t, end)
      invariant ScanCount(t, i) == len + ScanCount(t, end)
      invariant ScanEnd(t, i) == ScanEnd(t, end)
      decreases |t| - end
    {
      len := len + 1;
      if t[end] == BACKSLASH {
        end := end + 2;
      } else {
        end := end + 1;
      }
    }
  }

  /** The decoding pass at a backslash: the inner switch of `parse_string`. */
  method DecodeEscape(t: seq<byte>, at: nat, out: array<byte>, start: nat) returns (ptr: nat, ptr2: nat)
    requires at < |t| && EscapeAt(t, at).Piece?
    requires start + |EscapeAt(t, at).bytes| <= out.Length
    modifies out
    ensures ptr == EscapeAt(t, at).next && ptr2 == start + |EscapeAt(t, at).bytes|
    ensures out[..ptr2] == old(out[..start]) + EscapeAt(t, at).bytes
  {
    hide Utf8, Combine, Hex4, HexAt, NulFree, Unescape;
    ptr, ptr2 := at + 1, start;
    if t[ptr] == LOWER_U {
      var uc := Hex4(t, ptr + 1);
      ptr := ptr + 4;
      if IsLowSurrogate(uc) || uc == 0 {
        return ptr + 1, ptr2;
      }
      if IsHighSurrogate(uc) {
        if Peek(t, ptr + 1) != BACKSLASH || Peek(t, ptr + 2) != LOWER_U {
          return ptr + 1, ptr2;
        }
        var uc2 := Hex4(t, ptr + 3);
        ptr := ptr + 6;
        if !IsLowSurrogate(uc2) {
          return ptr + 1, ptr2;
        }
        CombineRange(uc, uc2);
        uc := Combine(uc, uc2);
      }
      ptr2 := EmitUtf8(out, start, uc);
    } else {
      out[ptr2] := if t[ptr] == LOWER_B then BACKSPACE
                   else if t[ptr] == LOWER_F then FORMFEED
                   else if t[ptr] == LOWER_N then LF
                   else if t[ptr] == LOWER_R then CR
                   else if t[ptr] == LOWER_T then TAB
                   else t[ptr];
      ptr2 := ptr2 + 1;
    }
    ptr := ptr + 1;
  }

  /** `parse_string`: count, allocate `len + 1` bytes, then decode into them.
      With a cut-off escape in it a literal has no defined result. */
  method ParseString(t: seq<byte>, i: nat) returns (r: StringResult)
    ensures r == StringAt(t, i)
  {
    hide EscapeAt, NulFree, ScanCount, ScanEnd;
    if Peek(t, i) != QUOTE {
      return NotAString;
    }
    var literal := Unescape(t, i + 1);
    if literal.Broken? {
      return Incomplete;
    }
    var len, stop := CountString(t, i + 1);
    PassesAgree(t, i + 1);
    var out := new byte[len + 1];
    var ptr: nat, ptr2: nat := i + 1, 0;
    while !StopsAt(t, ptr)
      invariant ptr <= |t| && ptr2 <= len
      invariant literal == Prepend(out[..ptr2], Unescape(t, ptr))
      decreases |t| - ptr
    {
      if t[ptr] != BACKSLASH {
        PrependTwice(out[..ptr2], [t[ptr]], Unescape(t, ptr + 1));
        ghost var done := out[..ptr2];
        out[ptr2] := t[ptr];
        ptr2, ptr := ptr2 + 1, ptr + 1;
        assert out[..ptr2] == done + [t[ptr - 1]];
      } else {
        PrependTwice(out[..ptr2], EscapeAt(t, ptr).bytes, Unescape(t, EscapeAt(t, ptr).next));
        ptr, ptr2 := DecodeEscape(t, ptr, out, ptr2);
      }
    }
    assert ptr == stop;
    out[ptr2] := NUL;
    r := Parsed(out[..ptr2], if Peek(t, ptr) == QUOTE then ptr + 1 else ptr);
  }

  lemma PrependTwice(a: seq<byte>, b: seq<byte>, l: Literal)
    ensures Prepend(a, Prepend(b, l)) == Prepend(a + b, l)
  {
    if l.Literal? {
      assert a + (b + l.bytes) == a + b + l.bytes;
    }
  }

  // ----- writing -----

  /** The bytes that `print_string_ptr` puts behind a backslash by their own letter. */
  predicate IsShort(b: byte) {
    b == QUOTE || b == BACKSLASH || b == BACKSPACE || b == FORMFEED || b == LF || b == CR || b == TAB
  }

  function ShortLetter(b: byte): byte
    requires IsShort(b)
  {
    if b == BACKSPACE then LOWER_B else if b == FORMFEED then LOWER_F else if b == LF then LOWER_N
    else if b == CR then LOWER_R else if b == TAB then LOWER_T else b
  }

  /** A hexadecimal digit in lower case. */
  function HexDigit(d: byte): (h: byte)
    requires d < 16
    ensures IsHex(h) && HexValue(h) as int == d
  {
    if d < 10 then 0x30 + d else 0x57 + d
  }

  function EscapeByte(b: byte): (s: seq<byte>) {
    if IsShort(b) then [BACKSLASH, ShortLetter(b)]
    else if b < 32 then [BACKSLASH, LOWER_U, 0x30, 0x30, HexDigit(b / 16), HexDigit(b % 16)]
    else [b]
  }

  function Escape(s: seq<byte>): (e: seq<byte>) {
    if s == [] then [] else EscapeByte(s[0]) + Escape(s[1..])
  }

  function Quoted(s: seq<byte>): seq<byte> {
    [QUOTE] + Escape(s) + [QUOTE]
  }

  lemma EscapeSnoc(s: seq<byte>, b: byte)
    ensures Escape(s + [b]) == Escape(s) + EscapeByte(b)
  {
    if s == [] {
      assert s + [b] == [b];
      assert Escape([b]) == EscapeByte(b) + Escape([]);
    } else {
      assert (s + [b])[1..] == s[1..] + [b];
      EscapeSnoc(s[1..], b);
    }
  }

  /** The counting loop of `print_string_ptr`. */
  method CountEscaped(s: seq<byte>) returns (len: nat)
    ensures len == |Escape(s)|
  {
    len := 0;
    var ptr := 0;
    while ptr < |s|
      invariant ptr <= |s| && len == |Escape(s[..ptr])|
    {
      EscapeSnoc(s[..ptr], s[ptr]);
      assert s[..ptr + 1] == s[..ptr] + [s[ptr]];
      len := len + 1;
      if IsShort(s[ptr]) {
        len := len + 1;
      } else if s[ptr] < 32 {
        len := len + 5;
      }
      ptr := ptr + 1;
    }
    assert s[..ptr] == s;
  }

  /** `print_string_ptr`: the `len + 3` bytes allocated are filled exactly. */
  method PrintString(b: Blocks, s: seq<byte>) returns (out: array<byte>)
    requires NulFree(s)
    modifies b
    ensures fresh(out) && out !in old(b.live) && b.live == old(b.live) + {out}
    ensures out[..] == Quoted(s) + [NUL]
  {
    hide EscapeByte;
    var len := CountEscaped(s);
    out := b.New(len + 3);
    out[0] := QUOTE;
    assert Escape(s[..0]) == [];
    var ptr: nat, ptr2: nat := 0, 1;
    while ptr < |s|
      invariant b.live == old(b.live) + {out}
      invariant ptr <= |s| && ptr2 == 1 + |Escape(s[..ptr])| <= 1 + len
      invariant out[..ptr2] == [QUOTE] + Escape(s[..ptr])
    {
      EscapePrefix(s, ptr);
      ghost var done := out[..ptr2];
      ptr2 := WriteEscaped(s[ptr], out, ptr2);
      assert out[..ptr2] == done + EscapeByte(s[ptr]);
      assert [QUOTE] + Escape(s[..ptr]) + EscapeByte(s[ptr]) == [QUOTE] + Escape(s[..ptr + 1]);
      ptr := ptr + 1;
    }
    assert s[..ptr] == s;
    out[ptr2] := QUOTE;
    out[ptr2 + 1] := NUL;
    assert ptr2 + 2 == out.Length;
  }

  lemma EscapePrefix(s: seq<byte>, k: nat)
    requires k < |s|
    ensures Escape(s[..k + 1]) == Escape(s[..k]) + EscapeByte(s[k])
    ensures |Escape(s[..k + 1])| <= |Escape(s)|
  {
    assert s[..k + 1] == s[..k] + [s[k]];
    EscapeSnoc(s[..k], s[k]);
    EscapeConcat(s[..k + 1], s[k + 1..]);
    assert s == s[..k + 1] + s[k + 1..];
  }

  lemma EscapeConcat(a: seq<byte>, b: seq<byte>)
    ensures Escape(a + b) == Escape(a) + Escape(b)
  {
    if a == [] {
      assert a + b == b;
    } else {
      assert (a + b)[1..] == a[1..] + b;
      EscapeConcat(a[1..], b);
    }
  }

  /** One byte of the string; `sprintf` also leaves a terminator that is overwritten later. */
  method WriteEscaped(b: byte, out: array<byte>, start: nat) returns (ptr2: nat)
    requires b != NUL
    requires start + |EscapeByte(b)| < out.Length
    modifies out
    ensures ptr2 == start + |EscapeByte(b)|
    ensures out[..ptr2] == old(out[..start]) + EscapeByte(b)
  {
    hide HexValue, IsHex;
    ptr2 := start;
    if b > 31 && b != QUOTE && b != BACKSLASH {
      out[ptr2] := b;
      return ptr2 + 1;
    }
    out[ptr2] := BACKSLASH;
    ptr2 := ptr2 + 1;
    if IsShort(b) {
      out[ptr2] := ShortLetter(b);
      ptr2 := ptr2 + 1;
    } else {
      ptr2 := SprintfUnicode(b, out, ptr2);
    }
  }

  /** `sprintf` of `u%04x`, with the terminator. */
  method SprintfUnicode(b: byte, out: array<byte>, start: nat) returns (ptr2: nat)
    requires b < 32 && start + 5 < out.Length
    modifies out
    ensures ptr2 == start + 5
    ensures out[..ptr2] == old(out[..start]) + [LOWER_U, 0x30, 0x30, HexDigit(b / 16), HexDigit(b % 16)]
  {
    hide HexDigit;
    var hi, lo := HexDigit(b / 16), HexDigit(b % 16);
    out[start], out[start + 1], out[start + 2] := LOWER_U, 0x30, 0x30;
    out[start + 3], out[start + 4], out[start + 5] := hi, lo, NUL;
    ptr2 := start + 5;
  }

  // ----- round trip -----

  /** One escaped byte is read back as that byte. */
  lemma EscapeByteReadsBack(t: seq<byte>, i: nat, b: byte)
    requires b != NUL && MatchesAt(t, i, EscapeByte(b))
    ensures i < |t| && !StopsAt(t, i)
    ensures Unescape(t, i) == Prepend([b], Unescape(t, i + |EscapeByte(b)|))
  {
    hide UnicodeAt, NulFree;
    var e := EscapeByte(b);
    assert forall k: nat :: k < |e| ==> t[i + k] == e[k] by {
      forall k: nat | k < |e| { MatchesPeek(t, i, e, k); }
    }
    if IsShort(b) {
      assert t[i] == BACKSLASH && t[i + 1] == ShortLetter(b);
    } else if b < 32 {
      assert t[i] == e[0] && t[i + 1] == e[1] && t[i + 2] == e[2] && t[i + 3] == e[3] && t[i + 4] == e[4] && t[i + 5] == e[5];
      ControlReadsBack(t, i + 2, b);
    }
  }

  lemma ControlReadsBack(t: seq<byte>, i: nat, b: byte)
    requires 0 < b < 32 && i + 4 <= |t|
    requires t[i] == 0x30 && t[i + 1] == 0x30 && t[i + 2] == HexDigit(b / 16) && t[i + 3] == HexDigit(b % 16)
    ensures UnicodeAt(t, i) == Piece([b], i + 4)
  {
    assert HexValue(t[i]) == 0 && HexValue(t[i + 1]) == 0;
    ControlValue(HexValue(t[i + 2]), HexValue(t[i + 3]));
  }

  /** Two digits below 0x80 are the byte they spell. */
  lemma ControlValue(hi: bv32, lo: bv32)
    requires hi < 8 && lo < 16
    ensures Shift4(Shift4(Shift4(0, 0), hi), lo) < 0x80
    ensures Shift4(Shift4(Shift4(0, 0), hi), lo) as int == (hi as int) * 16 + lo as int
  {
    assert Shift4(Shift4(Shift4(0, 0), hi), lo) == hi * 16 + lo;
  }

  lemma {:induction false} UnescapeEscape(t: seq<byte>, i: nat, s: seq<byte>)
    requires NulFree(s) && MatchesAt(t, i, Escape(s)) && Peek(t, i + |Escape(s)|) == QUOTE
    ensures Unescape(t, i) == Literal(s, i + |Escape(s)|)
    decreases |s|
  {
    hide MatchesAt, EscapeByte, EscapeAt;
    if s == [] {
      assert StopsAt(t, i);
    } else {
      var first, rest := EscapeByte(s[0]), s[1..];
      MatchesSplit(t, i, first, Escape(rest));
      EscapeByteReadsBack(t, i, s[0]);
      UnescapeEscape(t, i + |first|, rest);
      PrependStep(s, Unescape(t, i + |first|));
    }
  }

  lemma PrependStep(s: seq<byte>, l: Literal)
    requires s != [] && l.Literal? && l.bytes == s[1..]
    ensures Prepend([s[0]], l) == Literal(s, l.end)
  {
  }

  /** Reading what `print_string_ptr` wrote gives the string back and stops behind the closing quote. */
  lemma StringRoundTrip(t: seq<byte>, i: nat, s: seq<byte>)
    requires NulFree(s) && MatchesAt(t, i, Quoted(s))
    ensures StringAt(t, i) == Parsed(s, i + |Quoted(s)|)
  {
    hide MatchesAt, Unescape, Escape, NulFree;
    MatchesSplit(t, i, [QUOTE] + Escape(s), [QUOTE]);
    MatchesSplit(t, i, [QUOTE], Escape(s));
    MatchesPeek(t, i, [QUOTE], 0);
    MatchesPeek(t, i + 1 + |Escape(s)|, [QUOTE], 0);
    UnescapeEscape(t, i + 1, s);
  }
}
