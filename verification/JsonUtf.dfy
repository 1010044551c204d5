/** Transcoding of `\u` escapes from UTF-16 to UTF-8 (cJSON.c:264-306). */
module JsonUtf {
  import opened Bytes

  /** A byte while its bits matter. */
  type octet = bv8

  /** The same bytes as numbers. */
  function AsBytes(s: seq<octet>): (r: seq<byte>)
    ensures |r| == |s| && forall k :: 0 <= k < |s| ==> r[k] == s[k] as int
  {
    seq(|s|, k requires 0 <= k < |s| => s[k] as int)
  }

  predicate IsHighSurrogate(u: bv32) { 0xD800 <= u <= 0xDBFF }
  predicate IsLowSurrogate(u: bv32) { 0xDC00 <= u <= 0xDFFF }

  /** How the parser joins a surrogate pair: it ors where RFC 2781 adds. */
  function Combine(hi: bv32, lo: bv32): bv32 {
    0x10000 | ((hi & 0x3FF) << 10) | (lo & 0x3FF)
  }

  /** Section 2.2 of RFC 2781: ten bits of each half, plus 0x10000. */
  function Rfc2781(hi: bv32, lo: bv32): bv32
    requires IsHighSurrogate(hi) && IsLowSurrogate(lo)
  {
    (hi - 0xD800) * 0x400 + (lo - 0xDC00) + 0x10000
  }

  /** Bit 0x40 of the high half lands on the bit that is or-ed in. */
  lemma CombineClear(hi: bv32, lo: bv32)
    requires IsHighSurrogate(hi) && IsLowSurrogate(lo) && hi & 0x40 == 0
    ensures Combine(hi, lo) == Rfc2781(hi, lo)
  {
  }

  lemma CombineSet(hi: bv32, lo: bv32)
    requires IsHighSurrogate(hi) && IsLowSurrogate(lo) && hi & 0x40 != 0
    ensures Combine(hi, lo) == Rfc2781(hi, lo) - 0x10000
  {
  }

  lemma CombineIsRfc2781(hi: bv32, lo: bv32)
    requires IsHighSurrogate(hi) && IsLowSurrogate(lo)
    ensures Combine(hi, lo) == Rfc2781(hi, lo) <==> hi & 0x40 == 0
  {
    var combined, meant := Combine(hi, lo), Rfc2781(hi, lo);
    if hi & 0x40 == 0 {
      CombineClear(hi, lo);
    } else {
      CombineSet(hi, lo);
      Apart(combined, meant);
    }
  }

  lemma Apart(x: bv32, y: bv32)
    requires x == y - 0x10000
    ensures x != y
  {
  }

  /** The grinning face U+1F600 is D83D DE00 and comes out right; U+20000 is D840 DC00 and comes out as U+10000. */
  lemma CombineGoesWrong()
    ensures Combine(0xD83D, 0xDE00) == 0x1F600
    ensures Rfc2781(0xD840, 0xDC00) == 0x20000 && Combine(0xD840, 0xDC00) == 0x10000
  {
  }

  function Utf8Length(code: bv32): (n: nat) {
    if code < 0x80 then 1 else if code < 0x800 then 2 else if code < 0x10000 then 3 else 4
  }

  /** 10xxxxxx: the low six bits of `x`. */
  function Six(x: bv32): (b: octet)
    ensures b & 0xC0 == 0x80 && (b & 0x3F) as bv32 == x & 0x3F
  {
    (0x80 | (x & 0x3F)) as octet
  }

  /** 110xxxxx, 1110xxxx and 11110xxx: the first bytes of two, three and four. */
  function Two(x: bv32): (b: octet)
    requires x < 0x20
    ensures b & 0xE0 == 0xC0 && b & 0x80 != 0 && (b & 0x1F) as bv32 == x
  {
    (0xC0 | x) as octet
  }

  function Three(x: bv32): (b: octet)
    requires x < 0x10
    ensures b & 0xF0 == 0xE0 && b & 0xE0 != 0xC0 && b & 0x80 != 0 && (b & 0x0F) as bv32 == x
  {
    (0xE0 | x) as octet
  }

  function Four(x: bv32): (b: octet)
    requires x < 0x08
    ensures b & 0xF8 == 0xF0 && b & 0xF0 != 0xE0 && b & 0xE0 != 0xC0 && b & 0x80 != 0 && (b & 0x07) as bv32 == x
  {
    (0xF0 | x) as octet
  }

  /** The table of section 3 of RFC 3629: the bits of `code`, six to a continuation byte. */
  function Utf8(code: bv32): (s: seq<octet>)
    requires code < 0x200000
    ensures |s| == Utf8Length(code)
  {
    if code < 0x80 then [code as octet]
    else if code < 0x800 then [Two(code >> 6), Six(code)]
    else if code < 0x10000 then [Three(code >> 12), Six(code >> 6), Six(code)]
    else [Four(code >> 18), Six(code >> 12), Six(code >> 6), Six(code)]
  }

  /** A decoder in the other direction: it reads the length off the first byte. */
  function DecodeUtf8(s: seq<octet>): (code: bv32) {
    if |s| >= 1 && s[0] & 0x80 == 0 then s[0] as bv32
    else if |s| >= 2 && s[0] & 0xE0 == 0xC0 then
      Join((s[0] & 0x1F) as bv32, s[1])
    else if |s| >= 3 && s[0] & 0xF0 == 0xE0 then
      Join(Join((s[0] & 0x0F) as bv32, s[1]), s[2])
    else if |s| >= 4 && s[0] & 0xF8 == 0xF0 then
      Join(Join(Join((s[0] & 0x07) as bv32, s[1]), s[2]), s[3])
    else 0xFFFF_FFFF
  }

  /** Six more bits, taken from a continuation byte. */
  function Join(high: bv32, b: octet): bv32 {
    (high << 6) | (b & 0x3F) as bv32
  }

  lemma JoinSix(x: bv32)
    ensures Join(x >> 6, Six(x)) == x
  {
    assert ((x >> 6) << 6) | (x & 0x3F) == x;
  }

  lemma ShiftTwice(x: bv32)
    ensures (x >> 6) >> 6 == x >> 12 && (x >> 12) >> 6 == x >> 18
  {
  }

  lemma DecodeUtf8Utf8(code: bv32, rest: seq<octet>)
    requires code < 0x200000
    ensures DecodeUtf8(Utf8(code) + rest) == code
  {
    var s := Utf8(code) + rest;
    assert forall k :: 0 <= k < |Utf8(code)| ==> s[k] == Utf8(code)[k];
    if code < 0x80 {
      DecodeAscii(code);
    } else if code < 0x800 {
      JoinSix(code);
    } else if code < 0x10000 {
      DecodeThree(code, s);
    } else {
      DecodeFour(code, s);
    }
  }

  lemma DecodeAscii(code: bv32)
    requires code < 0x80
    ensures code as octet & 0x80 == 0 && (code as octet) as bv32 == code
  {
  }

  lemma DecodeThree(code: bv32, s: seq<octet>)
    requires code < 0x10000 && |s| >= 3
    requires s[0] == Three(code >> 12) && s[1] == Six(code >> 6) && s[2] == Six(code)
    ensures DecodeUtf8(s) == code
  {
    ShiftTwice(code);
    JoinSix(code >> 6);
    JoinSix(code);
  }

  lemma DecodeFour(code: bv32, s: seq<octet>)
    requires code < 0x200000 && |s| >= 4
    requires s[0] == Four(code >> 18) && s[1] == Six(code >> 12) && s[2] == Six(code >> 6) && s[3] == Six(code)
    ensures DecodeUtf8(s) == code
  {
    ShiftTwice(code);
    JoinSix(code >> 12);
    JoinSix(code >> 6);
    JoinSix(code);
  }

  lemma Utf8NulFree(code: bv32)
    requires 0 < code < 0x200000
    ensures NulFree(AsBytes(Utf8(code)))
  {
    assert forall k :: 0 <= k < |Utf8(code)| ==> Utf8(code)[k] != 0;
    forall k | 0 <= k < |Utf8(code)|
      ensures Utf8(code)[k] as int != 0
    {
      NotZero(Utf8(code)[k]);
    }
  }

  lemma NotZero(b: octet)
    requires b != 0
    ensures b as int != 0
  {
  }

  /** The entries of `firstByteMark` that a length of one to four selects. */
  function FirstByteMark(len: nat): bv32
    requires 1 <= len <= 4
  {
    if len == 1 then 0x00 else if len == 2 then 0xC0 else if len == 3 then 0xE0 else 0xF0
  }

  /** One continuation byte as the parser cuts it off the low end of `uc`. */
  function Continuation(uc: bv32): octet {
    ((uc | 0x80) & 0xBF) as octet
  }

  lemma ContinuationIsSix(uc: bv32)
    ensures Continuation(uc) == Six(uc)
  {
    assert (uc | 0x80) & 0xBF == 0x80 | (uc & 0x3F);
  }

  /** The first byte, once the continuation bytes are shifted out. */
  function Lead(uc: bv32, len: nat): octet
    requires 1 <= len <= 4
  {
    ((uc | FirstByteMark(len)) & 0xFF) as octet
  }

  /** What the fall-through switch over `len` writes when control is at case `k`. */
  function Emitted(uc: bv32, k: nat, len: nat): (s: seq<octet>)
    requires 1 <= k <= len <= 4
    ensures |s| == k
  {
    if k == 1 then [Lead(uc, len)] else Emitted(uc >> 6, k - 1, len) + [Continuation(uc)]
  }

  lemma LeadIsFirst(x: bv32)
    ensures x < 0x80 ==> Lead(x, 1) == x as octet
    ensures x < 0x20 ==> Lead(x, 2) == Two(x)
    ensures x < 0x10 ==> Lead(x, 3) == Three(x)
    ensures x < 0x08 ==> Lead(x, 4) == Four(x)
  {
  }

  /** Cutting bytes off the low end produces the table of section 3 of RFC 3629. */
  lemma EmittedIsUtf8(code: bv32)
    requires code < 0x200000
    ensures Emitted(code, Utf8Length(code), Utf8Length(code)) == Utf8(code)
  {
    ShiftTwice(code);
    ContinuationIsSix(code);
    ContinuationIsSix(code >> 6);
    ContinuationIsSix(code >> 12);
    if code < 0x80 {
      LeadIsFirst(code);
    } else if code < 0x800 {
      LeadIsFirst(code >> 6);
    } else if code < 0x10000 {
      LeadIsFirst(code >> 12);
      assert Emitted(code >> 6, 2, 3) == [Three(code >> 12), Six(code >> 6)];
    } else {
      LeadIsFirst(code >> 18);
      assert Emitted(code >> 12, 2, 4) == [Four(code >> 18), Six(code >> 12)];
      assert Emitted(code >> 6, 3, 4) == [Four(code >> 18), Six(code >> 12), Six(code >> 6)];
    }
  }

  lemma AsBytesSnoc(s: seq<octet>, b: octet)
    ensures AsBytes(s + [b]) == AsBytes(s) + [b as int]
  {
  }

  /** Case `k` of the switch writes one byte backwards and falls through to case `k - 1`. */
  method FallThrough(out: array<byte>, end: nat, uc: bv32, k: nat, len: nat)
    requires 1 <= k <= len <= 4 && k <= end <= out.Length
    modifies out
    ensures out[..] == old(out[..end - k]) + AsBytes(Emitted(uc, k, len)) + old(out[end..])
  {
    hide Lead, Continuation;
    if k == 1 {
      out[end - 1] := Lead(uc, len) as int;
    } else {
      out[end - 1] := Continuation(uc) as int;
      ghost var was := out[..];
      FallThrough(out, end - 1, uc >> 6, k - 1, len);
      AsBytesSnoc(Emitted(uc >> 6, k - 1, len), Continuation(uc));
      assert was[end - 1..] == [Continuation(uc) as int] + was[end..];
    }
  }

  /** Choose the length, step past the bytes, and write them backwards. */
  method EmitUtf8(out: array<byte>, start: nat, code: bv32) returns (after: nat)
    requires code < 0x200000
    requires start + Utf8Length(code) <= out.Length
    modifies out
    ensures after == start + Utf8Length(code)
    ensures out[..] == old(out[..start]) + AsBytes(Utf8(code)) + old(out[after..])
  {
    var len := 4;
    if code < 0x80 {
      len := 1;
    } else if code < 0x800 {
      len := 2;
    } else if code < 0x10000 {
      len := 3;
    }
    after := start + len;
    EmittedIsUtf8(code);
    FallThrough(out, after, code, len, len);
  }
}
