/** What the escapes of a string literal spell, said without the parser's tables (cJSON.c:240-313). */
module JsonEscapes {
  import opened Bytes
  import opened JsonUtf
  import opened JsonString

  /** A hexadecimal digit as it is written, in either case. */
  function HexByte(d: bv32, upper: bool): byte
    requires d < 16
  {
    if d < 10 then 0x30 + d as int else if upper then 0x41 + (d as int - 10) else 0x61 + (d as int - 10)
  }

  /** `\u` and the four digits of a unit, the highest first. */
  function UnitText(u: bv32, upper: seq<bool>): (s: seq<byte>)
    requires u < 0x10000 && |upper| == 4
    ensures |s| == 6
  {
    Ascii("\\u") + [HexByte((u >> 12) & 0xF, upper[0]), HexByte((u >> 8) & 0xF, upper[1]),
                     HexByte((u >> 4) & 0xF, upper[2]), HexByte(u & 0xF, upper[3])]
  }

  lemma HexByteValue(d: bv32, upper: bool)
    requires d < 16
    ensures IsHex(HexByte(d, upper)) && HexValue(HexByte(d, upper)) == d
  {
    assert d == 0 || d == 1 || d == 2 || d == 3 || d == 4 || d == 5 || d == 6 || d == 7 || d == 8
           || d == 9 || d == 10 || d == 11 || d == 12 || d == 13 || d == 14 || d == 15;
  }

  lemma ShiftedTogether(u: bv32)
    requires u < 0x10000
    ensures Shift4(Shift4(Shift4((u >> 12) & 0xF, (u >> 8) & 0xF), (u >> 4) & 0xF), u & 0xF) == u
  {
  }

  lemma UnitDigits(t: seq<byte>, i: nat, u: bv32, upper: seq<bool>)
    requires u < 0x10000 && |upper| == 4 && MatchesAt(t, i, UnitText(u, upper))
    ensures i + 6 <= |t| && t[i] == BACKSLASH && t[i + 1] == LOWER_U
    ensures HexAt(t, i + 2) && Hex4(t, i + 2) == u
  {
    hide HexByte, HexValue, IsHex, Shift4;
    var s := UnitText(u, upper);
    forall k: nat | k < 6
      ensures t[i + k] == s[k]
    {
      MatchesPeek(t, i, s, k);
    }
    assert t[i + 2] == s[2] && t[i + 3] == s[3] && t[i + 4] == s[4] && t[i + 5] == s[5];
    assert t[i] == s[0] && t[i + 1] == s[1];
    HexByteValue((u >> 12) & 0xF, upper[0]);
    HexByteValue((u >> 8) & 0xF, upper[1]);
    HexByteValue((u >> 4) & 0xF, upper[2]);
    HexByteValue(u & 0xF, upper[3]);
    ShiftedTogether(u);
  }

  /** Every unit that is no half of a pair is read as its RFC 3629 bytes; 0 and a low half alone yield nothing. */
  lemma UnitEscape(t: seq<byte>, i: nat, u: bv32, upper: seq<bool>)
    requires u < 0x10000 && |upper| == 4 && MatchesAt(t, i, UnitText(u, upper))
    ensures i < |t|
    ensures 0 < u && !(0xD800 <= u <= 0xDFFF) ==> EscapeAt(t, i) == Piece(AsBytes(Utf8(u)), i + 6)
    ensures u == 0 || 0xDC00 <= u <= 0xDFFF ==> EscapeAt(t, i) == Piece([], i + 6)
    ensures 0xD800 <= u <= 0xDBFF && !MatchesAt(t, i + 6, Ascii("\\u")) ==> EscapeAt(t, i) == Piece([], i + 6)
  {
    hide Utf8, Hex4, HexAt, UnitText;
    UnitDigits(t, i, u, upper);
  }

  /** A high half and what follows it: with a low half they are the bytes of the combined value, with any other
      unit both are dropped. */
  lemma PairEscape(t: seq<byte>, i: nat, hi: bv32, lo: bv32, upper: seq<bool>, upper': seq<bool>)
    requires 0xD800 <= hi <= 0xDBFF && lo < 0x10000 && |upper| == |upper'| == 4
    requires MatchesAt(t, i, UnitText(hi, upper) + UnitText(lo, upper'))
    ensures i < |t|
    ensures 0xDC00 <= lo <= 0xDFFF ==> Combine(hi, lo) < 0x200000
    ensures 0xDC00 <= lo <= 0xDFFF ==> EscapeAt(t, i) == Piece(AsBytes(Utf8(Combine(hi, lo))), i + 12)
    ensures !(0xDC00 <= lo <= 0xDFFF) ==> EscapeAt(t, i) == Piece([], i + 12)
  {
    hide Utf8, Hex4, HexAt, UnitText, Combine;
    MatchesSplit(t, i, UnitText(hi, upper), UnitText(lo, upper'));
    UnitDigits(t, i, hi, upper);
    UnitDigits(t, i + 6, lo, upper');
    CombineRange(hi, lo);
  }

  /** What a backslash and one byte stand for, any byte but `u`. */
  function Meant(c: byte): byte {
    if c == 0x62 then 8 else if c == 0x66 then 12 else if c == 0x6E then 10 else if c == 0x72 then 13
    else if c == 0x74 then 9 else c
  }

  lemma LetterEscape(t: seq<byte>, i: nat, c: byte)
    requires c != 0 && c != 0x75 && MatchesAt(t, i, Ascii("\\") + [c])
    ensures i < |t| && EscapeAt(t, i) == Piece([Meant(c)], i + 2)
  {
    hide UnicodeAt;
    var s := Ascii("\\") + [c];
    MatchesPeek(t, i, s, 0);
    MatchesPeek(t, i, s, 1);
  }

  // ----- whole literals -----

  /** A part of a literal: a byte as it is, a backslash and a byte, a unit, or a high half with the unit behind it. */
  datatype Part =
    | Raw(b: byte)
    | Letter(c: byte)
    | Unit(u: bv32, upper: seq<bool>)
    | Pair(hi: bv32, lo: bv32, upper: seq<bool>, upper': seq<bool>)

  predicate PartOk(p: Part) {
    match p
    case Raw(b) => b != 0 && b != 0x22 && b != 0x5C
    case Letter(c) => c != 0 && c != 0x75
    case Unit(u, upper) => u < 0x10000 && |upper| == 4
    case Pair(hi, lo, upper, upper') => 0xD800 <= hi <= 0xDBFF && lo < 0x10000 && |upper| == |upper'| == 4
  }

  function PartText(p: Part): (s: seq<byte>)
    requires PartOk(p)
    ensures |s| > 0
  {
    match p
    case Raw(b) => [b]
    case Letter(c) => Ascii("\\") + [c]
    case Unit(u, upper) => UnitText(u, upper)
    case Pair(hi, lo, upper, upper') => UnitText(hi, upper) + UnitText(lo, upper')
  }

  /** The bytes a part stands for. */
  function PartMeaning(p: Part): seq<byte>
    requires PartOk(p)
  {
    match p
    case Raw(b) => [b]
    case Letter(c) => [Meant(c)]
    case Unit(u, _) => if u == 0 || 0xD800 <= u <= 0xDFFF then [] else AsBytes(Utf8(u))
    case Pair(hi, lo, _, _) =>
      CombineRange(hi, lo);
      if 0xDC00 <= lo <= 0xDFFF then AsBytes(Utf8(Combine(hi, lo))) else []
  }

  /** Parts in a row; a high half alone must not be followed by another unit. */
  predicate PartsOk(ps: seq<Part>) {
    ps == [] || (PartOk(ps[0]) && PartsOk(ps[1..])
                 && (ps[0].Unit? && 0xD800 <= ps[0].u <= 0xDBFF && |ps| > 1 ==> !ps[1].Unit? && !ps[1].Pair?))
  }

  function PartsText(ps: seq<Part>): seq<byte>
    requires PartsOk(ps)
  {
    if ps == [] then [] else PartText(ps[0]) + PartsText(ps[1..])
  }

  function PartsMeaning(ps: seq<Part>): seq<byte>
    requires PartsOk(ps)
  {
    if ps == [] then [] else PartMeaning(ps[0]) + PartsMeaning(ps[1..])
  }

  /** The parts stand at `i`, and the literal stops behind them. */
  predicate PartsAt(t: seq<byte>, i: nat, ps: seq<Part>)
    requires PartsOk(ps)
  {
    MatchesAt(t, i, PartsText(ps)) && StopsAt(t, i + |PartsText(ps)|)
  }

  /** Behind a part stands the end or another part: `\u` only when that is a unit. */
  lemma NextPart(t: seq<byte>, i: nat, ps: seq<Part>)
    requires PartsOk(ps) && PartsAt(t, i, ps)
    ensures MatchesAt(t, i, Ascii("\\u")) ==> ps != [] && (ps[0].Unit? || ps[0].Pair?)
  {
    if MatchesAt(t, i, Ascii("\\u")) {
      MatchesPeek(t, i, Ascii("\\u"), 0);
      MatchesPeek(t, i, Ascii("\\u"), 1);
      if ps != [] {
        MatchesPeek(t, i, PartsText(ps), 0);
        if ps[0].Letter? {
          MatchesPeek(t, i, PartsText(ps), 1);
        }
      }
    }
  }

  lemma PartRead(t: seq<byte>, i: nat, p: Part, rest: seq<Part>)
    requires PartsOk([p] + rest) && PartOk(p) && PartsOk(rest)
    requires MatchesAt(t, i, PartText(p)) && PartsAt(t, i + |PartText(p)|, rest)
    ensures i < |t| && !StopsAt(t, i)
    ensures Unescape(t, i) == Prepend(PartMeaning(p), Unescape(t, i + |PartText(p)|))
  {
    hide MatchesAt, UnitText, UnicodeAt, EscapeAt, Utf8, Combine, PartsText, Meant, PartsAt;
    MatchesPeek(t, i, PartText(p), 0);
    assert ([p] + rest)[0] == p && ([p] + rest)[1..] == rest;
    match p
    case Raw(b) =>
    case Letter(c) => LetterEscape(t, i, c);
    case Unit(u, upper) =>
      UnitDigits(t, i, u, upper);
      UnitEscape(t, i, u, upper);
      NextPart(t, i + 6, rest);
    case Pair(hi, lo, upper, upper') =>
      MatchesSplit(t, i, UnitText(hi, upper), UnitText(lo, upper'));
      UnitDigits(t, i, hi, upper);
      PairEscape(t, i, hi, lo, upper, upper');
  }

  lemma {:induction false} PartsRead(t: seq<byte>, i: nat, ps: seq<Part>)
    requires PartsOk(ps) && PartsAt(t, i, ps)
    ensures Unescape(t, i) == Literal(PartsMeaning(ps), i + |PartsText(ps)|)
    decreases |ps|
  {
    hide MatchesAt, PartText, PartMeaning, PartOk;
    if ps != [] {
      var first := PartText(ps[0]);
      MatchesSplit(t, i, first, PartsText(ps[1..]));
      assert [ps[0]] + ps[1..] == ps;
      PartsRead(t, i + |first|, ps[1..]);
      PartRead(t, i, ps[0], ps[1..]);
    }
  }

  /** A literal made of any parts is read as what they stand for, to behind its closing quote. */
  lemma LiteralRead(t: seq<byte>, i: nat, ps: seq<Part>)
    requires PartsOk(ps) && MatchesAt(t, i, Ascii("\"") + PartsText(ps) + Ascii("\""))
    ensures StringAt(t, i) == Parsed(PartsMeaning(ps), i + |PartsText(ps)| + 2)
  {
    hide Unescape, PartsText, PartsMeaning, MatchesAt, PartsOk;
    MatchesSplit(t, i, Ascii("\"") + PartsText(ps), Ascii("\""));
    MatchesSplit(t, i, Ascii("\""), PartsText(ps));
    MatchesPeek(t, i, Ascii("\""), 0);
    MatchesPeek(t, i + 1 + |PartsText(ps)|, Ascii("\""), 0);
    PartsRead(t, i + 1, ps);
  }

  // ----- and no other literals -----

  lemma HexByteBack(b: byte)
    requires IsHex(b)
    ensures HexByte(HexValue(b), b <= 0x46) == b
  {
  }

  lemma ShiftedApart(a: bv32, b: bv32, c: bv32, d: bv32)
    requires a < 16 && b < 16 && c < 16 && d < 16
    ensures var u := Shift4(Shift4(Shift4(a, b), c), d);
            (u >> 12) & 0xF == a && (u >> 8) & 0xF == b && (u >> 4) & 0xF == c && u & 0xF == d
  {
    ShiftedOnce(a, b);
    ShiftedOnce(Shift4(a, b), c);
    ShiftedOnce(Shift4(Shift4(a, b), c), d);
  }

  lemma ShiftedOnce(v: bv32, d: bv32)
    requires v < 0x1000 && d < 16
    ensures Shift4(v, d) >> 4 == v && Shift4(v, d) & 0xF == d
  {
  }

  /** The case of the digits at `i`. */
  function Cases(t: seq<byte>, i: nat): (upper: seq<bool>)
    requires HexAt(t, i)
    ensures |upper| == 4
  {
    [t[i] <= 0x46, t[i + 1] <= 0x46, t[i + 2] <= 0x46, t[i + 3] <= 0x46]
  }

  lemma UnitTextBack(t: seq<byte>, i: nat)
    requires i + 2 <= |t| && t[i] == BACKSLASH && t[i + 1] == LOWER_U && HexAt(t, i + 2)
    ensures t[i..i + 6] == UnitText(Hex4(t, i + 2), Cases(t, i + 2))
  {
    hide Shift4, HexByte, HexValue, IsHex;
    ShiftedApart(HexValue(t[i + 2]), HexValue(t[i + 3]), HexValue(t[i + 4]), HexValue(t[i + 5]));
    HexByteBack(t[i + 2]);
    HexByteBack(t[i + 3]);
    HexByteBack(t[i + 4]);
    HexByteBack(t[i + 5]);
  }

  /** A complete escape is a part of a literal. */
  lemma PartOf(t: seq<byte>, i: nat) returns (p: Part)
    requires i < |t| && t[i] == BACKSLASH && EscapeAt(t, i).Piece?
    ensures PartOk(p) && t[i..EscapeAt(t, i).next] == PartText(p) && EscapeAt(t, i).bytes == PartMeaning(p)
    ensures p.Unit? && 0xD800 <= p.u <= 0xDBFF ==> !MatchesAt(t, EscapeAt(t, i).next, Ascii("\\u"))
    ensures !p.Raw?
  {
    hide Hex4, HexAt, UnitText, Utf8, Combine, NulFree, AsBytes;
    if t[i + 1] == LOWER_U {
      var u := Hex4(t, i + 2);
      UnitTextBack(t, i);
      p := Unit(u, Cases(t, i + 2));
      if IsHighSurrogate(u) {
        if Peek(t, i + 6) == BACKSLASH && Peek(t, i + 7) == LOWER_U {
          UnitTextBack(t, i + 6);
          p := Pair(u, Hex4(t, i + 8), Cases(t, i + 2), Cases(t, i + 8));
          assert t[i..i + 12] == t[i..i + 6] + t[i + 6..i + 12];
        } else if MatchesAt(t, i + 6, Ascii("\\u")) {
          MatchesPeek(t, i + 6, Ascii("\\u"), 0);
          MatchesPeek(t, i + 6, Ascii("\\u"), 1);
        }
      }
    } else {
      p := Letter(t[i + 1]);
      assert t[i..i + 2] == Ascii("\\") + [t[i + 1]];
    }
  }

  /** Whatever the second pass decodes is made of parts. */
  lemma {:induction false} PartsOf(t: seq<byte>, i: nat) returns (ps: seq<Part>)
    requires i <= |t| && Unescape(t, i).Literal?
    ensures PartsOk(ps) && t[i..Unescape(t, i).end] == PartsText(ps) && Unescape(t, i).bytes == PartsMeaning(ps)
    decreases |t| - i
  {
    hide EscapeAt, PartOk, PartText, PartMeaning;
    ps := [];
    if !StopsAt(t, i) {
      var next := if t[i] == BACKSLASH then EscapeAt(t, i).next else i + 1;
      var more := PartsOf(t, next);
      var p;
      if t[i] == BACKSLASH {
        p := PartOf(t, i);
        FirstUnit(t, next, more);
      } else {
        p := Raw(t[i]);
        RawPart(t[i]);
        assert t[i..i + 1] == [t[i]];
      }
      ps := [p] + more;
      assert ps[1..] == more;
      assert t[i..Unescape(t, i).end] == t[i..next] + t[next..Unescape(t, i).end];
    }
  }

  lemma RawPart(b: byte)
    requires b != 0 && b != 0x22 && b != 0x5C
    ensures PartOk(Raw(b)) && PartText(Raw(b)) == [b] == PartMeaning(Raw(b))
  {
  }

  /** Parts that start with a unit start with `\u`. */
  lemma FirstUnit(t: seq<byte>, i: nat, ps: seq<Part>)
    requires PartsOk(ps) && Unescape(t, i).Literal? && i <= Unescape(t, i).end <= |t|
    requires t[i..Unescape(t, i).end] == PartsText(ps)
    ensures ps != [] && (ps[0].Unit? || ps[0].Pair?) ==> MatchesAt(t, i, Ascii("\\u"))
  {
    hide Unescape, PartText;
    if ps != [] && (ps[0].Unit? || ps[0].Pair?) {
      var first := PartText(ps[0]);
      UnitStarts(ps[0]);
      MatchesSplit(t, i, first, PartsText(ps[1..]));
      MatchesSplit(t, i, first[..2], first[2..]);
      assert first == first[..2] + first[2..];
    }
  }

  lemma UnitStarts(p: Part)
    requires PartOk(p) && (p.Unit? || p.Pair?)
    ensures |PartText(p)| >= 2 && PartText(p)[..2] == Ascii("\\u")
  {
    hide HexByte;
    var first := if p.Unit? then UnitText(p.u, p.upper) else UnitText(p.hi, p.upper);
    assert first[..2] == Ascii("\\u");
    assert PartText(p)[..2] == first[..2];
  }

  /** The literal of these parts stands between `i` and `p`; its closing quote may be missing at the end of the text. */
  predicate LiteralAt(t: seq<byte>, i: nat, p: nat, ps: seq<Part>)
    requires PartsOk(ps)
  {
    && MatchesAt(t, i, Ascii("\"") + PartsText(ps))
    && var end := i + 1 + |PartsText(ps)|;
       (Peek(t, end) == 0x22 && p == end + 1) || (Peek(t, end) == 0 && p == end)
  }

  /** The literals that `parse_string` takes are exactly those made of parts, and it reads what they stand for. */
  lemma LiteralsAreParts(t: seq<byte>, i: nat, s: seq<byte>, p: nat)
    ensures StringAt(t, i) == Parsed(s, p) <==> exists ps :: PartsOk(ps) && LiteralAt(t, i, p, ps) && s == PartsMeaning(ps)
  {
    hide Unescape, PartsText, PartsMeaning, PartsOk, MatchesAt;
    if StringAt(t, i) == Parsed(s, p) {
      var ps := PartsOf(t, i + 1);
      LiteralStands(t, i, Unescape(t, i + 1).end, PartsText(ps));
      assert LiteralAt(t, i, p, ps);
    }
    forall ps | PartsOk(ps) && LiteralAt(t, i, p, ps) && s == PartsMeaning(ps)
      ensures StringAt(t, i) == Parsed(s, p)
    {
      MatchesSplit(t, i, Ascii("\""), PartsText(ps));
      MatchesPeek(t, i, Ascii("\""), 0);
      PartsRead(t, i + 1, ps);
    }
  }

  lemma LiteralStands(t: seq<byte>, i: nat, end: nat, s: seq<byte>)
    requires i < |t| && t[i] == QUOTE && i + 1 <= end <= |t| && t[i + 1..end] == s
    ensures MatchesAt(t, i, Ascii("\"") + s) && end == i + 1 + |s|
  {
    assert t[i..end] == [t[i]] + t[i + 1..end];
  }

  // ----- what the first pass counts -----

  /** One for a plain byte and for a backslash with the byte behind it, four more for the digits of a unit. */
  function PartCount(p: Part): nat {
    match p
    case Raw(_) => 1
    case Letter(_) => 1
    case Unit(_, _) => 5
    case Pair(_, _, _, _) => 10
  }

  function PartsCount(ps: seq<Part>): nat {
    if ps == [] then 0 else PartCount(ps[0]) + PartsCount(ps[1..])
  }

  lemma UnitCounted(t: seq<byte>, i: nat, u: bv32, upper: seq<bool>)
    requires u < 0x10000 && |upper| == 4 && MatchesAt(t, i, UnitText(u, upper))
    ensures ScanCount(t, i) == 5 + ScanCount(t, i + 6)
  {
    hide Hex4, UnitText, MatchesAt;
    UnitDigits(t, i, u, upper);
    ScanHex(t, i + 2);
  }

  lemma PartCounted(t: seq<byte>, i: nat, p: Part)
    requires PartOk(p) && MatchesAt(t, i, PartText(p))
    ensures ScanCount(t, i) == PartCount(p) + ScanCount(t, i + |PartText(p)|)
  {
    hide MatchesAt, UnitText;
    match p
    case Raw(b) => MatchesPeek(t, i, PartText(p), 0);
    case Letter(c) =>
      MatchesPeek(t, i, PartText(p), 0);
      MatchesPeek(t, i, PartText(p), 1);
    case Unit(u, upper) => UnitCounted(t, i, u, upper);
    case Pair(hi, lo, upper, upper') =>
      MatchesSplit(t, i, UnitText(hi, upper), UnitText(lo, upper'));
      UnitCounted(t, i, hi, upper);
      UnitCounted(t, i + 6, lo, upper');
  }

  /** The length that the first pass finds. */
  lemma {:induction false} PartsCounted(t: seq<byte>, i: nat, ps: seq<Part>)
    requires PartsOk(ps) && PartsAt(t, i, ps)
    ensures ScanCount(t, i) == PartsCount(ps)
    decreases |ps|
  {
    hide MatchesAt, PartText, PartCount, PartOk;
    if ps != [] {
      MatchesSplit(t, i, PartText(ps[0]), PartsText(ps[1..]));
      PartCounted(t, i, ps[0]);
      PartsCounted(t, i + |PartText(ps[0])|, ps[1..]);
    }
  }

  /** Section 7 of RFC 3629: a Latin letter, a euro sign, a Chinese character, and U+233B4. */
  lemma Utf8Examples()
    ensures Utf8(0x41) == [0x41] && Utf8(0x391) == [0xCE, 0x91] && Utf8(0x20AC) == [0xE2, 0x82, 0xAC]
    ensures Utf8(0x65E5) == [0xE6, 0x97, 0xA5] && Utf8(0x233B4) == [0xF0, 0xA3, 0x8E, 0xB4]
  {
  }

  /** No encoding is longer than it must be. */
  lemma Utf8Lengths(code: bv32)
    requires code < 0x200000
    ensures |Utf8(code)| == if code < 0x80 then 1 else if code < 0x800 then 2 else if code < 0x10000 then 3 else 4
  {
    hide Six, Two, Three, Four;
  }

  // ----- writing -----

  /** What `print_string_ptr` writes for a byte: a backslash before what cannot stand in a literal, the control
      bytes by a letter or as `\u00` and two digits in lower case, all others as they are. */
  lemma EscapeSpelled(b: byte)
    requires b != 0
    ensures EscapeByte(b)
         == if b == 0x22 then Ascii("\\\"") else if b == 0x5C then Ascii("\\\\")
            else if b == 8 then Ascii("\\b") else if b == 12 then Ascii("\\f") else if b == 10 then Ascii("\\n")
            else if b == 13 then Ascii("\\r") else if b == 9 then Ascii("\\t")
            else if b < 16 then Ascii("\\u000") + [if b < 10 then 0x30 + b else 0x61 + (b - 10)]
            else if b < 32 then Ascii("\\u001") + [if b < 26 then 0x30 + (b - 16) else 0x61 + (b - 26)]
            else [b]
  {
  }
}
