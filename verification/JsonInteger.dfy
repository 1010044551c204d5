/** Numbers: the integer path of `parse_number` and `print_int` (cJSON.c:116-212).

An integer travels as a 64-bit word and a sign tag: with tag -1 the word is read
as a signed number, otherwise as an unsigned one. A number with a fraction or a
non-zero exponent is kept as its unevaluated parts.
 */
module JsonInteger {
  import opened Bytes
  import opened ByteBlocks

  const TWO_63: nat := 0x8000_0000_0000_0000
  const TWO_64: nat := 0x1_0000_0000_0000_0000
  const TWO_32: nat := 0x1_0000_0000
  const INT_MAX: int := 0x7FFF_FFFF
  const INT_MIN: int := -0x8000_0000
  const UINT_MAX: nat := 0xFFFF_FFFF

  const MINUS: byte := 0x2D
  const PLUS: byte := 0x2B
  const DOT: byte := 0x2E
  const ZERO: byte := 0x30
  const LOWER_E: byte := 0x65
  const UPPER_E: byte := 0x45

  type word = n: nat | n < TWO_64

  /** `valueint` with `sign`; an integer literal too wide for 64 bits; or a
      mantissa with decimal places and an exponent. */
  datatype Number =
    | Int(value: word, sign: int)
    | WideInt(mantissa: nat, sign: int)
    | Float(mantissa: nat, places: nat, exponent: int, sign: int)

  /** The cast to `int64`. */
  function Signed(v: word): int {
    if v < TWO_63 then v else v - TWO_64
  }

  /** The cast to `int32`. */
  function Signed32(v: word): int {
    var low := v % TWO_32;
    if low < TWO_32 / 2 then low else low - TWO_32
  }

  /** The integer that a word and its sign tag stand for. */
  function Meaning(v: word, sign: int): int {
    if sign == -1 then Signed(v) else v
  }

  /** The form in which the parser returns an integer: tag -1 for the negative ones only. */
  function Canonical(n: Number): (c: Number)
    ensures n.Int? ==> c.Int? && Meaning(c.value, c.sign) == Meaning(n.value, n.sign)
  {
    if n.Int? then Int(n.value, if Meaning(n.value, n.sign) < 0 then -1 else 1) else n
  }

  /** What a node of type double stands for: never an integer, even if its fields hold one. */
  function AsDouble(n: Number): Number {
    if n.Int? then Float(n.value, 0, 0, n.sign) else n
  }

  // ----- digits -----

  predicate IsDigit(b: byte) { ZERO <= b <= 0x39 }

  function DigitValue(b: byte): (d: nat)
    requires IsDigit(b)
    ensures d < 10
  {
    if b == 0x30 then 0 else if b == 0x31 then 1 else if b == 0x32 then 2 else if b == 0x33 then 3
    else if b == 0x34 then 4 else if b == 0x35 then 5 else if b == 0x36 then 6 else if b == 0x37 then 7
    else if b == 0x38 then 8 else 9
  }

  function DigitByte(d: nat): (b: byte)
    requires d < 10
    ensures IsDigit(b) && DigitValue(b) == d && (b == ZERO <==> d == 0)
  {
    [0x30, 0x31, 0x32, 0x33, 0x34, 0x35, 0x36, 0x37, 0x38, 0x39][d]
  }

  /** A digit loop entered at `i` with the sum `n`: the final sum and the first byte that is no digit. */
  function Digits(t: seq<byte>, i: nat, n: nat): (r: (nat, nat))
    ensures n <= r.0 && i <= r.1 && !IsDigit(Peek(t, r.1))
    ensures i <= |t| ==> r.1 <= |t|
    decreases |t| - i
  {
    if IsDigit(Peek(t, i)) then Digits(t, i + 1, n * 10 + DigitValue(Peek(t, i))) else (n, i)
  }

  /** The sum a digit loop entered at `i` with 0 holds when it reaches `j`. */
  function PartialSum(t: seq<byte>, i: nat, j: nat): nat
    requires i <= j
    requires forall k :: i <= k < j ==> IsDigit(Peek(t, k))
  {
    if j == i then 0 else PartialSum(t, i, j - 1) * 10 + DigitValue(Peek(t, j - 1))
  }

  /** No sum on the way exceeds the final one. */
  lemma {:induction false} PartialSumBelow(t: seq<byte>, i: nat, j: nat)
    requires i <= j <= Digits(t, i, 0).1
    ensures forall k :: i <= k < j ==> IsDigit(Peek(t, k))
    ensures Digits(t, i, 0) == Digits(t, j, PartialSum(t, i, j))
    ensures PartialSum(t, i, j) <= Digits(t, i, 0).0
  {
    if i < j {
      PartialSumBelow(t, i, j - 1);
    }
  }

  // ----- reading -----

  /** `parse_number`: the number and the position behind it. */
  function NumberAt(t: seq<byte>, i: nat): (r: (Number, nat))
    ensures i <= |t| ==> r.1 <= |t|
    ensures Peek(t, i) == MINUS || IsDigit(Peek(t, i)) ==> i < r.1
  {
    if Peek(t, i) == MINUS then UnsignedAt(t, i + 1, -1) else UnsignedAt(t, i, 1)
  }

  function UnsignedAt(t: seq<byte>, i: nat, sign: int): (r: (Number, nat))
    ensures i <= r.1 && (i <= |t| ==> r.1 <= |t|)
    ensures IsDigit(Peek(t, i)) ==> i < r.1
  {
    var (n, i1) := WholeAt(t, i);
    var (m, i2) := FractionAt(t, i1, n);
    var (exponent, i3) := ExponentAt(t, i2);
    (Evaluate(m, sign, if i2 == i1 then 0 else i2 - i1 - 1, exponent), i3)
  }

  /** One leading zero, then digits that start with another. */
  function WholeAt(t: seq<byte>, i: nat): (r: (nat, nat))
    ensures i <= r.1 && (i <= |t| ==> r.1 <= |t|)
    ensures IsDigit(Peek(t, i)) ==> i < r.1
  {
    var j := if Peek(t, i) == ZERO then i + 1 else i;
    if IsDigit(Peek(t, j)) && Peek(t, j) != ZERO then Digits(t, j, 0) else (0, j)
  }

  /** Decimal places go on in the same sum; a dot without a digit behind it is left alone. */
  function FractionAt(t: seq<byte>, i: nat, n: nat): (r: (nat, nat))
    ensures i <= r.1 && (i <= |t| ==> r.1 <= |t|)
    ensures r.1 == i || r.1 >= i + 2
  {
    if Peek(t, i) == DOT && IsDigit(Peek(t, i + 1)) then Digits(t, i + 1, n) else (n, i)
  }

  /** The exponent with its sign; a letter without digits behind it counts as exponent zero. */
  function ExponentAt(t: seq<byte>, i: nat): (r: (int, nat))
    ensures i <= r.1 && (i <= |t| ==> r.1 <= |t|)
  {
    if Peek(t, i) != LOWER_E && Peek(t, i) != UPPER_E then (0, i)
    else if Peek(t, i + 1) == PLUS then (Digits(t, i + 2, 0).0 as int, Digits(t, i + 2, 0).1)
    else if Peek(t, i + 1) == MINUS then (-(Digits(t, i + 2, 0).0 as int), Digits(t, i + 2, 0).1)
    else (Digits(t, i + 1, 0).0 as int, Digits(t, i + 1, 0).1)
  }

  /** The integer case multiplies the word by the sign modulo 2^64. */
  function Evaluate(m: nat, sign: int, places: nat, exponent: int): Number {
    if places != 0 || exponent != 0 then Float(m, places, exponent, sign)
    else if m >= TWO_64 then WideInt(m, sign)
    else Int((sign * m) % TWO_64, sign)
  }

  /** A `while` or `do` loop over digits. */
  method ReadDigits(t: seq<byte>, i: nat, start: nat) returns (n: nat, num: nat)
    ensures (n, num) == Digits(t, i, start)
  {
    n, num := start, i;
    while IsDigit(Peek(t, num))
      invariant Digits(t, i, start) == Digits(t, num, n)
      decreases |t| - num
    {
      n, num := n * 10 + DigitValue(Peek(t, num)), num + 1;
    }
  }

  /** The exponent part of `parse_number`: the digits and the sign apart. */
  method ParseExponent(t: seq<byte>, i: nat) returns (subscale: nat, signsubscale: int, num: nat)
    ensures (subscale * signsubscale, num) == ExponentAt(t, i)
    ensures subscale == 0 <==> ExponentAt(t, i).0 == 0
  {
    subscale, signsubscale, num := 0, 1, i;
    if Peek(t, num) == LOWER_E || Peek(t, num) == UPPER_E {
      num := num + 1;
      if Peek(t, num) == PLUS {
        num := num + 1;
      } else if Peek(t, num) == MINUS {
        signsubscale, num := -1, num + 1;
      }
      subscale, num := ReadDigits(t, num, 0);
    }
  }

  /** The whole part and the decimal places of `parse_number`. */
  method ParseMantissa(t: seq<byte>, i: nat) returns (n: nat, scale: int, num: nat)
    ensures var (whole, i1) := WholeAt(t, i);
            var (m, i2) := FractionAt(t, i1, whole);
            n == m && num == i2 && scale == (if i2 == i1 then 0 else i1 + 1 - i2)
  {
    n, scale, num := 0, 0, i;
    if Peek(t, num) == ZERO {
      num := num + 1;
    }
    if IsDigit(Peek(t, num)) && Peek(t, num) != ZERO {
      n, num := ReadDigits(t, num, 0);
    }
    if Peek(t, num) == DOT && IsDigit(Peek(t, num + 1)) {
      var first := num + 1;
      n, num := ReadDigits(t, first, n);
      scale := first - num;
    }
  }

  /** `parse_number` as it advances its cursor. */
  method ParseNumber(t: seq<byte>, i: nat) returns (number: Number, num: nat)
    ensures (number, num) == NumberAt(t, i)
  {
    var sign, n: nat, scale, subscale, signsubscale;
    sign, num := 1, i;
    if Peek(t, num) == MINUS {
      sign, num := -1, num + 1;
    }
    n, scale, num := ParseMantissa(t, num);
    subscale, signsubscale, num := ParseExponent(t, num);
    if scale == 0 && subscale == 0 {
      number := if n < TWO_64 then Int((sign * n) % TWO_64, sign) else WideInt(n, sign);
    } else {
      number := Float(n, -scale, subscale * signsubscale, sign);
    }
  }

  // ----- writing -----

  function Decimal(n: nat): (s: seq<byte>)
    ensures |s| >= 1 && NulFree(s)
  {
    if n < 10 then [DigitByte(n)] else Decimal(n / 10) + [DigitByte(n % 10)]
  }

  /** What the `%d`, `%u`, `%lld` and `%llu` conversions write. */
  function DecimalText(x: int): (s: seq<byte>) {
    if x < 0 then [MINUS] + Decimal(-x) else Decimal(x)
  }

  /** `print_int`: whichever conversion is chosen, the text is that of the integer meant. */
  method PrintInt(b: Blocks, v: word, sign: int) returns (out: array<byte>)
    modifies b
    ensures fresh(out) && out.Length == 22 && out !in old(b.live) && b.live == old(b.live) + {out}
    ensures |DecimalText(Meaning(v, sign))| < 22
    ensures out[..|DecimalText(Meaning(v, sign))| + 1] == DecimalText(Meaning(v, sign)) + [NUL]
  {
    var x;
    if sign == -1 {
      if Signed(v) <= INT_MAX && Signed(v) >= INT_MIN {
        x := Signed32(v);
      } else {
        x := Signed(v);
      }
    } else {
      if v <= UINT_MAX {
        x := v % TWO_32;
      } else {
        x := v;
      }
    }
    ConversionsAgree(v);
    TextFits(v, sign);
    out := b.New(22);
    Sprintf(out, x);
  }

  /** The casts to 32 bits change nothing where they are taken. */
  lemma ConversionsAgree(v: word)
    ensures INT_MIN <= Signed(v) <= INT_MAX ==> Signed32(v) == Signed(v)
    ensures v <= UINT_MAX ==> v % TWO_32 == v
  {
  }

  /** `sprintf` with a decimal conversion: the digits and the terminator. */
  method Sprintf(out: array<byte>, x: int)
    requires |DecimalText(x)| < out.Length
    modifies out
    ensures out[..|DecimalText(x)| + 1] == DecimalText(x) + [NUL]
  {
    var text, i := DecimalText(x), 0;
    while i < |text|
      invariant 0 <= i <= |text| && out[..i] == text[..i]
    {
      out[i] := text[i];
      i := i + 1;
    }
    out[i] := NUL;
  }

  function Pow10(k: nat): nat {
    if k == 0 then 1 else 10 * Pow10(k - 1)
  }

  lemma {:induction false} DecimalLength(n: nat, k: nat)
    requires k >= 1 && n < Pow10(k)
    ensures |Decimal(n)| <= k
  {
    if n >= 10 {
      DecimalLength(n / 10, k - 1);
    }
  }

  /** The text of any 64-bit integer takes at most 20 of the 22 bytes. */
  lemma TextFits(v: word, sign: int)
    ensures |DecimalText(Meaning(v, sign))| <= 20
  {
    assert Pow10(5) == 100000;
    assert Pow10(10) == 100000 * 100000;
    assert Pow10(15) == 100000 * 100000 * 100000;
    assert Pow10(19) == 10_000_000_000_000_000_000;
    var x := Meaning(v, sign);
    if x < 0 {
      DecimalLength(-x, 19);
    } else {
      DecimalLength(x, 20);
    }
  }

  // ----- round trip -----

  /** The byte at `j` would be read as part of a number that ends there. */
  predicate Continues(t: seq<byte>, j: nat) {
    || IsDigit(Peek(t, j))
    || (Peek(t, j) == DOT && IsDigit(Peek(t, j + 1)))
    || Peek(t, j) == LOWER_E || Peek(t, j) == UPPER_E
  }

  lemma {:induction false} DigitsOfDecimal(t: seq<byte>, i: nat, n: nat)
    requires MatchesAt(t, i, Decimal(n))
    ensures Digits(t, i, 0) == Digits(t, i + |Decimal(n)|, n)
    ensures IsDigit(Peek(t, i)) && (Peek(t, i) == ZERO <==> n == 0)
  {
    if n < 10 {
      MatchesPeek(t, i, Decimal(n), 0);
    } else {
      MatchesSplit(t, i, Decimal(n / 10), [DigitByte(n % 10)]);
      DigitsOfDecimal(t, i, n / 10);
      MatchesPeek(t, i + |Decimal(n / 10)|, [DigitByte(n % 10)], 0);
    }
  }

  lemma UnsignedOfDecimal(t: seq<byte>, i: nat, n: nat, sign: int)
    requires MatchesAt(t, i, Decimal(n)) && !Continues(t, i + |Decimal(n)|)
    ensures UnsignedAt(t, i, sign) == (Evaluate(n, sign, 0, 0), i + |Decimal(n)|)
    ensures IsDigit(Peek(t, i))
  {
    DigitsOfDecimal(t, i, n);
    assert WholeAt(t, i) == (n, i + |Decimal(n)|);
  }

  /** Negating modulo 2^64 restores the word of a negative integer. */
  lemma NegationWraps(v: word)
    requires Signed(v) < 0
    ensures Evaluate(-Signed(v), -1, 0, 0) == Int(v, -1)
  {
    assert -1 * -Signed(v) == v - TWO_64;
  }

  /** Reading what `print_int` wrote gives the same integer back, with the canonical tag. */
  lemma IntRoundTrip(t: seq<byte>, i: nat, v: word, sign: int)
    requires MatchesAt(t, i, DecimalText(Meaning(v, sign)))
    requires !Continues(t, i + |DecimalText(Meaning(v, sign))|)
    ensures NumberAt(t, i) == (Canonical(Int(v, sign)), i + |DecimalText(Meaning(v, sign))|)
    ensures Peek(t, i) == MINUS || IsDigit(Peek(t, i))
  {
    hide MatchesAt, Continues, UnsignedAt, Decimal;
    var x := Meaning(v, sign);
    if x < 0 {
      MatchesSplit(t, i, [MINUS], Decimal(-x));
      MatchesPeek(t, i, [MINUS], 0);
      UnsignedOfDecimal(t, i + 1, -x, -1);
      NegationWraps(v);
      assert Canonical(Int(v, sign)) == Int(v, -1);
    } else {
      UnsignedOfDecimal(t, i, x, 1);
      assert Evaluate(x, 1, 0, 0) == Int(v, 1) == Canonical(Int(v, sign));
    }
  }

  /** An integer literal of less than 2^64 comes out as the integer it spells exactly when it is not below -2^63:
      the multiplication by the sign wraps the others round to a positive word. */
  lemma LiteralIsExact(t: seq<byte>, i: nat, m: nat, negative: bool)
    requires m < TWO_64
    requires MatchesAt(t, i, (if negative then [MINUS] else []) + Decimal(m))
    requires !Continues(t, i + |(if negative then [MINUS] else []) + Decimal(m)|)
    ensures var n := NumberAt(t, i).0;
            && n.Int?
            && (Meaning(n.value, n.sign) == (if negative then -(m as int) else m as int) <==> !negative || m <= TWO_63)
  {
    hide MatchesAt, Continues, UnsignedAt, Decimal;
    if negative {
      MatchesSplit(t, i, [MINUS], Decimal(m));
      MatchesPeek(t, i, [MINUS], 0);
      UnsignedOfDecimal(t, i + 1, m, -1);
      assert Evaluate(m, -1, 0, 0) == Int(if m == 0 then 0 else TWO_64 - m, -1);
    } else {
      assert [] + Decimal(m) == Decimal(m);
      UnsignedOfDecimal(t, i, m, 1);
    }
  }
}
