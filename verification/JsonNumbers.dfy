/** What a number spells, said by its digits (cJSON.c:117-164). */
module JsonNumbers {
  import opened Bytes
  import opened JsonInteger

  predicate AllDigits(s: seq<byte>) {
    forall k :: 0 <= k < |s| ==> 0x30 <= s[k] <= 0x39
  }

  /** The number whose decimal digits are those of `n` and then these. */
  function Spelled(n: nat, s: seq<byte>): nat
    requires AllDigits(s)
    decreases |s|
  {
    if s == [] then n else Spelled(n * 10 + (s[0] - 0x30), s[1..])
  }

  lemma DigitMeans(b: byte)
    ensures IsDigit(b) <==> 0x30 <= b <= 0x39
    ensures IsDigit(b) ==> DigitValue(b) == b - 0x30
  {
  }

  lemma {:induction false} SpelledBoth(n: nat, a: seq<byte>, b: seq<byte>)
    requires AllDigits(a) && AllDigits(b)
    ensures AllDigits(a + b) && Spelled(n, a + b) == Spelled(Spelled(n, a), b)
    decreases |a|
  {
    if a == [] {
      assert a + b == b;
    } else {
      assert (a + b)[1..] == a[1..] + b;
      SpelledBoth(n * 10 + (a[0] - 0x30), a[1..], b);
    }
  }

  /** A decimal conversion spells its number, without a leading zero. */
  lemma {:induction false} DecimalSpells(n: nat)
    ensures AllDigits(Decimal(n)) && Spelled(0, Decimal(n)) == n
    ensures Decimal(n)[0] == 0x30 ==> Decimal(n) == [0x30]
  {
    if n >= 10 {
      DecimalSpells(n / 10);
      DigitMeans(DigitByte(n % 10));
      SpelledBoth(0, Decimal(n / 10), [DigitByte(n % 10)]);
      assert Spelled(n / 10, [DigitByte(n % 10)]) == n;
    } else {
      DigitMeans(DigitByte(n));
    }
  }

  lemma {:induction false} DigitsSpell(t: seq<byte>, i: nat, n: nat, s: seq<byte>)
    requires AllDigits(s) && MatchesAt(t, i, s) && !IsDigit(Peek(t, i + |s|))
    ensures Digits(t, i, n) == (Spelled(n, s), i + |s|)
    decreases |s|
  {
    if s != [] {
      MatchesPeek(t, i, s, 0);
      DigitMeans(s[0]);
      assert s == [s[0]] + s[1..];
      MatchesSplit(t, i, [s[0]], s[1..]);
      DigitsSpell(t, i + 1, n * 10 + (s[0] - 0x30), s[1..]);
    }
  }

  // ----- whole literals -----

  /** The digits before the point, those behind it, and the exponent: `e` or `E`, a sign or none, digits. */
  datatype Exponent = None | Exponent(letter: byte, sign: seq<byte>, digits: seq<byte>)
  datatype NumberText = NumberText(negative: bool, whole: seq<byte>, places: seq<byte>, exponent: Exponent)

  predicate Sayable(n: NumberText) {
    && AllDigits(n.whole) && AllDigits(n.places)
    && (|n.whole| >= 2 ==> n.whole[0] != 0x30 || n.whole[1] != 0x30)
    && (n.exponent.Exponent? ==>
          && (n.exponent.letter == 0x65 || n.exponent.letter == 0x45)
          && n.exponent.sign in {[], Ascii("+"), Ascii("-")} && AllDigits(n.exponent.digits))
  }

  function PlacesText(n: NumberText): seq<byte> {
    if n.places == [] then [] else Ascii(".") + n.places
  }

  function ExponentText(e: Exponent): seq<byte> {
    if e.None? then [] else [e.letter] + (e.sign + e.digits)
  }

  function Text(n: NumberText): seq<byte> {
    (if n.negative then Ascii("-") else []) + (n.whole + (PlacesText(n) + ExponentText(n.exponent)))
  }

  /** The byte behind the literal does not go on with it. */
  predicate EndsAt(t: seq<byte>, j: nat, n: NumberText) {
    && !(0x30 <= Peek(t, j) <= 0x39)
    && (n.exponent.None? ==> Peek(t, j) != 0x65 && Peek(t, j) != 0x45)
    && (n.exponent.None? && n.places == [] ==> !(Peek(t, j) == 0x2E && 0x30 <= Peek(t, j + 1) <= 0x39))
    && (n.exponent.Exponent? && n.exponent.sign == [] && n.exponent.digits == [] ==> Peek(t, j) != 0x2B && Peek(t, j) != 0x2D)
  }

  function ExponentValue(e: Exponent): int
    requires e.Exponent? ==> AllDigits(e.digits)
  {
    if e.None? then 0 else if e.sign == Ascii("-") then -(Spelled(0, e.digits) as int) else Spelled(0, e.digits)
  }

  lemma ExponentRead(t: seq<byte>, i: nat, n: NumberText)
    requires Sayable(n) && MatchesAt(t, i, ExponentText(n.exponent)) && EndsAt(t, i + |ExponentText(n.exponent)|, n)
    ensures ExponentAt(t, i) == (ExponentValue(n.exponent), i + |ExponentText(n.exponent)|)
  {
    hide Digits, Spelled, MatchesAt;
    var e := n.exponent;
    if e.Exponent? {
      var end := i + |ExponentText(e)|;
      MatchesPeek(t, i, ExponentText(e), 0);
      MatchesSplit(t, i, [e.letter], e.sign + e.digits);
      MatchesSplit(t, i + 1, e.sign, e.digits);
      DigitMeans(Peek(t, end));
      DigitsSpell(t, i + 1 + |e.sign|, 0, e.digits);
      if e.sign != [] {
        MatchesPeek(t, i + 1, e.sign, 0);
      } else if e.digits != [] {
        MatchesPeek(t, i + 1, e.digits, 0);
      }
    }
  }

  lemma PlacesRead(t: seq<byte>, i: nat, n: NumberText, m: nat)
    requires Sayable(n) && MatchesAt(t, i, PlacesText(n) + ExponentText(n.exponent))
    requires EndsAt(t, i + |PlacesText(n) + ExponentText(n.exponent)|, n)
    ensures FractionAt(t, i, m) == (Spelled(m, n.places), i + |PlacesText(n)|)
  {
    hide Digits, Spelled, MatchesAt;
    var places, e := PlacesText(n), ExponentText(n.exponent);
    MatchesSplit(t, i, places, e);
    if e != [] {
      MatchesPeek(t, i + |places|, e, 0);
    }
    DigitMeans(Peek(t, i + |places|));
    if n.places != [] {
      MatchesSplit(t, i, Ascii("."), n.places);
      MatchesPeek(t, i, Ascii("."), 0);
      MatchesPeek(t, i + 1, n.places, 0);
      DigitMeans(n.places[0]);
      DigitsSpell(t, i + 1, m, n.places);
    } else {
      SpelledNothing(m);
      DigitMeans(Peek(t, i + 1));
    }
  }

  lemma SpelledNothing(m: nat)
    ensures Spelled(m, []) == m
  {
  }

  lemma WholeRead(t: seq<byte>, i: nat, n: NumberText)
    requires Sayable(n) && MatchesAt(t, i, n.whole) && !(0x30 <= Peek(t, i + |n.whole|) <= 0x39)
    ensures WholeAt(t, i) == (Spelled(0, n.whole), i + |n.whole|)
  {
    hide Digits, MatchesAt;
    var w := n.whole;
    DigitMeans(Peek(t, i + |w|));
    if w != [] {
      MatchesPeek(t, i, w, 0);
      if w[0] == 0x30 {
        assert w == [w[0]] + w[1..];
        MatchesSplit(t, i, [w[0]], w[1..]);
        if |w| > 1 {
          MatchesPeek(t, i, w, 1);
          DigitMeans(w[1]);
          DigitsSpell(t, i + 1, 0, w[1..]);
        }
      } else {
        DigitMeans(w[0]);
        DigitsSpell(t, i, 0, w);
      }
    }
  }

  lemma WholeEnds(t: seq<byte>, i: nat, n: NumberText)
    requires Sayable(n) && MatchesAt(t, i, PlacesText(n) + ExponentText(n.exponent))
    requires EndsAt(t, i + |PlacesText(n) + ExponentText(n.exponent)|, n)
    ensures !(0x30 <= Peek(t, i) <= 0x39)
  {
    hide MatchesAt;
    var rest := PlacesText(n) + ExponentText(n.exponent);
    if rest != [] {
      MatchesPeek(t, i, rest, 0);
    }
  }

  /** A number is read as its digits say: those before and behind the point as one number, the places counted, and
      the exponent with its sign. The source takes one leading zero before other digits. */
  lemma NumberRead(t: seq<byte>, i: nat, n: NumberText)
    requires Sayable(n) && MatchesAt(t, i, Text(n)) && EndsAt(t, i + |Text(n)|, n)
    requires n.negative || n.whole != []
    ensures AllDigits(n.whole + n.places)
    ensures NumberAt(t, i)
         == (Evaluate(Spelled(0, n.whole + n.places), if n.negative then -1 else 1, |n.places|, ExponentValue(n.exponent)),
             i + |Text(n)|)
  {
    hide Digits, Spelled, MatchesAt, WholeAt, FractionAt, ExponentAt, Evaluate, EndsAt;
    var lead := if n.negative then Ascii("-") else [];
    var rest := PlacesText(n) + ExponentText(n.exponent);
    var j := i + |lead|;
    MatchesSplit(t, i, lead, n.whole + rest);
    MatchesSplit(t, j, n.whole, rest);
    MatchesSplit(t, j + |n.whole|, PlacesText(n), ExponentText(n.exponent));
    if n.negative {
      MatchesPeek(t, i, lead, 0);
    } else {
      MatchesPeek(t, i, n.whole, 0);
    }
    WholeEnds(t, j + |n.whole|, n);
    WholeRead(t, j, n);
    PlacesRead(t, j + |n.whole|, n, Spelled(0, n.whole));
    ExponentRead(t, j + |n.whole| + |PlacesText(n)|, n);
    SpelledBoth(0, n.whole, n.places);
  }

  /** What becomes of the digits: an integer below 2^64 is the product with the sign modulo 2^64. */
  lemma EvaluateMeans(m: nat, negative: bool, places: nat, exponent: int)
    ensures var sign := if negative then -1 else 1;
            Evaluate(m, sign, places, exponent)
            == if places != 0 || exponent != 0 then Float(m, places, exponent, sign)
               else if m > 0xFFFF_FFFF_FFFF_FFFF then WideInt(m, sign)
               else if negative && m > 0 then Int(0x1_0000_0000_0000_0000 - m, sign)
               else Int(m, sign)
  {
  }

  /** An integer literal, one leading zero or none, comes out as the integer its digits spell exactly when it is not
      below -2^63 nor past 2^64. */
  lemma IntegerIsExact(t: seq<byte>, i: nat, s: seq<byte>, negative: bool)
    requires AllDigits(s) && s != [] && (|s| >= 2 ==> s[0] != 0x30 || s[1] != 0x30)
    requires MatchesAt(t, i, (if negative then Ascii("-") else []) + s)
    requires !Continues(t, i + |(if negative then Ascii("-") else []) + s|)
    ensures var n, m := NumberAt(t, i).0, Spelled(0, s);
            n.Int? && Meaning(n.value, n.sign) == (if negative then -(m as int) else m)
            <==> m < 0x1_0000_0000_0000_0000 && (negative ==> m <= 0x8000_0000_0000_0000)
  {
    hide MatchesAt, Spelled, NumberAt, Evaluate;
    var n := NumberText(negative, s, [], None);
    assert s + ([] + []) == s && s + [] == s;
    assert Text(n) == (if negative then Ascii("-") else []) + s;
    NumberRead(t, i, n);
    EvaluateMeans(Spelled(0, s), negative, 0, 0);
  }
}
