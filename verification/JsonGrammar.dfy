/** The texts that `cJSON_Parse` takes, the values they stand for, and where it stops at any other (cJSON.c:404-555, 627-686).

The grammar says where tokens and blanks stand; it does not look for them as the parser does. What a string literal
or a number spells is said in `JsonEscapes` and `JsonNumbers`.
 */
module JsonGrammar {
  import opened Bytes
  import opened JsonInteger
  import opened JsonString
  import opened JsonText

  predicate IsBlank(b: byte) {
    0 < b <= 32
  }

  /** From `a` there are blanks up to `b`, and none at `b`. */
  predicate NextAt(t: seq<byte>, a: nat, b: nat) {
    a <= b <= |t| && (forall k :: a <= k < b ==> IsBlank(t[k])) && !IsBlank(Peek(t, b))
  }

  // ----- values -----

  /** The value stands in the text from `i` to `p`. */
  ghost predicate Stands(t: seq<byte>, i: nat, v: Value, p: nat)
    decreases v, 2
  {
    match v
    case Null => MatchesAt(t, i, Ascii("null")) && p == i + 4
    case False => MatchesAt(t, i, Ascii("false")) && p == i + 5
    case True => MatchesAt(t, i, Ascii("true")) && p == i + 4
    case Str(s) => Peek(t, i) == 0x22 && StringAt(t, i) == Parsed(s, p)
    case Num(n) => (Peek(t, i) == 0x2D || 0x30 <= Peek(t, i) <= 0x39) && NumberAt(t, i) == (n, p)
    case Arr(items) => Peek(t, i) == 0x5B && BracketsStand(t, i + 1, items, p)
    case Obj(members) => Peek(t, i) == 0x7B && BracesStand(t, i + 1, members, p)
  }

  /** Behind the opening bracket. */
  ghost predicate BracketsStand(t: seq<byte>, i: nat, items: seq<Value>, p: nat)
    decreases items, 3
  {
    if items == [] then exists j: nat :: NextAt(t, i, j) && Peek(t, j) == 0x5D && p == j + 1 else ElementsNext(t, i, items, p)
  }

  /** Behind the opening brace. */
  ghost predicate BracesStand(t: seq<byte>, i: nat, members: seq<Member>, p: nat)
    decreases members, 3
  {
    if members == [] then exists j: nat :: NextAt(t, i, j) && Peek(t, j) == 0x7D && p == j + 1 else MembersNext(t, i, members, p)
  }

  /** Blanks and then elements. */
  ghost predicate ElementsNext(t: seq<byte>, i: nat, items: seq<Value>, p: nat)
    requires items != []
    decreases items, 2
  {
    exists j: nat :: NextAt(t, i, j) && ElementsStand(t, j, items, p)
  }

  /** Elements with commas between them, and the bracket; blanks anywhere between. */
  ghost predicate ElementsStand(t: seq<byte>, i: nat, items: seq<Value>, p: nat)
    requires items != []
    decreases items, 1
  {
    exists q: nat, r: nat ::
      && Stands(t, i, items[0], q) && NextAt(t, q, r)
      && if |items| == 1 then Peek(t, r) == 0x5D && p == r + 1
         else Peek(t, r) == 0x2C && ElementsNext(t, r + 1, items[1..], p)
  }

  /** A name, a colon, a value; blanks before and behind the colon. */
  ghost predicate MemberStands(t: seq<byte>, i: nat, m: Member, p: nat)
    decreases m, 3
  {
    exists a: nat, b: nat, c: nat ::
      && StringAt(t, i) == Parsed(m.name, a) && NextAt(t, a, b) && Peek(t, b) == 0x3A
      && NextAt(t, b + 1, c) && Stands(t, c, m.value, p)
  }

  ghost predicate MembersNext(t: seq<byte>, i: nat, members: seq<Member>, p: nat)
    requires members != []
    decreases members, 2
  {
    exists j: nat :: NextAt(t, i, j) && MembersStand(t, j, members, p)
  }

  /** Members with commas between them, and the brace. */
  ghost predicate MembersStand(t: seq<byte>, i: nat, members: seq<Member>, p: nat)
    requires members != []
    decreases members, 1
  {
    exists q: nat, r: nat ::
      && MemberStands(t, i, members[0], q) && NextAt(t, q, r)
      && if |members| == 1 then Peek(t, r) == 0x7D && p == r + 1
         else Peek(t, r) == 0x2C && MembersNext(t, r + 1, members[1..], p)
  }

  // ----- failures -----

  predicate NoValueAt(t: seq<byte>, i: nat) {
    && !MatchesAt(t, i, Ascii("null")) && !MatchesAt(t, i, Ascii("false")) && !MatchesAt(t, i, Ascii("true"))
    && Peek(t, i) !in {0x22, 0x2D, 0x5B, 0x7B} && !(0x30 <= Peek(t, i) <= 0x39)
  }

  /** Reading a value at `i` goes well up to `at`, where no token stands that may. */
  ghost predicate Stuck(t: seq<byte>, i: nat, at: nat)
    requires i <= |t|
    decreases |t| - i, 1
  {
    || (NoValueAt(t, i) && at == i)
    || (Peek(t, i) == 0x5B && i < |t| && ElementsNextStuck(t, i + 1, 0x5D, at))
    || (Peek(t, i) == 0x7B && i < |t| && MembersNextStuck(t, i + 1, 0x7D, at))
  }

  /** Blanks, then elements, or the closing bracket if that may stand there: 0 says that it may not. */
  ghost predicate ElementsNextStuck(t: seq<byte>, i: nat, close: byte, at: nat)
    requires i <= |t|
    decreases |t| - i, 3
  {
    exists j: nat :: NextAt(t, i, j) && (close != 0 ==> Peek(t, j) != close) && ElementsStuck(t, j, at)
  }

  ghost predicate ElementsStuck(t: seq<byte>, i: nat, at: nat)
    requires i <= |t|
    decreases |t| - i, 2
  {
    || Stuck(t, i, at)
    || (exists v, q: nat, r: nat ::
          && i < q && Stands(t, i, v, q) && NextAt(t, q, r)
          && if Peek(t, r) == 0x2C && r < |t| then ElementsNextStuck(t, r + 1, 0, at) else Peek(t, r) != 0x5D && at == r)
  }

  ghost predicate MemberStuck(t: seq<byte>, i: nat, at: nat)
    requires i <= |t|
    decreases |t| - i, 2
  {
    || (Peek(t, i) != 0x22 && at == i)
    || (exists name, a: nat, b: nat ::
          && i < a && StringAt(t, i) == Parsed(name, a) && NextAt(t, a, b)
          && if Peek(t, b) == 0x3A && b < |t| then ValueNextStuck(t, b + 1, at) else at == b)
  }

  ghost predicate ValueNextStuck(t: seq<byte>, i: nat, at: nat)
    requires i <= |t|
    decreases |t| - i, 2
  {
    exists j: nat :: NextAt(t, i, j) && Stuck(t, j, at)
  }

  ghost predicate MembersNextStuck(t: seq<byte>, i: nat, close: byte, at: nat)
    requires i <= |t|
    decreases |t| - i, 4
  {
    exists j: nat :: NextAt(t, i, j) && (close != 0 ==> Peek(t, j) != close) && MembersStuck(t, j, at)
  }

  ghost predicate MembersStuck(t: seq<byte>, i: nat, at: nat)
    requires i <= |t|
    decreases |t| - i, 3
  {
    || MemberStuck(t, i, at)
    || (exists m, q: nat, r: nat ::
          && i < q && MemberStands(t, i, m, q) && NextAt(t, q, r)
          && if Peek(t, r) == 0x2C && r < |t| then MembersNextStuck(t, r + 1, 0, at) else Peek(t, r) != 0x7D && at == r)
  }

  // ----- the parser finds what stands there -----

  lemma {:induction false} NextIs(t: seq<byte>, a: nat, b: nat)
    requires a <= |t|
    ensures NextAt(t, a, b) <==> b == Skip(t, a)
    decreases |t| - a
  {
    if a < |t| && IsBlank(t[a]) {
      NextIs(t, a + 1, b);
      assert NextAt(t, a, b) ==> b > a && NextAt(t, a + 1, b);
      assert NextAt(t, a + 1, b) ==> NextAt(t, a, b);
    }
  }

  lemma NextOnly(t: seq<byte>, a: nat)
    requires a <= |t|
    ensures forall b: nat :: NextAt(t, a, b) <==> b == Skip(t, a)
  {
    hide NextAt, Skip;
    forall b: nat
      ensures NextAt(t, a, b) <==> b == Skip(t, a)
    {
      NextIs(t, a, b);
    }
  }

  /** The first byte decides which parser runs. */
  lemma First(t: seq<byte>, i: nat)
    ensures NULL_TEXT == Ascii("null") && FALSE_TEXT == Ascii("false") && TRUE_TEXT == Ascii("true")
    ensures MatchesAt(t, i, NULL_TEXT) ==> Peek(t, i) == 0x6E
    ensures MatchesAt(t, i, FALSE_TEXT) ==> Peek(t, i) == 0x66
    ensures MatchesAt(t, i, TRUE_TEXT) ==> Peek(t, i) == 0x74
    ensures IsDigit(Peek(t, i)) <==> 0x30 <= Peek(t, i) <= 0x39
  {
    FirstByte(t, i, NULL_TEXT);
    FirstByte(t, i, FALSE_TEXT);
    FirstByte(t, i, TRUE_TEXT);
  }

  lemma {:induction false} StandsIff(t: seq<byte>, i: nat, v: Value, p: nat)
    requires i <= |t|
    ensures Stands(t, i, v, p) <==> ParseValue(t, i) == Got(v, p)
    decreases v, 4
  {
    hide MatchesAt, StringAt, NumberAt, Skip, BracketsStand, BracesStand, ParseElements, ParseMembers;
    First(t, i);
    match v
    case Arr(items) =>
      if Peek(t, i) == 0x5B {
        BracketsIff(t, i + 1, items, p);
        NoElements(t, Skip(t, i + 1));
      }
    case Obj(members) =>
      if Peek(t, i) == 0x7B {
        BracesIff(t, i + 1, members, p);
        NoMembersHere(t, Skip(t, i + 1));
      }
    case _ =>
  }

  lemma ChainIs<T>(first: T, r: Outcome<seq<T>>, all: seq<T>, p: nat)
    requires all != []
    ensures Chain([first], r) == Got(all, p) <==> r == Got(all[1..], p) && first == all[0]
  {
    if r.Got? {
      assert ([first] + r.value)[1..] == r.value && all == [all[0]] + all[1..];
    }
  }

  // ----- arrays -----

  lemma NoElements(t: seq<byte>, i: nat)
    ensures ParseElements(t, i).Got? ==> ParseElements(t, i).value != []
    ensures Peek(t, i) == 0x5D ==> ParseElements(t, i) == Failed(i)
  {
    hide MatchesAt, AfterElement, Skip, StringAt, NumberAt;
    First(t, i);
  }

  lemma {:induction false} BracketsIff(t: seq<byte>, i: nat, items: seq<Value>, p: nat)
    requires i <= |t|
    ensures var j := Skip(t, i);
            BracketsStand(t, i, items, p)
            <==> if items == [] then Peek(t, j) == 0x5D && p == j + 1 else ParseElements(t, j) == Got(items, p)
    decreases items, 3
  {
    hide Skip, NextAt, ParseElements, ElementsStand;
    NextOnly(t, i);
    if items != [] {
      ElementsIff(t, Skip(t, i), items, p);
    }
  }

  lemma {:induction false} ElementsIff(t: seq<byte>, i: nat, items: seq<Value>, p: nat)
    requires i <= |t| && items != []
    ensures ElementsStand(t, i, items, p) <==> ParseElements(t, i) == Got(items, p)
    decreases items, 1
  {
    hide Skip, NextAt, Stands, ParseValue, ElementsStand, Chain;
    forall q: nat
      ensures Stands(t, i, items[0], q) <==> ParseValue(t, i) == Got(items[0], q)
    {
      StandsIff(t, i, items[0], q);
    }
    FirstElement(t, i, items, p);
    var v := ParseValue(t, i);
    if v.Got? {
      var r := Skip(t, v.pos);
      NextOnly(t, v.pos);
      ChainIs(v.value, AfterElement(t, r), items, p);
      assert ParseElements(t, i) == Chain([v.value], AfterElement(t, r));
      if Peek(t, r) == COMMA {
        NextOnly(t, r + 1);
        NoElements(t, Skip(t, r + 1));
        if |items| > 1 {
          ElementsIff(t, Skip(t, r + 1), items[1..], p);
        }
      }
    }
  }

  /** Where the first element ends, there the blanks behind it start. */
  lemma FirstElement(t: seq<byte>, i: nat, items: seq<Value>, p: nat)
    requires i <= |t| && items != []
    requires forall q: nat :: Stands(t, i, items[0], q) <==> ParseValue(t, i) == Got(items[0], q)
    ensures var v := ParseValue(t, i);
            ElementsStand(t, i, items, p)
            <==> v.Got? && v.value == items[0]
                 && var r := Skip(t, v.pos);
                    if |items| == 1 then Peek(t, r) == 0x5D && p == r + 1
                    else Peek(t, r) == 0x2C && ElementsNext(t, r + 1, items[1..], p)
  {
    hide Skip, NextAt, Stands, ParseValue, ElementsNext;
    var v := ParseValue(t, i);
    if v.Got? {
      NextOnly(t, v.pos);
      if v.value == items[0] {
        assert Stands(t, i, items[0], v.pos) && NextAt(t, v.pos, Skip(t, v.pos));
      }
    }
  }

  // ----- objects -----

  lemma NoMembersHere(t: seq<byte>, i: nat)
    ensures ParseMembers(t, i).Got? ==> ParseMembers(t, i).value != []
    ensures Peek(t, i) == 0x7D ==> ParseMembers(t, i) == Failed(i)
  {
    hide AfterMember, Skip;
  }

  lemma {:induction false} BracesIff(t: seq<byte>, i: nat, members: seq<Member>, p: nat)
    requires i <= |t|
    ensures var j := Skip(t, i);
            BracesStand(t, i, members, p)
            <==> if members == [] then Peek(t, j) == 0x7D && p == j + 1 else ParseMembers(t, j) == Got(members, p)
    decreases members, 3
  {
    hide Skip, NextAt, ParseMembers, MembersStand;
    NextOnly(t, i);
    if members != [] {
      MembersIff(t, Skip(t, i), members, p);
    }
  }

  lemma {:induction false} MemberIff(t: seq<byte>, i: nat, m: Member, p: nat)
    requires i <= |t|
    ensures MemberStands(t, i, m, p) <==> ParseMember(t, i) == Got(m, p)
    decreases m, 5
  {
    hide Skip, NextAt, Stands, ParseValue, StringAt;
    var r := StringAt(t, i);
    if r.Parsed? {
      var b := Skip(t, r.pos);
      NextOnly(t, r.pos);
      if Peek(t, b) == COLON {
        var c := Skip(t, b + 1);
        NextOnly(t, b + 1);
        StandsIff(t, c, m.value, p);
        if ParseMember(t, i) == Got(m, p) {
          assert StringAt(t, i) == Parsed(m.name, r.pos) && NextAt(t, r.pos, b) && NextAt(t, b + 1, c);
        }
      }
    }
  }

  lemma {:induction false} MembersIff(t: seq<byte>, i: nat, members: seq<Member>, p: nat)
    requires i <= |t| && members != []
    ensures MembersStand(t, i, members, p) <==> ParseMembers(t, i) == Got(members, p)
    decreases members, 1
  {
    hide Skip, NextAt, MemberStands, ParseMember, MembersStand, Chain;
    forall q: nat
      ensures MemberStands(t, i, members[0], q) <==> ParseMember(t, i) == Got(members[0], q)
    {
      MemberIff(t, i, members[0], q);
    }
    FirstMember(t, i, members, p);
    var v := ParseMember(t, i);
    if v.Got? {
      var r := Skip(t, v.pos);
      NextOnly(t, v.pos);
      ChainIs(v.value, AfterMember(t, r), members, p);
      assert ParseMembers(t, i) == Chain([v.value], AfterMember(t, r));
      if Peek(t, r) == COMMA {
        NextOnly(t, r + 1);
        NoMembersHere(t, Skip(t, r + 1));
        if |members| > 1 {
          MembersIff(t, Skip(t, r + 1), members[1..], p);
        }
      }
    }
  }

  lemma FirstMember(t: seq<byte>, i: nat, members: seq<Member>, p: nat)
    requires i <= |t| && members != []
    requires forall q: nat :: MemberStands(t, i, members[0], q) <==> ParseMember(t, i) == Got(members[0], q)
    ensures var v := ParseMember(t, i);
            MembersStand(t, i, members, p)
            <==> v.Got? && v.value == members[0]
                 && var r := Skip(t, v.pos);
                    if |members| == 1 then Peek(t, r) == 0x7D && p == r + 1
                    else Peek(t, r) == 0x2C && MembersNext(t, r + 1, members[1..], p)
  {
    hide Skip, NextAt, MemberStands, ParseMember, MembersNext;
    var v := ParseMember(t, i);
    if v.Got? {
      NextOnly(t, v.pos);
      if v.value == members[0] {
        assert MemberStands(t, i, members[0], v.pos) && NextAt(t, v.pos, Skip(t, v.pos));
      }
    }
  }

  // ----- and where it stops -----

  lemma {:induction false} StuckIff(t: seq<byte>, i: nat, at: nat)
    requires i <= |t|
    ensures Stuck(t, i, at) <==> ParseValue(t, i) == Failed(at)
    decreases |t| - i, 5
  {
    hide MatchesAt, StringAt, NumberAt, Skip, ElementsNextStuck, MembersNextStuck, ParseElements, ParseMembers;
    First(t, i);
    if Peek(t, i) == 0x5B {
      ElementsNextStuckIff(t, i + 1, 0x5D, at);
    } else if Peek(t, i) == 0x7B {
      MembersNextStuckIff(t, i + 1, 0x7D, at);
    }
  }

  lemma {:induction false} ElementsNextStuckIff(t: seq<byte>, i: nat, close: byte, at: nat)
    requires i <= |t|
    ensures var j := Skip(t, i);
            ElementsNextStuck(t, i, close, at)
            <==> (close != 0 ==> Peek(t, j) != close) && ParseElements(t, j) == Failed(at)
    decreases |t| - i, 7
  {
    hide Skip, NextAt, ElementsStuck, ParseElements;
    NextOnly(t, i);
    ElementsStuckIff(t, Skip(t, i), at);
  }

  lemma {:induction false} ElementsStuckIff(t: seq<byte>, i: nat, at: nat)
    requires i <= |t|
    ensures ElementsStuck(t, i, at) <==> ParseElements(t, i) == Failed(at)
    decreases |t| - i, 6
  {
    hide Skip, NextAt, Stands, Stuck, ParseValue, ElementsStuck, ElementsNextStuck;
    StuckIff(t, i, at);
    FirstElementGood(t, i, at);
    var v := ParseValue(t, i);
    if v.Got? {
      var r := Skip(t, v.pos);
      NextOnly(t, v.pos);
      if Peek(t, r) == COMMA {
        ElementsNextStuckIff(t, r + 1, 0, at);
      }
    }
  }

  lemma FirstElementGood(t: seq<byte>, i: nat, at: nat)
    requires i <= |t|
    ensures var v := ParseValue(t, i);
            ElementsStuck(t, i, at)
            <==> || Stuck(t, i, at)
                 || (v.Got? && var r := Skip(t, v.pos);
                     if Peek(t, r) == 0x2C && r < |t| then ElementsNextStuck(t, r + 1, 0, at)
                     else Peek(t, r) != 0x5D && at == r)
  {
    hide Skip, NextAt, Stands, Stuck, ParseValue, ElementsNextStuck;
    forall v, q: nat
      ensures Stands(t, i, v, q) <==> ParseValue(t, i) == Got(v, q)
    {
      StandsIff(t, i, v, q);
    }
    var v := ParseValue(t, i);
    if v.Got? {
      NextOnly(t, v.pos);
      assert Stands(t, i, v.value, v.pos) && NextAt(t, v.pos, Skip(t, v.pos));
    }
  }

  lemma {:induction false} ValueNextStuckIff(t: seq<byte>, i: nat, at: nat)
    requires i <= |t|
    ensures ValueNextStuck(t, i, at) <==> ParseValue(t, Skip(t, i)) == Failed(at)
    decreases |t| - i, 6
  {
    hide Skip, NextAt, Stuck, ParseValue;
    NextOnly(t, i);
    StuckIff(t, Skip(t, i), at);
  }

  lemma {:induction false} MemberStuckIff(t: seq<byte>, i: nat, at: nat)
    requires i <= |t|
    ensures MemberStuck(t, i, at) <==> ParseMember(t, i) == Failed(at)
    decreases |t| - i, 6
  {
    hide Skip, NextAt, ValueNextStuck, ParseValue, Unescape;
    var r := StringAt(t, i);
    if r.Parsed? {
      var b := Skip(t, r.pos);
      NextOnly(t, r.pos);
      assert NextAt(t, r.pos, b) && StringAt(t, i) == Parsed(r.bytes, r.pos);
      if Peek(t, b) == COLON {
        ValueNextStuckIff(t, b + 1, at);
      }
    }
  }

  lemma {:induction false} MembersNextStuckIff(t: seq<byte>, i: nat, close: byte, at: nat)
    requires i <= |t|
    ensures var j := Skip(t, i);
            MembersNextStuck(t, i, close, at)
            <==> (close != 0 ==> Peek(t, j) != close) && ParseMembers(t, j) == Failed(at)
    decreases |t| - i, 8
  {
    hide Skip, NextAt, MembersStuck, ParseMembers;
    NextOnly(t, i);
    MembersStuckIff(t, Skip(t, i), at);
  }

  lemma {:induction false} MembersStuckIff(t: seq<byte>, i: nat, at: nat)
    requires i <= |t|
    ensures MembersStuck(t, i, at) <==> ParseMembers(t, i) == Failed(at)
    decreases |t| - i, 7
  {
    hide Skip, NextAt, MemberStands, MemberStuck, ParseMember, MembersStuck, MembersNextStuck;
    MemberStuckIff(t, i, at);
    FirstMemberGood(t, i, at);
    var m := ParseMember(t, i);
    if m.Got? {
      var r := Skip(t, m.pos);
      NextOnly(t, m.pos);
      if Peek(t, r) == COMMA {
        MembersNextStuckIff(t, r + 1, 0, at);
      }
    }
  }

  lemma FirstMemberGood(t: seq<byte>, i: nat, at: nat)
    requires i <= |t|
    ensures var m := ParseMember(t, i);
            MembersStuck(t, i, at)
            <==> || MemberStuck(t, i, at)
                 || (m.Got? && var r := Skip(t, m.pos);
                     if Peek(t, r) == 0x2C && r < |t| then MembersNextStuck(t, r + 1, 0, at)
                     else Peek(t, r) != 0x7D && at == r)
  {
    hide Skip, NextAt, MemberStands, MemberStuck, ParseMember, MembersNextStuck;
    forall m, q: nat
      ensures MemberStands(t, i, m, q) <==> ParseMember(t, i) == Got(m, q)
    {
      MemberIff(t, i, m, q);
    }
    var m := ParseMember(t, i);
    if m.Got? {
      NextOnly(t, m.pos);
      assert MemberStands(t, i, m.value, m.pos) && NextAt(t, m.pos, Skip(t, m.pos));
    }
  }

  // ----- whole texts -----

  /** `cJSON_Parse` finds a value exactly where one stands after blanks, and fails exactly where reading gets stuck;
      what is left are the texts with an escape that is cut off. */
  lemma ParsesWhatStands(t: seq<byte>, v: Value, p: nat)
    ensures ParseText(t) == Got(v, p) <==> exists j: nat :: NextAt(t, 0, j) && Stands(t, j, v, p)
    ensures ParseText(t) == Failed(p) <==> ValueNextStuck(t, 0, p)
  {
    hide Skip, NextAt, Stands, ParseValue, ValueNextStuck;
    NextOnly(t, 0);
    StandsIff(t, Skip(t, 0), v, p);
    ValueNextStuckIff(t, 0, p);
  }

  /** A text has one value at most, and blanks before it and between its tokens are no part of it. */
  lemma OneValue(t: seq<byte>, i: nat, v: Value, p: nat, v': Value, p': nat)
    requires i <= |t| && Stands(t, i, v, p) && Stands(t, i, v', p')
    ensures v == v' && p == p'
  {
    StandsIff(t, i, v, p);
    StandsIff(t, i, v', p');
  }
}
