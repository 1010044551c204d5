/** JSON values, the text the printer gives them and the values the parser finds (cJSON.c:404-784). */
module JsonText {
  import opened Bytes
  import opened JsonInteger
  import opened JsonString

  datatype Value =
    | Null
    | False
    | True
    | Num(number: Number)
    | Str(bytes: seq<byte>)
    | Arr(items: seq<Value>)
    | Obj(members: seq<Member>)

  datatype Member = Member(name: seq<byte>, value: Value)

  const NULL_TEXT: seq<byte> := [0x6E, 0x75, 0x6C, 0x6C]
  const FALSE_TEXT: seq<byte> := [0x66, 0x61, 0x6C, 0x73, 0x65]
  const TRUE_TEXT: seq<byte> := [0x74, 0x72, 0x75, 0x65]

  /** No floating-point leaf, no integer past 64 bits, no NUL in a string or a name. */
  predicate Printable(v: Value)
    decreases v
  {
    match v
    case Num(n) => n.Int?
    case Str(s) => NulFree(s)
    case Arr(items) => forall k :: 0 <= k < |items| ==> Printable(items[k])
    case Obj(members) => forall k :: 0 <= k < |members| ==> NulFree(members[k].name) && Printable(members[k].value)
    case _ => true
  }

  /** The same value with every sign tag as the parser sets it. */
  function Canon(v: Value): Value
    decreases v, 1
  {
    match v
    case Num(n) => Num(Canonical(n))
    case Arr(items) => Arr(CanonItems(items))
    case Obj(members) => Obj(CanonMembers(members))
    case _ => v
  }

  function CanonItems(items: seq<Value>): (c: seq<Value>)
    ensures |c| == |items|
    decreases items, 0
  {
    if items == [] then [] else [Canon(items[0])] + CanonItems(items[1..])
  }

  function CanonMembers(members: seq<Member>): (c: seq<Member>)
    ensures |c| == |members|
    decreases members, 0
  {
    if members == [] then []
    else [Member(members[0].name, Canon(members[0].value))] + CanonMembers(members[1..])
  }

  // ----- rendering -----

  function Tabs(n: nat): (s: seq<byte>)
    ensures |s| == n && forall k :: 0 <= k < n ==> s[k] == TAB
  {
    if n == 0 then [] else [TAB] + Tabs(n - 1)
  }

  function When(fmt: bool, s: seq<byte>): seq<byte> {
    if fmt then s else []
  }

  /** `print_value`. */
  function Render(v: Value, depth: nat, fmt: bool): (s: seq<byte>)
    decreases v, 1
  {
    match v
    case Null => NULL_TEXT
    case False => FALSE_TEXT
    case True => TRUE_TEXT
    case Num(n) => if n.Int? then DecimalText(Meaning(n.value, n.sign)) else []
    case Str(s) => Quoted(s)
    case Arr(items) => [LBRACKET] + RenderItems(items, depth + 1, fmt) + [RBRACKET]
    case Obj(members) =>
      [LBRACE] + When(fmt, [LF]) + RenderMembers(members, depth + 1, fmt) + Closing(depth, fmt)
  }

  function Closing(depth: nat, fmt: bool): seq<byte> {
    When(fmt, Tabs(depth)) + [RBRACE]
  }

  function Separator(fmt: bool): seq<byte> {
    [COMMA] + When(fmt, [SPACE])
  }

  function RenderItems(items: seq<Value>, depth: nat, fmt: bool): seq<byte>
    decreases items, 0
  {
    if items == [] then []
    else if |items| == 1 then Render(items[0], depth, fmt)
    else Render(items[0], depth, fmt) + (Separator(fmt) + RenderItems(items[1..], depth, fmt))
  }

  /** What stands before a member's value. */
  function MemberHead(name: seq<byte>, depth: nat, fmt: bool): seq<byte> {
    When(fmt, Tabs(depth)) + (Quoted(name) + ([COLON] + When(fmt, [TAB])))
  }

  /** What stands after a member's value. */
  function MemberTail(last: bool, fmt: bool): seq<byte> {
    When(!last, [COMMA]) + When(fmt, [LF])
  }

  function RenderMembers(members: seq<Member>, depth: nat, fmt: bool): seq<byte>
    decreases members, 0
  {
    if members == [] then []
    else MemberHead(members[0].name, depth, fmt) + (Render(members[0].value, depth, fmt)
         + (MemberTail(|members| == 1, fmt) + RenderMembers(members[1..], depth, fmt)))
  }

  // ----- parsing -----

  /** A result with the position behind it, a failure with the position `ep` reports,
      or a literal cut off inside an escape, for which no result is defined. */
  datatype Outcome<T> = Got(value: T, pos: nat) | Failed(at: nat) | Undefined

  /** `parse_value`. */
  function ParseValue(t: seq<byte>, i: nat): (r: Outcome<Value>)
    ensures r.Got? ==> i < r.pos <= |t|
    ensures r.Failed? && i <= |t| ==> i <= r.at <= |t|
    decreases |t| - i, 1
  {
    if MatchesAt(t, i, NULL_TEXT) then Got(Null, i + 4)
    else if MatchesAt(t, i, FALSE_TEXT) then Got(False, i + 5)
    else if MatchesAt(t, i, TRUE_TEXT) then Got(True, i + 4)
    else if Peek(t, i) == QUOTE then
      var r := StringAt(t, i);
      if r.Parsed? then Got(Str(r.bytes), r.pos) else Undefined
    else if Peek(t, i) == MINUS || IsDigit(Peek(t, i)) then
      var (n, j) := NumberAt(t, i);
      Got(Num(n), j)
    else if Peek(t, i) == LBRACKET then ParseArray(t, i)
    else if Peek(t, i) == LBRACE then ParseObject(t, i)
    else Failed(i)
  }

  /** `parse_array`, behind its first test. */
  function ParseArray(t: seq<byte>, i: nat): (r: Outcome<Value>)
    requires i < |t|
    ensures r.Got? ==> i < r.pos <= |t|
    ensures r.Failed? ==> i <= r.at <= |t|
    decreases |t| - i, 0
  {
    var j := Skip(t, i + 1);
    if Peek(t, j) == RBRACKET then Got(Arr([]), j + 1)
    else AsArray(ParseElements(t, j))
  }

  /** `parse_object`, behind its first test. */
  function ParseObject(t: seq<byte>, i: nat): (r: Outcome<Value>)
    requires i < |t|
    ensures r.Got? ==> i < r.pos <= |t|
    ensures r.Failed? ==> i <= r.at <= |t|
    decreases |t| - i, 0
  {
    var j := Skip(t, i + 1);
    if Peek(t, j) == RBRACE then Got(Obj([]), j + 1)
    else AsObject(ParseMembers(t, j))
  }

  function AsArray(r: Outcome<seq<Value>>): Outcome<Value> {
    match r
    case Got(items, p) => Got(Arr(items), p)
    case Failed(at) => Failed(at)
    case Undefined => Undefined
  }

  function AsObject(r: Outcome<seq<Member>>): Outcome<Value> {
    match r
    case Got(members, p) => Got(Obj(members), p)
    case Failed(at) => Failed(at)
    case Undefined => Undefined
  }

  /** A result for the rest of a list, with what stands before the rest put in front. */
  function Chain<T>(front: seq<T>, r: Outcome<seq<T>>): Outcome<seq<T>> {
    match r
    case Got(rest, p) => Got(front + rest, p)
    case Failed(at) => Failed(at)
    case Undefined => Undefined
  }

  lemma ChainTwice<T>(a: seq<T>, b: seq<T>, r: Outcome<seq<T>>)
    ensures Chain(a, Chain(b, r)) == Chain(a + b, r)
  {
    if r.Got? {
      assert a + (b + r.value) == a + b + r.value;
    }
  }

  /** The elements of an array from the one at `i` on, and the position behind the bracket. */
  function ParseElements(t: seq<byte>, i: nat): (r: Outcome<seq<Value>>)
    ensures r.Got? ==> i < r.pos <= |t|
    ensures r.Failed? && i <= |t| ==> i <= r.at <= |t|
    decreases |t| - i, 2
  {
    match ParseValue(t, i)
    case Failed(at) => Failed(at)
    case Undefined => Undefined
    case Got(v, p) => Chain([v], AfterElement(t, Skip(t, p)))
  }

  /** Behind an element: a comma and more elements, or the bracket. */
  function AfterElement(t: seq<byte>, q: nat): (r: Outcome<seq<Value>>)
    ensures r.Got? ==> q < r.pos <= |t|
    ensures r.Failed? && q <= |t| ==> q <= r.at <= |t|
    decreases |t| - q, 3
  {
    if Peek(t, q) == COMMA then ParseElements(t, Skip(t, q + 1))
    else if Peek(t, q) == RBRACKET then Got([], q + 1)
    else Failed(q)
  }

  /** One member: its name, a colon and its value. */
  function ParseMember(t: seq<byte>, i: nat): (r: Outcome<Member>)
    ensures r.Got? ==> i < r.pos <= |t|
    ensures r.Failed? && i <= |t| ==> i <= r.at <= |t|
    decreases |t| - i, 2
  {
    var r := StringAt(t, i);
    if r.NotAString? then Failed(i)
    else if r.Incomplete? then Undefined
    else
      var q := Skip(t, r.pos);
      if Peek(t, q) != COLON then Failed(q)
      else AsMember(r.bytes, ParseValue(t, Skip(t, q + 1)))
  }

  function AsMember(name: seq<byte>, r: Outcome<Value>): Outcome<Member> {
    match r
    case Got(v, p) => Got(Member(name, v), p)
    case Failed(at) => Failed(at)
    case Undefined => Undefined
  }

  /** The members of an object from the one at `i` on, and the position behind the brace. */
  function ParseMembers(t: seq<byte>, i: nat): (r: Outcome<seq<Member>>)
    ensures r.Got? ==> i < r.pos <= |t|
    ensures r.Failed? && i <= |t| ==> i <= r.at <= |t|
    decreases |t| - i, 3
  {
    match ParseMember(t, i)
    case Failed(at) => Failed(at)
    case Undefined => Undefined
    case Got(m, p) => Chain([m], AfterMember(t, Skip(t, p)))
  }

  /** Behind a member: a comma and more members, or the brace. */
  function AfterMember(t: seq<byte>, q: nat): (r: Outcome<seq<Member>>)
    ensures r.Got? ==> q < r.pos <= |t|
    ensures r.Failed? && q <= |t| ==> q <= r.at <= |t|
    decreases |t| - q, 4
  {
    if Peek(t, q) == COMMA then ParseMembers(t, Skip(t, q + 1))
    else if Peek(t, q) == RBRACE then Got([], q + 1)
    else Failed(q)
  }

  /** `cJSON_Parse`: one value after leading white space; what follows it is not looked at. */
  function ParseText(t: seq<byte>): Outcome<Value> {
    ParseValue(t, Skip(t, 0))
  }

  // ----- round trip -----

  lemma Matches3(t: seq<byte>, i: nat, a: seq<byte>, b: seq<byte>, c: seq<byte>)
    requires MatchesAt(t, i, a + (b + c))
    ensures MatchesAt(t, i, a) && MatchesAt(t, i + |a|, b) && MatchesAt(t, i + |a| + |b|, c)
  {
    MatchesSplit(t, i, a, b + c);
    MatchesSplit(t, i + |a|, b, c);
  }

  lemma {:induction false} SkipOver(t: seq<byte>, i: nat, blanks: seq<byte>)
    requires MatchesAt(t, i, blanks) && forall k :: 0 <= k < |blanks| ==> blanks[k] != NUL && blanks[k] <= 32
    requires Peek(t, i + |blanks|) == NUL || Peek(t, i + |blanks|) > 32
    ensures Skip(t, i) == i + |blanks|
    decreases |blanks|
  {
    if blanks != [] {
      assert blanks == [blanks[0]] + blanks[1..];
      MatchesSplit(t, i, [blanks[0]], blanks[1..]);
      MatchesPeek(t, i, blanks, 0);
      SkipOver(t, i + 1, blanks[1..]);
    }
  }

  predicate Visible(b: byte) {
    b > 32 && b != RBRACKET && b != RBRACE
  }

  lemma RenderFirst(v: Value, depth: nat, fmt: bool)
    requires Printable(v)
    ensures |Render(v, depth, fmt)| > 0 && Visible(Render(v, depth, fmt)[0])
  {
    if v.Num? {
      DecimalFirst(Meaning(v.number.value, v.number.sign));
    }
  }

  lemma DecimalFirst(x: int)
    ensures |DecimalText(x)| > 0 && Visible(DecimalText(x)[0])
    decreases if x < 0 then 1 - x else x
  {
    if x >= 10 {
      DecimalFirst(x / 10);
    }
  }

  /** Only the end of a number depends on what follows. */
  predicate EndsAt(v: Value, t: seq<byte>, j: nat) {
    v.Num? ==> !Continues(t, j)
  }

  lemma FirstByte(t: seq<byte>, i: nat, s: seq<byte>)
    requires |s| > 0
    ensures MatchesAt(t, i, s) ==> Peek(t, i) == s[0]
  {
    if MatchesAt(t, i, s) {
      MatchesPeek(t, i, s, 0);
    }
  }

  /** The first byte decides which parser runs. */
  lemma Dispatch(t: seq<byte>, i: nat)
    requires i < |t|
    ensures t[i] == LBRACKET ==> ParseValue(t, i) == ParseArray(t, i)
    ensures t[i] == LBRACE ==> ParseValue(t, i) == ParseObject(t, i)
    ensures t[i] == QUOTE && StringAt(t, i).Parsed? ==>
              ParseValue(t, i) == Got(Str(StringAt(t, i).bytes), StringAt(t, i).pos)
    ensures t[i] == MINUS || IsDigit(t[i]) ==> ParseValue(t, i) == Got(Num(NumberAt(t, i).0), NumberAt(t, i).1)
  {
    FirstByte(t, i, NULL_TEXT);
    FirstByte(t, i, FALSE_TEXT);
    FirstByte(t, i, TRUE_TEXT);
  }

  lemma KeywordRoundTrip(t: seq<byte>, i: nat, v: Value)
    requires v.Null? || v.False? || v.True?
    requires MatchesAt(t, i, Render(v, 0, false))
    ensures ParseValue(t, i) == Got(v, i + |Render(v, 0, false)|)
  {
    FirstByte(t, i, NULL_TEXT);
    FirstByte(t, i, FALSE_TEXT);
    FirstByte(t, i, TRUE_TEXT);
  }

  lemma PunctuationEnds(t: seq<byte>, j: nat)
    requires Peek(t, j) == COMMA || Peek(t, j) == RBRACKET || Peek(t, j) == RBRACE || Peek(t, j) == LF
    ensures !Continues(t, j)
  {
  }

  /** Parsing undoes printing, at every depth, in both modes, before any rest that does not continue a number. */
  lemma {:induction false} ValueRoundTrip(t: seq<byte>, i: nat, v: Value, depth: nat, fmt: bool)
    requires Printable(v) && MatchesAt(t, i, Render(v, depth, fmt))
    requires EndsAt(v, t, i + |Render(v, depth, fmt)|)
    ensures ParseValue(t, i) == Got(Canon(v), i + |Render(v, depth, fmt)|)
    decreases v, 1
  {
    match v
    case Null =>
      KeywordRoundTrip(t, i, v);
    case False =>
      KeywordRoundTrip(t, i, v);
    case True =>
      KeywordRoundTrip(t, i, v);
    case Num(n) =>
      IntRoundTrip(t, i, n.value, n.sign);
      Dispatch(t, i);
    case Str(s) =>
      StringRoundTrip(t, i, s);
      Dispatch(t, i);
    case Arr(items) =>
      ArrayRoundTrip(t, i, items, depth, fmt);
    case Obj(members) =>
      ObjectRoundTrip(t, i, members, depth, fmt);
  }

  lemma {:induction false} ArrayRoundTrip(t: seq<byte>, i: nat, items: seq<Value>, depth: nat, fmt: bool)
    requires Printable(Arr(items)) && MatchesAt(t, i, Render(Arr(items), depth, fmt))
    ensures ParseValue(t, i) == Got(Canon(Arr(items)), i + |Render(Arr(items), depth, fmt)|)
    decreases items, 2
  {
    var body := RenderItems(items, depth + 1, fmt);
    MatchesSplit(t, i, [LBRACKET] + body, [RBRACKET]);
    MatchesSplit(t, i, [LBRACKET], body);
    MatchesPeek(t, i, [LBRACKET], 0);
    MatchesPeek(t, i + 1 + |body|, [RBRACKET], 0);
    if items != [] {
      ItemsRoundTrip(t, i + 1, items, depth + 1, fmt);
    }
    assert Skip(t, i + 1) == i + 1;
    Dispatch(t, i);
  }

  lemma {:induction false} ItemsRoundTrip(t: seq<byte>, i: nat, items: seq<Value>, depth: nat, fmt: bool)
    requires |items| > 0 && Printable(Arr(items))
    requires MatchesAt(t, i, RenderItems(items, depth, fmt))
    requires Peek(t, i + |RenderItems(items, depth, fmt)|) == RBRACKET
    ensures Visible(Peek(t, i))
    ensures ParseElements(t, i) == Got(CanonItems(items), i + |RenderItems(items, depth, fmt)| + 1)
    decreases items, 0
  {
    hide MatchesAt, ParseValue, ParseElements, Skip, Continues, Render, Peek;
    var first, rest := Render(items[0], depth, fmt), items[1..];
    var after := i + |first|;
    RenderFirst(items[0], depth, fmt);
    if |items| > 1 {
      Matches3(t, i, first, Separator(fmt), RenderItems(rest, depth, fmt));
      ItemsRoundTrip(t, after + |Separator(fmt)|, rest, depth, fmt);
      SeparatorSkip(t, after, fmt);
    }
    FirstByte(t, i, first);
    PunctuationEnds(t, after);
    ValueRoundTrip(t, i, items[0], depth, fmt);
    ElementsStep(t, i, Canon(items[0]), after);
    if |items| == 1 {
      assert CanonItems(items) == [Canon(items[0])];
    } else {
      assert CanonItems(items) == [Canon(items[0])] + CanonItems(rest);
    }
  }

  /** One element, and what decides whether another follows. */
  lemma ElementsStep(t: seq<byte>, i: nat, v: Value, p: nat)
    requires ParseValue(t, i) == Got(v, p)
    ensures Peek(t, p) == RBRACKET ==> ParseElements(t, i) == Got([v], p + 1)
    ensures Peek(t, p) == COMMA ==>
              ParseElements(t, i) == Chain([v], ParseElements(t, Skip(t, p + 1)))
  {
    hide ParseValue, ParseArray, ParseObject;
    assert [v] + [] == [v];
  }

  lemma SeparatorSkip(t: seq<byte>, i: nat, fmt: bool)
    requires MatchesAt(t, i, Separator(fmt)) && Visible(Peek(t, i + |Separator(fmt)|))
    ensures Peek(t, i) == COMMA && Skip(t, i + 1) == i + |Separator(fmt)|
  {
    MatchesSplit(t, i, [COMMA], When(fmt, [SPACE]));
    MatchesPeek(t, i, [COMMA], 0);
    SkipOver(t, i + 1, When(fmt, [SPACE]));
  }

  lemma {:induction false} ObjectRoundTrip(t: seq<byte>, i: nat, members: seq<Member>, depth: nat, fmt: bool)
    requires Printable(Obj(members)) && MatchesAt(t, i, Render(Obj(members), depth, fmt))
    ensures ParseValue(t, i) == Got(Canon(Obj(members)), i + |Render(Obj(members), depth, fmt)|)
    decreases members, 2
  {
    hide MatchesAt, ParseMembers, RenderMembers, Skip;
    var body := RenderMembers(members, depth + 1, fmt);
    var start := i + 1 + |When(fmt, [LF])|;
    MatchesSplit(t, i, [LBRACE] + When(fmt, [LF]) + body, Closing(depth, fmt));
    MatchesSplit(t, i, [LBRACE] + When(fmt, [LF]), body);
    MatchesSplit(t, i, [LBRACE], When(fmt, [LF]));
    MatchesPeek(t, i, [LBRACE], 0);
    MembersRoundTrip(t, start, members, depth, fmt);
    SkipBlank(t, i + 1, When(fmt, [LF]));
    Dispatch(t, i);
    assert Skip(t, i + 1) == Skip(t, start);
  }

  /** A blank in front does not matter to `skip`. */
  lemma SkipBlank(t: seq<byte>, i: nat, blank: seq<byte>)
    requires MatchesAt(t, i, blank) && (blank == [] || blank == [LF])
    ensures Skip(t, i) == Skip(t, i + |blank|)
  {
    if blank == [LF] {
      MatchesPeek(t, i, blank, 0);
    }
  }

  lemma ClosingSkip(t: seq<byte>, i: nat, depth: nat, fmt: bool)
    requires MatchesAt(t, i, Closing(depth, fmt))
    ensures Skip(t, i) == i + |Closing(depth, fmt)| - 1 && Peek(t, Skip(t, i)) == RBRACE
  {
    MatchesSplit(t, i, When(fmt, Tabs(depth)), [RBRACE]);
    MatchesPeek(t, i + |When(fmt, Tabs(depth))|, [RBRACE], 0);
    SkipOver(t, i, When(fmt, Tabs(depth)));
  }

  lemma ClosingFirst(t: seq<byte>, i: nat, depth: nat)
    requires MatchesAt(t, i, Closing(depth, false))
    ensures Peek(t, i) == RBRACE
  {
    MatchesPeek(t, i, Closing(depth, false), 0);
  }

  lemma NoTail()
    ensures MemberTail(true, false) == []
  {
  }

  lemma NoMembers(depth: nat, fmt: bool)
    ensures RenderMembers([], depth, fmt) == []
  {
  }

  /** Where the parts of the first member and the other members stand. */
  lemma MembersLayout(t: seq<byte>, i: nat, members: seq<Member>, depth: nat, fmt: bool)
    requires |members| > 0 && MatchesAt(t, i, RenderMembers(members, depth, fmt))
    ensures var after := i + |MemberHead(members[0].name, depth, fmt)| + |Render(members[0].value, depth, fmt)|;
            var tail := MemberTail(|members| == 1, fmt);
            && MatchesAt(t, i, MemberHead(members[0].name, depth, fmt))
            && MatchesAt(t, i + |MemberHead(members[0].name, depth, fmt)|, Render(members[0].value, depth, fmt))
            && MatchesAt(t, after, tail)
            && MatchesAt(t, after + |tail|, RenderMembers(members[1..], depth, fmt))
            && after + |tail| + |RenderMembers(members[1..], depth, fmt)| == i + |RenderMembers(members, depth, fmt)|
  {
    hide MatchesAt, Render, MemberHead, MemberTail;
    var head, text := MemberHead(members[0].name, depth, fmt), Render(members[0].value, depth, fmt);
    var tail, more := MemberTail(|members| == 1, fmt), RenderMembers(members[1..], depth, fmt);
    MatchesSplit(t, i, head, text + (tail + more));
    Matches3(t, i + |head|, text, tail, more);
  }

  /** The members and the closing brace, entered before the indentation. */
  lemma {:induction false} MembersRoundTrip(t: seq<byte>, i: nat, members: seq<Member>, depth: nat, fmt: bool)
    requires Printable(Obj(members)) && MatchesAt(t, i, RenderMembers(members, depth + 1, fmt))
    requires MatchesAt(t, i + |RenderMembers(members, depth + 1, fmt)|, Closing(depth, fmt))
    ensures var j := Skip(t, i); var end := i + |RenderMembers(members, depth + 1, fmt)| + |Closing(depth, fmt)|;
            if members == [] then Peek(t, j) == RBRACE && j + 1 == end
            else Peek(t, j) == QUOTE && ParseMembers(t, j) == Got(CanonMembers(members), end)
    decreases members, 0
  {
    hide MatchesAt, Skip, ParseValue, ParseMember, ParseMembers, Render, RenderMembers, MemberHead, MemberTail, Closing, Continues,
         Peek, StringAt, Canon, NulFree;
    if members == [] {
      assert RenderMembers(members, depth + 1, fmt) == [] by { NoMembers(depth + 1, fmt); }
      ClosingSkip(t, i, depth, fmt);
    } else {
      var m, rest, last := members[0], members[1..], |members| == 1;
      var head, tail := MemberHead(m.name, depth + 1, fmt), MemberTail(last, fmt);
      var after := i + |head| + |Render(m.value, depth + 1, fmt)|;
      MembersLayout(t, i, members, depth + 1, fmt);
      MembersRoundTrip(t, after + |tail|, rest, depth, fmt);
      TailSkip(t, after, last, fmt);
      if last && !fmt {
        NoMembers(depth + 1, fmt);
        assert tail == [] by { NoTail(); }
        ClosingFirst(t, after, depth);
      }
      PunctuationEnds(t, after);
      ValueRoundTrip(t, i + |head|, m.value, depth + 1, fmt);
      MemberRoundTrip(t, i, m, depth + 1, fmt);
      MembersStep(t, Skip(t, i), Member(m.name, Canon(m.value)), after);
      if last {
        assert CanonMembers(members) == [Member(m.name, Canon(m.value))];
      } else {
        assert CanonMembers(members) == [Member(m.name, Canon(m.value))] + CanonMembers(rest);
      }
    }
  }

  /** One member, and what decides whether another follows. */
  lemma MembersStep(t: seq<byte>, i: nat, m: Member, p: nat)
    requires ParseMember(t, i) == Got(m, p)
    ensures Peek(t, Skip(t, p)) == RBRACE ==> ParseMembers(t, i) == Got([m], Skip(t, p) + 1)
    ensures Peek(t, Skip(t, p)) == COMMA ==>
              ParseMembers(t, i) == Chain([m], ParseMembers(t, Skip(t, Skip(t, p) + 1)))
  {
    hide ParseMember, Skip;
    assert [m] + [] == [m];
  }

  /** Behind a value stands a comma, or what follows the members. */
  lemma TailSkip(t: seq<byte>, i: nat, last: bool, fmt: bool)
    requires MatchesAt(t, i, MemberTail(last, fmt))
    ensures !last ==> Peek(t, i) == COMMA && Skip(t, i) == i && Skip(t, i + 1) == Skip(t, i + |MemberTail(last, fmt)|)
    ensures last ==> Skip(t, i) == Skip(t, i + |MemberTail(last, fmt)|)
    ensures last && fmt ==> Peek(t, i) == LF
  {
    MatchesSplit(t, i, When(!last, [COMMA]), When(fmt, [LF]));
    if !last {
      MatchesPeek(t, i, [COMMA], 0);
      SkipBlank(t, i + 1, When(fmt, [LF]));
    } else {
      SkipBlank(t, i, When(fmt, [LF]));
      if fmt {
        MatchesPeek(t, i, [LF], 0);
      }
    }
  }

  /** The name, the colon and the blanks around them, up to a visible byte. */
  lemma HeadSkip(t: seq<byte>, i: nat, name: seq<byte>, depth: nat, fmt: bool)
    requires NulFree(name) && MatchesAt(t, i, MemberHead(name, depth, fmt))
    requires Visible(Peek(t, i + |MemberHead(name, depth, fmt)|))
    ensures Peek(t, Skip(t, i)) == QUOTE
    ensures StringAt(t, Skip(t, i)).Parsed? && StringAt(t, Skip(t, i)).bytes == name
    ensures var q := Skip(t, StringAt(t, Skip(t, i)).pos);
            Peek(t, q) == COLON && Skip(t, q + 1) == i + |MemberHead(name, depth, fmt)|
  {
    hide MatchesAt, StringAt, Escape, Tabs;
    var indent, quoted, blank := When(fmt, Tabs(depth)), Quoted(name), When(fmt, [TAB]);
    Matches3(t, i, indent, quoted, [COLON] + blank);
    var colon := i + |indent| + |quoted|;
    MatchesSplit(t, colon, [COLON], blank);
    MatchesPeek(t, i + |indent|, quoted, 0);
    MatchesPeek(t, colon, [COLON], 0);
    SkipOver(t, i, indent);
    assert Skip(t, i) == i + |indent|;
    StringRoundTrip(t, i + |indent|, name);
    assert StringAt(t, Skip(t, i)) == Parsed(name, colon);
    assert Skip(t, colon) == colon;
    SkipOver(t, colon + 1, blank);
  }

  /** The name and the colon, given that the value behind them reads back. */
  lemma MemberRoundTrip(t: seq<byte>, i: nat, m: Member, depth: nat, fmt: bool)
    requires NulFree(m.name) && Printable(m.value)
    requires MatchesAt(t, i, MemberHead(m.name, depth, fmt))
    requires var start := i + |MemberHead(m.name, depth, fmt)|;
             MatchesAt(t, start, Render(m.value, depth, fmt))
             && ParseValue(t, start) == Got(Canon(m.value), start + |Render(m.value, depth, fmt)|)
    ensures Peek(t, Skip(t, i)) == QUOTE
    ensures ParseMember(t, Skip(t, i))
         == Got(Member(m.name, Canon(m.value)), i + |MemberHead(m.name, depth, fmt)| + |Render(m.value, depth, fmt)|)
  {
    hide MemberHead, StringAt, MatchesAt, ParseValue, Skip, Render, Printable, NulFree, Canon;
    RenderFirst(m.value, depth, fmt);
    MatchesPeek(t, i + |MemberHead(m.name, depth, fmt)|, Render(m.value, depth, fmt), 0);
    HeadSkip(t, i, m.name, depth, fmt);
  }

  /** Both modes print texts that parse to one and the same value. */
  lemma ModesAgree(v: Value, rest: seq<byte>, fmt: bool)
    requires Printable(v) && EndsAt(v, rest, 0)
    ensures ParseText(Render(v, 0, fmt) + rest) == Got(Canon(v), |Render(v, 0, fmt)|)
  {
    var s := Render(v, 0, fmt);
    var t := s + rest;
    RenderFirst(v, 0, fmt);
    assert t[0..|s|] == s && t[0] == s[0];
    assert Peek(t, |s|) == Peek(rest, 0) && Peek(t, |s| + 1) == Peek(rest, 1);
    ValueRoundTrip(t, 0, v, 0, fmt);
  }

  // ----- what the parser returns -----

  predicate IntegersOnly(v: Value)
    decreases v
  {
    match v
    case Num(n) => n.Int?
    case Arr(items) => forall k :: 0 <= k < |items| ==> IntegersOnly(items[k])
    case Obj(members) => forall k :: 0 <= k < |members| ==> IntegersOnly(members[k].value)
    case _ => true
  }

  /** Whatever the parser returns can be printed, unless it holds a number that is no 64-bit integer. */
  lemma {:induction false} ParsedIsPrintable(t: seq<byte>, i: nat)
    requires ParseValue(t, i).Got? && IntegersOnly(ParseValue(t, i).value)
    ensures Printable(ParseValue(t, i).value)
    decreases |t| - i, 1
  {
    var v := ParseValue(t, i).value;
    if v.Arr? {
      if Peek(t, Skip(t, i + 1)) != RBRACKET {
        ParsedElementsPrintable(t, Skip(t, i + 1));
      }
    } else if v.Obj? {
      if Peek(t, Skip(t, i + 1)) != RBRACE {
        ParsedMembersPrintable(t, Skip(t, i + 1));
      }
    }
  }

  lemma {:induction false} ParsedElementsPrintable(t: seq<byte>, i: nat)
    requires ParseElements(t, i).Got? && IntegersOnly(Arr(ParseElements(t, i).value))
    ensures Printable(Arr(ParseElements(t, i).value))
    decreases |t| - i, 2
  {
    hide ParseValue, Skip;
    var q := Skip(t, ParseValue(t, i).pos);
    var vs := ParseElements(t, i).value;
    assert vs == [ParseValue(t, i).value] + AfterElement(t, q).value;
    assert IntegersOnly(vs[0]);
    ParsedIsPrintable(t, i);
    if Peek(t, q) == COMMA {
      assert forall k :: 0 <= k < |vs| - 1 ==> AfterElement(t, q).value[k] == vs[k + 1];
      ParsedElementsPrintable(t, Skip(t, q + 1));
    }
  }

  lemma {:induction false} ParsedMembersPrintable(t: seq<byte>, i: nat)
    requires ParseMembers(t, i).Got? && IntegersOnly(Obj(ParseMembers(t, i).value))
    ensures Printable(Obj(ParseMembers(t, i).value))
    decreases |t| - i, 2
  {
    hide ParseValue, Skip, StringAt;
    var m := ParseMember(t, i).value;
    var q := Skip(t, ParseMember(t, i).pos);
    var ms := ParseMembers(t, i).value;
    assert ms == [m] + AfterMember(t, q).value;
    assert IntegersOnly(ms[0].value);
    ParsedIsPrintable(t, Skip(t, Skip(t, StringAt(t, i).pos) + 1));
    if Peek(t, q) == COMMA {
      assert forall k :: 0 <= k < |ms| - 1 ==> AfterMember(t, q).value[k] == ms[k + 1];
      ParsedMembersPrintable(t, Skip(t, q + 1));
    }
  }

  /** Printing what was parsed and parsing it again changes nothing but sign tags, and a second time nothing at all. */
  lemma ReparseIsCanonical(t: seq<byte>, fmt: bool)
    requires ParseText(t).Got? && IntegersOnly(ParseText(t).value)
    ensures var v := ParseText(t).value;
            && ParseText(Render(v, 0, fmt)) == Got(Canon(v), |Render(v, 0, fmt)|)
            && Canon(Canon(v)) == Canon(v)
  {
    var v := ParseText(t).value;
    ParsedIsPrintable(t, Skip(t, 0));
    ModesAgree(v, [], fmt);
    assert Render(v, 0, fmt) + [] == Render(v, 0, fmt);
    CanonTwice(v);
  }

  lemma {:induction false} CanonTwice(v: Value)
    ensures Canon(Canon(v)) == Canon(v)
    decreases v, 1
  {
    match v
    case Num(n) =>
    case Arr(items) => CanonItemsTwice(items);
    case Obj(members) => CanonMembersTwice(members);
    case _ =>
  }

  lemma {:induction false} CanonItemsTwice(items: seq<Value>)
    ensures CanonItems(CanonItems(items)) == CanonItems(items)
    decreases items, 0
  {
    if items != [] {
      CanonTwice(items[0]);
      CanonItemsTwice(items[1..]);
      assert CanonItems(items)[1..] == CanonItems(items[1..]);
    }
  }

  lemma {:induction false} CanonMembersTwice(members: seq<Member>)
    ensures CanonMembers(CanonMembers(members)) == CanonMembers(members)
    decreases members, 0
  {
    if members != [] {
      CanonTwice(members[0].value);
      CanonMembersTwice(members[1..]);
      assert CanonMembers(members)[1..] == CanonMembers(members[1..]);
    }
  }
}
