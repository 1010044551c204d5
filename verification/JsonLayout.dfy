/** The two modes of the printer, told apart by a scanner that knows only quotes, backslashes, brackets, braces,
commas and colons (cJSON.c:558-784).

Unformatted text has no blank outside its string literals. Formatted text is the unformatted one with blanks put in:
a space behind a comma in brackets, a tab behind a colon, and a line feed with as many tabs as brackets and braces
are open behind a brace, behind a comma in braces, and before a closing brace.
 */
module JsonLayout {
  import opened Bytes
  import opened JsonInteger
  import opened JsonString
  import opened JsonText
  import JsonEscapes

  datatype Mode = Outside | Inside | Escaped

  /** The brackets and braces that are open, where the scanner is with respect to literals, and whether it stands
      right behind an opening brace. */
  datatype Scan = Scan(open: seq<byte>, mode: Mode, first: bool)

  const START: Scan := Scan([], Outside, false)

  function After(sc: Scan, b: byte): Scan {
    match sc.mode
    case Escaped => sc.(mode := Inside)
    case Inside => if b == 0x5C then sc.(mode := Escaped) else if b == 0x22 then sc.(mode := Outside) else sc
    case Outside =>
      if b == 0x22 then Scan(sc.open, Inside, false)
      else if b == 0x5B || b == 0x7B then Scan(sc.open + [b], Outside, b == 0x7B)
      else if b == 0x5D || b == 0x7D then Scan(if sc.open == [] then [] else sc.open[..|sc.open| - 1], Outside, false)
      else Scan(sc.open, Outside, false)
  }

  function Run(sc: Scan, s: seq<byte>): Scan
    decreases |s|
  {
    if s == [] then sc else Run(After(sc, s[0]), s[1..])
  }

  /** No blank outside the literals. */
  predicate Dense(sc: Scan, s: seq<byte>)
    decreases |s|
  {
    s == [] || ((sc.mode == Outside ==> s[0] > 32) && Dense(After(sc, s[0]), s[1..]))
  }

  function Indent(n: int): (s: seq<byte>) {
    if n <= 0 then [] else seq(n, _ => 0x09)
  }

  /** The blanks before a byte outside the literals. */
  function Before(sc: Scan, b: byte, depth: nat): seq<byte> {
    if b == 0x7D then (if sc.first then [] else [0x0A]) + Indent(depth + |sc.open| - 1)
    else if sc.first then Indent(depth + |sc.open|)
    else []
  }

  /** The blanks behind it. */
  function Behind(sc: Scan, b: byte, depth: nat): seq<byte> {
    if b == 0x2C then
      if sc.open != [] && sc.open[|sc.open| - 1] == 0x5B then [0x20] else [0x0A] + Indent(depth + |sc.open|)
    else if b == 0x3A then [0x09]
    else if b == 0x7B then [0x0A]
    else []
  }

  function Laid(sc: Scan, b: byte, depth: nat): seq<byte> {
    if sc.mode == Outside then Before(sc, b, depth) + [b] + Behind(sc, b, depth) else [b]
  }

  /** The text with the blanks put in. */
  function Pretty(sc: Scan, s: seq<byte>, depth: nat): seq<byte>
    decreases |s|
  {
    if s == [] then [] else Laid(sc, s[0], depth) + Pretty(After(sc, s[0]), s[1..], depth)
  }

  // ----- piece by piece -----

  /** From `sc` the dense text leads to `sc'`, and with the blanks put in it is `f`. */
  predicate Goes(sc: Scan, sc': Scan, s: seq<byte>, f: seq<byte>, depth: nat) {
    Run(sc, s) == sc' && Pretty(sc, s, depth) == f && Dense(sc, s)
  }

  lemma {:induction false} GoesOn(sc: Scan, sc1: Scan, sc2: Scan, a: seq<byte>, b: seq<byte>,
                                  f: seq<byte>, g: seq<byte>, depth: nat)
    requires Goes(sc, sc1, a, f, depth) && Goes(sc1, sc2, b, g, depth)
    ensures Goes(sc, sc2, a + b, f + g, depth)
    decreases |a|
  {
    hide Laid, After;
    if a == [] {
      assert a + b == b && f + g == g;
    } else {
      var rest := Pretty(After(sc, a[0]), a[1..], depth);
      GoesOn(After(sc, a[0]), sc1, sc2, a[1..], b, rest, g, depth);
      assert (a + b)[1..] == a[1..] + b;
      assert f + g == Laid(sc, a[0], depth) + (rest + g);
    }
  }

  lemma GoesByte(sc: Scan, b: byte, depth: nat)
    requires sc.mode == Outside ==> b > 32
    ensures Goes(sc, After(sc, b), [b], Laid(sc, b, depth), depth)
  {
    hide After, Laid;
    var s := [b];
    assert s[0] == b && s[1..] == [];
    GoesNothing(After(sc, b), depth);
    assert Run(sc, s) == Run(After(sc, s[0]), s[1..]);
    assert Pretty(sc, s, depth) == Laid(sc, s[0], depth) + Pretty(After(sc, s[0]), s[1..], depth);
    assert Dense(sc, s) <==> Dense(After(sc, s[0]), s[1..]);
  }

  /** Inside a literal nothing is put in, and nothing escaped ends it. */
  lemma {:induction false} GoesEscape(sc: Scan, s: seq<byte>, depth: nat)
    requires sc.mode == Inside && NulFree(s)
    ensures Goes(sc, sc, Escape(s), Escape(s), depth)
    decreases |s|
  {
    hide EscapeByte, Goes;
    if s == [] {
      GoesNothing(sc, depth);
    } else {
      GoesEscaped(sc, s[0], depth);
      GoesEscape(sc, s[1..], depth);
      GoesOn(sc, sc, sc, EscapeByte(s[0]), Escape(s[1..]), EscapeByte(s[0]), Escape(s[1..]), depth);
    }
  }

  lemma GoesNothing(sc: Scan, depth: nat)
    ensures Goes(sc, sc, [], [], depth)
  {
  }

  lemma GoesEscaped(sc: Scan, b: byte, depth: nat)
    requires sc.mode == Inside && b != NUL
    ensures Goes(sc, sc, EscapeByte(b), EscapeByte(b), depth)
  {
    hide EscapeByte;
    JsonEscapes.EscapeSpelled(b);
    if 32 <= b && b != 0x22 && b != 0x5C {
      GoesByte(sc, b, depth);
    } else {
      var e := EscapeByte(b);
      GoesByte(sc, 0x5C, depth);
      GoesByte(sc.(mode := Escaped), e[1], depth);
      GoesOn(sc, sc.(mode := Escaped), sc, [0x5C], [e[1]], [0x5C], [e[1]], depth);
      GoesLetters(sc, e[2..], depth);
      GoesOn(sc, sc, sc, [0x5C] + [e[1]], e[2..], [0x5C] + [e[1]], e[2..], depth);
      assert e == [0x5C] + [e[1]] + e[2..];
    }
  }

  lemma {:induction false} GoesLetters(sc: Scan, s: seq<byte>, depth: nat)
    requires sc.mode == Inside && forall k :: 0 <= k < |s| ==> s[k] != 0x22 && s[k] != 0x5C
    ensures Goes(sc, sc, s, s, depth)
    decreases |s|
  {
    if s != [] {
      GoesLetters(sc, s[1..], depth);
    }
  }

  lemma GoesQuoted(sc: Scan, s: seq<byte>, depth: nat)
    requires sc.mode == Outside && NulFree(s)
    ensures Goes(sc, sc.(first := false), Quoted(s), Before(sc, 0x22, depth) + Quoted(s), depth)
  {
    hide Goes, Escape, NulFree;
    var within := Scan(sc.open, Inside, false);
    GoesByte(sc, 0x22, depth);
    GoesEscape(within, s, depth);
    GoesByte(within, 0x22, depth);
    GoesOn(sc, within, within, [0x22], Escape(s), Laid(sc, 0x22, depth), Escape(s), depth);
    GoesOn(sc, within, sc.(first := false), [0x22] + Escape(s), [0x22], Laid(sc, 0x22, depth) + Escape(s), [0x22], depth);
    assert Laid(sc, 0x22, depth) + Escape(s) + [0x22] == Before(sc, 0x22, depth) + Quoted(s);
  }

  /** Bytes that mean nothing to the scanner. */
  predicate Neutral(s: seq<byte>) {
    forall k :: 0 <= k < |s| ==> s[k] > 32 && s[k] !in {0x22, 0x2C, 0x3A, 0x5B, 0x5D, 0x7B, 0x7D}
  }

  lemma {:induction false} GoesNeutral(sc: Scan, s: seq<byte>, depth: nat)
    requires sc.mode == Outside && !sc.first && Neutral(s)
    ensures Goes(sc, sc, s, s, depth)
    decreases |s|
  {
    if s != [] {
      GoesNeutral(sc, s[1..], depth);
    }
  }

  lemma {:induction false} DecimalNeutral(n: nat)
    ensures Neutral(Decimal(n))
  {
    if n >= 10 {
      DecimalNeutral(n / 10);
    }
  }

  lemma {:induction false} TabsIndent(n: nat)
    ensures Tabs(n) == Indent(n)
  {
    if n > 0 {
      TabsIndent(n - 1);
    }
  }

  // ----- values -----

  /** Where the scanner is between tokens. */
  predicate Between(sc: Scan) {
    sc.mode == Outside && !sc.first
  }

  lemma {:induction false} GoesValue(sc: Scan, v: Value, d: nat, depth: nat)
    requires Between(sc) && Printable(v)
    ensures Goes(sc, sc, Render(v, d, false), Render(v, depth + |sc.open|, true), depth)
    decreases v, 2
  {
    hide Goes;
    match v
    case Null => GoesNeutral(sc, NULL_TEXT, depth);
    case False => GoesNeutral(sc, FALSE_TEXT, depth);
    case True => GoesNeutral(sc, TRUE_TEXT, depth);
    case Num(n) =>
      var x := Meaning(n.value, n.sign);
      DecimalNeutral(if x < 0 then -x else x);
      GoesNeutral(sc, DecimalText(x), depth);
    case Str(s) =>
      GoesQuoted(sc, s, depth);
      assert [] + Quoted(s) == Quoted(s);
    case Arr(items) => GoesArray(sc, items, d, depth);
    case Obj(members) => GoesObject(sc, members, d, depth);
  }

  lemma {:induction false} GoesArray(sc: Scan, items: seq<Value>, d: nat, depth: nat)
    requires Between(sc) && Printable(Arr(items))
    ensures Goes(sc, sc, Render(Arr(items), d, false), Render(Arr(items), depth + |sc.open|, true), depth)
    decreases items, 2
  {
    hide Goes, RenderItems, Printable;
    var within := Scan(sc.open + [0x5B], Outside, false);
    var text, laid := RenderItems(items, d + 1, false), RenderItems(items, depth + |sc.open| + 1, true);
    GoesByte(sc, 0x5B, depth);
    GoesItems(within, items, d + 1, depth);
    GoesByte(within, 0x5D, depth);
    assert within.open[..|sc.open|] == sc.open;
    assert Laid(sc, 0x5B, depth) == [0x5B] && Laid(within, 0x5D, depth) == [0x5D];
    GoesOn(sc, within, within, [0x5B], text, [0x5B], laid, depth);
    GoesOn(sc, within, sc, [0x5B] + text, [0x5D], [0x5B] + laid, [0x5D], depth);
  }

  lemma {:induction false} GoesItems(sc: Scan, items: seq<Value>, d: nat, depth: nat)
    requires Between(sc) && sc.open != [] && sc.open[|sc.open| - 1] == 0x5B && Printable(Arr(items))
    ensures Goes(sc, sc, RenderItems(items, d, false), RenderItems(items, depth + |sc.open|, true), depth)
    decreases items, 1
  {
    hide Goes, Render;
    var n := depth + |sc.open|;
    if items == [] {
      GoesNothing(sc, depth);
    } else {
      assert Printable(items[0]) && Printable(Arr(items[1..]));
      GoesValue(sc, items[0], d, depth);
      if |items| > 1 {
        var text, laid := RenderItems(items[1..], d, false), RenderItems(items[1..], n, true);
        GoesByte(sc, 0x2C, depth);
        assert Laid(sc, 0x2C, depth) == Separator(true) && Separator(false) == [0x2C];
        GoesItems(sc, items[1..], d, depth);
        GoesOn(sc, sc, sc, [0x2C], text, Separator(true), laid, depth);
        GoesOn(sc, sc, sc, Render(items[0], d, false), [0x2C] + text, Render(items[0], n, true), Separator(true) + laid, depth);
      }
    }
  }

  /** Formatted members without the tabs before the first and the line feed behind the last. */
  function Body(members: seq<Member>, n: nat): seq<byte>
    requires members != []
    decreases |members|
  {
    Quoted(members[0].name) + ([COLON, TAB] + (Render(members[0].value, n, true)
    + if |members| == 1 then [] else [COMMA, LF] + Tabs(n) + Body(members[1..], n)))
  }

  lemma {:induction false} BodyIs(members: seq<Member>, n: nat)
    requires members != []
    ensures RenderMembers(members, n, true) == Tabs(n) + Body(members, n) + [LF]
    decreases |members|
  {
    hide Render, Quoted, Tabs;
    var name, value := Quoted(members[0].name), Render(members[0].value, n, true);
    if |members| == 1 {
      NoMembers(n, true);
      assert members[1..] == [];
      Grouped(Tabs(n), name, value, [LF], [LF]);
    } else {
      BodyIs(members[1..], n);
      var rest := Tabs(n) + Body(members[1..], n);
      assert [COMMA, LF] + RenderMembers(members[1..], n, true) == [COMMA, LF] + rest + [LF];
      assert [COMMA, LF] + rest == [COMMA, LF] + Tabs(n) + Body(members[1..], n);
      Grouped(Tabs(n), name, value, [COMMA, LF] + rest, [COMMA, LF] + RenderMembers(members[1..], n, true));
    }
  }

  lemma Grouped(tabs: seq<byte>, name: seq<byte>, value: seq<byte>, rest: seq<byte>, all: seq<byte>)
    ensures all == rest + [LF] ==>
              tabs + (name + ([COLON] + [TAB])) + (value + all) == tabs + (name + ([COLON, TAB] + (value + rest))) + [LF]
    ensures all == rest == [LF] ==>
              tabs + (name + ([COLON] + [TAB])) + (value + all) == tabs + (name + ([COLON, TAB] + (value + []))) + [LF]
  {
  }

  /** One member, given what follows it. */
  lemma GoesMember(sc: Scan, m: Member, d: nat, depth: nat, tail: seq<byte>, behind: seq<byte>)
    requires sc.mode == Outside && NulFree(m.name) && Goes(sc.(first := false), sc.(first := false), tail, behind, depth)
    requires Goes(sc.(first := false), sc.(first := false), Render(m.value, d, false),
                  Render(m.value, depth + |sc.open|, true), depth)
    ensures Goes(sc, sc.(first := false), Quoted(m.name) + ([0x3A] + (Render(m.value, d, false) + tail)),
                 (if sc.first then Tabs(depth + |sc.open|) else [])
                 + (Quoted(m.name) + ([0x3A, 0x09] + (Render(m.value, depth + |sc.open|, true) + behind))), depth)
  {
    hide Goes, Render, Quoted, Tabs, Indent;
    var n, on := depth + |sc.open|, sc.(first := false);
    var lead := if sc.first then Tabs(n) else [];
    var name, text, laid := Quoted(m.name), Render(m.value, d, false), Render(m.value, n, true);
    GoesQuoted(sc, m.name, depth);
    GoesByte(on, 0x3A, depth);
    TabsIndent(n);
    assert Laid(on, 0x3A, depth) == [0x3A, 0x09];
    GoesOn(on, on, on, text, tail, laid, behind, depth);
    GoesOn(on, on, on, [0x3A], text + tail, [0x3A, 0x09], laid + behind, depth);
    GoesOn(sc, on, on, name, [0x3A] + (text + tail), lead + name, [0x3A, 0x09] + (laid + behind), depth);
    assert lead + name + ([0x3A, 0x09] + (laid + behind)) == lead + (name + ([0x3A, 0x09] + (laid + behind)));
  }

  lemma {:induction false} GoesMembers(sc: Scan, members: seq<Member>, d: nat, depth: nat)
    requires sc.mode == Outside && sc.open != [] && sc.open[|sc.open| - 1] == 0x7B
    requires members != [] && Printable(Obj(members))
    ensures Goes(sc, sc.(first := false), RenderMembers(members, d, false),
                 (if sc.first then Tabs(depth + |sc.open|) else []) + Body(members, depth + |sc.open|), depth)
    decreases members, 1
  {
    hide Goes, Render, Quoted, Tabs, Indent, RenderMembers, NulFree;
    var n, on := depth + |sc.open|, sc.(first := false);
    assert NulFree(members[0].name) && Printable(members[0].value) && Printable(Obj(members[1..]));
    GoesValue(on, members[0].value, d, depth);
    if |members| == 1 {
      GoesNothing(on, depth);
      MembersDense(members, d, []);
      GoesMember(sc, members[0], d, depth, [], []);
    } else {
      var rest, body := RenderMembers(members[1..], d, false), Body(members[1..], n);
      GoesByte(on, 0x2C, depth);
      TabsIndent(n);
      assert Laid(on, 0x2C, depth) == [COMMA, LF] + Tabs(n);
      GoesMembers(on, members[1..], d, depth);
      assert [] + body == body;
      GoesOn(on, on, on, [0x2C], rest, [COMMA, LF] + Tabs(n), body, depth);
      MembersDense(members, d, [0x2C] + rest);
      GoesMember(sc, members[0], d, depth, [0x2C] + rest, [COMMA, LF] + Tabs(n) + body);
    }
  }

  lemma MembersDense(members: seq<Member>, d: nat, tail: seq<byte>)
    requires members != []
    requires tail == if |members| == 1 then [] else [0x2C] + RenderMembers(members[1..], d, false)
    ensures RenderMembers(members, d, false) == Quoted(members[0].name) + ([0x3A] + (Render(members[0].value, d, false) + tail))
  {
    hide Quoted, Render;
    if |members| == 1 {
      assert members[1..] == [] && RenderMembers([], d, false) == [];
    }
  }

  lemma {:induction false} GoesObject(sc: Scan, members: seq<Member>, d: nat, depth: nat)
    requires Between(sc) && Printable(Obj(members))
    ensures Goes(sc, sc, Render(Obj(members), d, false), Render(Obj(members), depth + |sc.open|, true), depth)
    decreases members, 2
  {
    hide Goes, RenderMembers, Printable, Tabs, Indent, Body, Laid;
    var n := depth + |sc.open|;
    var within := Scan(sc.open + [0x7B], Outside, true);
    var full := within.(first := false);
    var text := RenderMembers(members, d + 1, false);
    GoesByte(sc, 0x7B, depth);
    assert within.open[..|sc.open|] == sc.open;
    Braces(sc, within, depth);
    if members == [] {
      NoMembers(d + 1, false);
      NoMembers(n + 1, true);
      GoesByte(within, 0x7D, depth);
      GoesOn(sc, within, sc, [0x7B], [0x7D], [0x7B, 0x0A], Tabs(n) + [0x7D], depth);
      assert Render(Obj(members), d, false) == [0x7B] + [0x7D];
      assert Render(Obj(members), n, true) == [0x7B, 0x0A] + (Tabs(n) + [0x7D]);
    } else {
      var laid := Tabs(n + 1) + Body(members, n + 1);
      GoesMembers(within, members, d + 1, depth);
      BodyIs(members, n + 1);
      GoesByte(full, 0x7D, depth);
      GoesOn(sc, within, full, [0x7B], text, [0x7B, 0x0A], laid, depth);
      GoesOn(sc, full, sc, [0x7B] + text, [0x7D], [0x7B, 0x0A] + laid, [0x0A] + Tabs(n) + [0x7D], depth);
      assert Render(Obj(members), d, false) == [0x7B] + text + [0x7D];
      assert Render(Obj(members), n, true) == [0x7B, 0x0A] + laid + ([0x0A] + Tabs(n) + [0x7D]);
    }
  }

  /** How braces are laid out. */
  lemma Braces(sc: Scan, within: Scan, depth: nat)
    requires Between(sc) && within.mode == Outside && |within.open| == |sc.open| + 1
    ensures Laid(sc, 0x7B, depth) == [0x7B, 0x0A]
    ensures within.first ==> Laid(within, 0x7D, depth) == Tabs(depth + |sc.open|) + [0x7D]
    ensures Laid(within.(first := false), 0x7D, depth) == [0x0A] + Tabs(depth + |sc.open|) + [0x7D]
  {
    hide Indent, Tabs;
    TabsIndent(depth + |sc.open|);
  }

  // ----- the two modes -----

  /** Unformatted text has no blank outside its literals, and closes what it opens. */
  lemma UnformattedIsDense(v: Value, d: nat)
    requires Printable(v)
    ensures Dense(START, Render(v, d, false)) && Run(START, Render(v, d, false)) == START
  {
    hide Dense, Run, Pretty;
    GoesValue(START, v, d, 0);
  }

  /** Formatted text is the unformatted one, printed at any depth, with the blanks put in. */
  lemma FormattedIsPretty(v: Value, d: nat, depth: nat)
    requires Printable(v)
    ensures Render(v, depth, true) == Pretty(START, Render(v, d, false), depth)
  {
    hide Dense, Run, Pretty;
    GoesValue(START, v, d, depth);
  }

  /** Unformatted text does not depend on the depth. */
  lemma {:induction false} DepthDoesNotMatter(v: Value, d: nat, d': nat)
    ensures Render(v, d, false) == Render(v, d', false)
    decreases v, 1
  {
    match v
    case Arr(items) => ItemsAtAnyDepth(items, d + 1, d' + 1);
    case Obj(members) => MembersAtAnyDepth(members, d + 1, d' + 1);
    case _ =>
  }

  lemma {:induction false} ItemsAtAnyDepth(items: seq<Value>, d: nat, d': nat)
    ensures RenderItems(items, d, false) == RenderItems(items, d', false)
    decreases items, 0
  {
    if items != [] {
      DepthDoesNotMatter(items[0], d, d');
      ItemsAtAnyDepth(items[1..], d, d');
    }
  }

  lemma {:induction false} MembersAtAnyDepth(members: seq<Member>, d: nat, d': nat)
    ensures RenderMembers(members, d, false) == RenderMembers(members, d', false)
    decreases members, 0
  {
    if members != [] {
      DepthDoesNotMatter(members[0].value, d, d');
      MembersAtAnyDepth(members[1..], d, d');
    }
  }

  /** The three words by their characters. */
  lemma Words(d: nat, fmt: bool)
    ensures Render(Null, d, fmt) == Ascii("null") && Render(False, d, fmt) == Ascii("false") && Render(True, d, fmt) == Ascii("true")
  {
  }
}
