/** The printer on the heap (cJSON.c:390-394, 480-514, 557-625, 688-784): it measures,
    allocates, and writes through a moving cursor.

Every array index below is checked to lie inside the allocation, so that each write,
the interim terminators included, stays inside the bytes measured beforehand.
 */
module JsonPrinter {
  import opened Bytes
  import opened ByteBlocks
  import opened JsonInteger
  import opened JsonString
  import opened JsonText
  import opened JsonHeap
  import opened JsonSiblings

  /** The buffer holds the text and its terminator. */
  predicate IsText(out: array<byte>, s: seq<byte>)
    reads out
  {
    |s| < out.Length && out[..|s| + 1] == s + [NUL] && NulFree(s)
  }

  lemma TextBytes(out: array<byte>, s: seq<byte>)
    requires IsText(out, s)
    ensures forall k :: 0 <= k < |s| ==> out[k] == s[k] && s[k] != NUL
    ensures out[|s|] == NUL
  {
    assert forall k :: 0 <= k <= |s| ==> out[k] == out[..|s| + 1][k];
  }

  /** `strlen` */
  method Strlen(out: array<byte>, ghost s: seq<byte>) returns (n: nat)
    requires IsText(out, s)
    ensures n == |s|
  {
    n := 0;
    TextBytes(out, s);
    while out[n] != NUL
      invariant n <= |s|
      decreases |s| - n
    {
      n := n + 1;
    }
  }

  /** `strcpy`, the terminator included. */
  method Strcpy(out: array<byte>, at: nat, from: array<byte>, ghost s: seq<byte>)
    requires IsText(from, s) && from != out && at + |s| < out.Length
    modifies out
    ensures out[..at + |s|] == old(out[..at]) + s
  {
    var i := 0;
    ghost var whole := from[..];
    TextBytes(from, s);
    while from[i] != NUL
      invariant 0 <= i <= |s| && from[..] == whole
      invariant out[..at + i] == old(out[..at]) + s[..i]
      decreases |s| - i
    {
      out[at + i] := from[i];
      i := i + 1;
    }
    assert i == |s|;
    out[at + i] := NUL;
    assert s[..i] == s;
  }

  /** `cJSON_strdup` of a literal. */
  method Strdup(b: Blocks, s: seq<byte>) returns (out: array<byte>)
    requires NulFree(s)
    modifies b
    ensures fresh(out) && IsText(out, s) && out !in old(b.live) && b.live == old(b.live) + {out}
  {
    out := b.New(|s| + 1);
    var i := 0;
    while i < |s|
      invariant b.live == old(b.live) + {out}
      invariant 0 <= i <= |s| && out[..i] == s[..i]
    {
      out[i] := s[i];
      i := i + 1;
    }
    out[i] := NUL;
    assert out[..|s| + 1] == s + [NUL];
  }

  // ----- rendering in terms of the entries' texts -----

  function Texts(vs: seq<Value>, depth: nat, fmt: bool): (ts: seq<seq<byte>>)
    ensures |ts| == |vs|
  {
    seq(|vs|, k requires 0 <= k < |vs| => Render(vs[k], depth, fmt))
  }

  function Join(texts: seq<seq<byte>>, fmt: bool): seq<byte> {
    if texts == [] then []
    else if |texts| == 1 then texts[0]
    else texts[0] + (Separator(fmt) + Join(texts[1..], fmt))
  }

  lemma {:induction false} JoinIsRender(vs: seq<Value>, depth: nat, fmt: bool)
    ensures Join(Texts(vs, depth, fmt), fmt) == RenderItems(vs, depth, fmt)
    decreases |vs|
  {
    if |vs| > 1 {
      JoinIsRender(vs[1..], depth, fmt);
      assert Texts(vs, depth, fmt)[1..] == Texts(vs[1..], depth, fmt);
    }
  }

  function One(b: bool): nat {
    if b then 1 else 0
  }

  /** The loop that adds up `strlen(ret) + 2 + (fmt ? 1 : 0)`. */
  function ItemsLength(texts: seq<seq<byte>>, fmt: bool): nat {
    if texts == [] then 0 else |texts[0]| + 2 + One(fmt) + ItemsLength(texts[1..], fmt)
  }

  lemma {:induction false} ItemsLengthSnoc(texts: seq<seq<byte>>, s: seq<byte>, fmt: bool)
    ensures ItemsLength(texts + [s], fmt) == ItemsLength(texts, fmt) + |s| + 2 + One(fmt)
    decreases |texts|
  {
    if texts != [] {
      assert (texts + [s])[1..] == texts[1..] + [s];
      ItemsLengthSnoc(texts[1..], s, fmt);
    } else {
      assert (texts + [s])[1..] == [];
    }
  }

  lemma {:induction false} JoinFits(texts: seq<seq<byte>>, fmt: bool)
    ensures |Join(texts, fmt)| <= ItemsLength(texts, fmt)
    decreases |texts|
  {
    if |texts| > 1 {
      JoinFits(texts[1..], fmt);
    }
  }

  /** Everything printed is free of NUL, so that `strlen` sees all of it. */
  lemma {:induction false} RenderNulFree(v: Value, depth: nat, fmt: bool)
    requires Printable(v)
    ensures NulFree(Render(v, depth, fmt))
    decreases v, 1
  {
    hide RenderItems, RenderMembers, Escape, Decimal;
    match v
    case Null =>
    case False =>
    case True =>
    case Num(n) =>
    case Str(s) =>
      EscapeNulFree(s);
    case Arr(items) =>
      ItemsNulFree(items, depth + 1, fmt);
    case Obj(members) =>
      MembersNulFree(members, depth + 1, fmt);
  }

  lemma {:induction false} ItemsNulFree(items: seq<Value>, depth: nat, fmt: bool)
    requires Printable(Arr(items))
    ensures NulFree(RenderItems(items, depth, fmt))
    decreases items, 0
  {
    if items != [] {
      RenderNulFree(items[0], depth, fmt);
      ItemsNulFree(items[1..], depth, fmt);
    }
  }

  lemma {:induction false} MembersNulFree(members: seq<Member>, depth: nat, fmt: bool)
    requires Printable(Obj(members))
    ensures NulFree(RenderMembers(members, depth, fmt))
    decreases members, 0
  {
    hide Render, Escape, MemberHead;
    if members != [] {
      EscapeNulFree(members[0].name);
      HeadNulFree(members[0].name, depth, fmt);
      RenderNulFree(members[0].value, depth, fmt);
      MembersNulFree(members[1..], depth, fmt);
    }
  }

  lemma HeadNulFree(name: seq<byte>, depth: nat, fmt: bool)
    requires NulFree(Quoted(name))
    ensures NulFree(MemberHead(name, depth, fmt))
  {
    hide Quoted;
  }

  lemma {:induction false} EscapeNulFree(s: seq<byte>)
    requires NulFree(s)
    ensures NulFree(Quoted(s)) && NulFree(Escape(s))
    decreases |s|
  {
    if s != [] {
      EscapeNulFree(s[1..]);
    }
  }

  // ----- arrays -----

  /** The entries hold the texts. */
  ghost predicate AreTexts(entries: seq<array<byte>>, texts: seq<seq<byte>>)
    reads entries
  {
    |entries| == |texts| && forall k :: 0 <= k < |entries| ==> IsText(entries[k], texts[k])
  }

  lemma TextsLength(names: seq<array<byte>>, entries: seq<array<byte>>, ns: seq<seq<byte>>, texts: seq<seq<byte>>)
    requires AreTexts(names, ns) && AreTexts(entries, texts)
    ensures |names| == |ns| && |entries| == |texts|
  {
  }

  lemma AreTextsSnoc(entries: seq<array<byte>>, texts: seq<seq<byte>>, e: array<byte>, s: seq<byte>)
    requires AreTexts(entries, texts) && IsText(e, s)
    ensures AreTexts(entries + [e], texts + [s])
  {
  }

  lemma AreTextsAt(entries: seq<array<byte>>, texts: seq<seq<byte>>, k: nat)
    requires AreTexts(entries, texts)
    ensures |entries| == |texts| && (k < |entries| ==> IsText(entries[k], texts[k]))
    ensures forall k :: 0 <= k < |texts| ==> NulFree(texts[k])
  {
  }

  lemma MakeText(out: array<byte>, s: seq<byte>)
    requires |s| < out.Length && out[..|s| + 1] == s + [NUL] && NulFree(s)
    ensures IsText(out, s)
  {
  }

  lemma NoTexts()
    ensures AreTexts([], [])
  {
  }

  lemma {:induction false} JoinNulFree(texts: seq<seq<byte>>, fmt: bool)
    requires forall k :: 0 <= k < |texts| ==> NulFree(texts[k])
    ensures NulFree(Join(texts, fmt))
    decreases |texts|
  {
    if |texts| > 1 {
      JoinNulFree(texts[1..], fmt);
    }
  }

  lemma JoinStep(texts: seq<seq<byte>>, i: nat, fmt: bool)
    requires i < |texts|
    ensures Join(texts[i..], fmt)
         == texts[i] + if i == |texts| - 1 then [] else Separator(fmt) + Join(texts[i + 1..], fmt)
  {
    assert texts[i..][1..] == texts[i + 1..];
  }

  /** One entry and, unless it is the last, what separates it from the next, with the interim terminator. */
  method WriteEntry(out: array<byte>, start: nat, entry: array<byte>, last: bool, fmt: bool, ghost s: seq<byte>)
    returns (ptr: nat)
    requires IsText(entry, s) && entry != out && start + |s| + 2 + One(fmt) < out.Length
    modifies out
    ensures ptr == start + |s| + if last then 0 else |Separator(fmt)|
    ensures out[..ptr] == old(out[..start]) + s + if last then [] else Separator(fmt)
  {
    Strcpy(out, start, entry, s);
    var n := Strlen(entry, s);
    ptr := start + n;
    if !last {
      out[ptr] := COMMA;
      ptr := ptr + 1;
      if fmt {
        out[ptr] := SPACE;
        ptr := ptr + 1;
      }
      out[ptr] := NUL;
    }
  }

  /** The composing half of `print_array`. */
  method ComposeArray(b: Blocks, table: Table, entries: seq<array<byte>>, ghost texts: seq<seq<byte>>, len: nat, fmt: bool,
                      ghost rest: set<object>) returns (out: array<byte>)
    requires AreTexts(entries, texts) && len == 5 + ItemsLength(texts, fmt)
    requires Holds(b.live, rest + {table}, [], entries) && table !in rest
    modifies b
    ensures fresh(out) && out.Length == len && b.live == rest + {out}
    ensures IsText(out, [LBRACKET] + Join(texts, fmt) + [RBRACKET])
  {
    hide Join, ItemsLength, NulFree, Holds, AreTexts, IsText, Separator;
    JoinFits(texts, fmt);
    AreTextsAt(entries, texts, 0);
    ghost var all := [LBRACKET] + Join(texts, fmt);
    ghost var live := b.live;
    out := b.New(len);
    HoldsBeside(live, rest + {table}, [], entries, out);
    ghost var base := rest + {table} + {out};
    out[0] := LBRACKET;
    var ptr: nat, i: nat := 1, 0;
    out[ptr] := NUL;
    assert out[..1] == [LBRACKET] && texts[0..] == texts && entries[0..] == entries;
    while i < |entries|
      invariant i <= |entries| && AreTexts(entries, texts)
      invariant Holds(b.live, base, [], entries[i..])
      invariant ptr <= |all| && out[..ptr] + Join(texts[i..], fmt) == all
    {
      AreTextsAt(entries, texts, i);
      JoinStep(texts, i, fmt);
      ghost var before, last := out[..ptr], i == |texts| - 1;
      ptr := WriteEntry(out, ptr, entries[i], i == |entries| - 1, fmt, texts[i]);
      JoinWritten(before, texts, i, fmt);
      HoldsEntryLess(b.live, base, [], entries[i..]);
      b.Free(entries[i]);
      assert entries[i..][1..] == entries[i + 1..];
      i := i + 1;
    }
    assert entries[i..] == [];
    HoldsEnd(b.live, base);
    b.Free(table);
    JoinNone(texts, fmt);
    assert out[..ptr] == all;
    out[ptr] := RBRACKET;
    out[ptr + 1] := NUL;
    ComposedNulFree(texts, fmt);
    assert out[..ptr + 2] == all + [RBRACKET] + [NUL];
    MakeText(out, all + [RBRACKET]);
  }

  lemma JoinWritten(before: seq<byte>, texts: seq<seq<byte>>, i: nat, fmt: bool)
    requires i < |texts|
    ensures before + Join(texts[i..], fmt)
         == (before + texts[i] + if i == |texts| - 1 then [] else Separator(fmt)) + Join(texts[i + 1..], fmt)
  {
    hide Join;
    JoinStep(texts, i, fmt);
    if i == |texts| - 1 {
      JoinNone(texts, fmt);
    }
  }

  lemma JoinNone(texts: seq<seq<byte>>, fmt: bool)
    ensures Join(texts[|texts|..], fmt) == []
  {
  }

  lemma ComposedNulFree(texts: seq<seq<byte>>, fmt: bool)
    requires forall k :: 0 <= k < |texts| ==> NulFree(texts[k])
    ensures NulFree([LBRACKET] + Join(texts, fmt) + [RBRACKET])
  {
    JoinNulFree(texts, fmt);
  }

  // ----- objects -----

  function Names(ms: seq<Member>): (ns: seq<seq<byte>>)
    ensures |ns| == |ms|
  {
    seq(|ms|, k requires 0 <= k < |ms| => Quoted(ms[k].name))
  }

  function MemberTexts(ms: seq<Member>, depth: nat, fmt: bool): (ts: seq<seq<byte>>)
    ensures |ts| == |ms|
  {
    seq(|ms|, k requires 0 <= k < |ms| => Render(ms[k].value, depth, fmt))
  }

  /** One member from its printed name and value. */
  function MemberText(name: seq<byte>, text: seq<byte>, last: bool, depth: nat, fmt: bool): seq<byte> {
    When(fmt, Tabs(depth)) + (name + ([COLON] + When(fmt, [TAB]))) + (text + MemberTail(last, fmt))
  }

  function JoinMembers(names: seq<seq<byte>>, texts: seq<seq<byte>>, depth: nat, fmt: bool): seq<byte>
    requires |names| == |texts|
  {
    if names == [] then []
    else MemberText(names[0], texts[0], |names| == 1, depth, fmt) + JoinMembers(names[1..], texts[1..], depth, fmt)
  }

  lemma {:induction false} JoinMembersIsRender(ms: seq<Member>, depth: nat, fmt: bool)
    ensures JoinMembers(Names(ms), MemberTexts(ms, depth, fmt), depth, fmt) == RenderMembers(ms, depth, fmt)
    decreases |ms|
  {
    if ms != [] {
      JoinMembersIsRender(ms[1..], depth, fmt);
      assert Names(ms)[1..] == Names(ms[1..]);
      assert MemberTexts(ms, depth, fmt)[1..] == MemberTexts(ms[1..], depth, fmt);
      Regroup(MemberHead(ms[0].name, depth, fmt), Render(ms[0].value, depth, fmt), MemberTail(|ms| == 1, fmt),
              RenderMembers(ms[1..], depth, fmt));
    }
  }

  lemma Regroup(a: seq<byte>, b: seq<byte>, c: seq<byte>, d: seq<byte>)
    ensures a + (b + (c + d)) == (a + (b + c)) + d
  {
  }

  /** The loop that adds up `strlen(ret) + strlen(str) + 2 + (fmt ? 2 + depth : 0)`. */
  function MembersLength(names: seq<seq<byte>>, texts: seq<seq<byte>>, depth: nat, fmt: bool): nat
    requires |names| == |texts|
  {
    if names == [] then 0
    else |texts[0]| + |names[0]| + 2 + (if fmt then 2 + depth else 0) + MembersLength(names[1..], texts[1..], depth, fmt)
  }

  lemma {:induction false} MembersLengthSnoc(names: seq<seq<byte>>, texts: seq<seq<byte>>, name: seq<byte>, text: seq<byte>,
                                             depth: nat, fmt: bool)
    requires |names| == |texts|
    ensures MembersLength(names + [name], texts + [text], depth, fmt)
         == MembersLength(names, texts, depth, fmt) + |text| + |name| + 2 + (if fmt then 2 + depth else 0)
    decreases |names|
  {
    if names != [] {
      assert (names + [name])[1..] == names[1..] + [name] && (texts + [text])[1..] == texts[1..] + [text];
      MembersLengthSnoc(names[1..], texts[1..], name, text, depth, fmt);
    } else {
      assert (names + [name])[1..] == [] && (texts + [text])[1..] == [];
    }
  }

  lemma {:induction false} JoinMembersFits(names: seq<seq<byte>>, texts: seq<seq<byte>>, depth: nat, fmt: bool)
    requires |names| == |texts|
    ensures |JoinMembers(names, texts, depth, fmt)| <= MembersLength(names, texts, depth, fmt)
    decreases |names|
  {
    if names != [] {
      JoinMembersFits(names[1..], texts[1..], depth, fmt);
    }
  }

  lemma {:induction false} JoinMembersNulFree(names: seq<seq<byte>>, texts: seq<seq<byte>>, depth: nat, fmt: bool)
    requires |names| == |texts| && forall k :: 0 <= k < |texts| ==> NulFree(texts[k]) && NulFree(names[k])
    ensures NulFree(JoinMembers(names, texts, depth, fmt))
    decreases |names|
  {
    hide MemberText;
    if names != [] {
      MemberTextNulFree(names[0], texts[0], |names| == 1, depth, fmt);
      JoinMembersNulFree(names[1..], texts[1..], depth, fmt);
    }
  }

  lemma MemberTextNulFree(name: seq<byte>, text: seq<byte>, last: bool, depth: nat, fmt: bool)
    requires NulFree(name) && NulFree(text)
    ensures NulFree(MemberText(name, text, last, depth, fmt))
  {
  }

  lemma JoinMembersStep(before: seq<byte>, names: seq<seq<byte>>, texts: seq<seq<byte>>, i: nat, depth: nat, fmt: bool)
    requires |names| == |texts| && i < |names|
    ensures before + JoinMembers(names[i..], texts[i..], depth, fmt)
         == before + MemberText(names[i], texts[i], i == |names| - 1, depth, fmt)
            + JoinMembers(names[i + 1..], texts[i + 1..], depth, fmt)
  {
    hide MemberText;
    assert names[i..][1..] == names[i + 1..] && texts[i..][1..] == texts[i + 1..];
  }

  /** The indentation loop. */
  method WriteTabs(out: array<byte>, start: nat, count: nat) returns (ptr: nat)
    requires start + count < out.Length
    modifies out
    ensures ptr == start + count && out[..ptr] == old(out[..start]) + Tabs(count)
  {
    ptr := start;
    for j := 0 to count
      invariant ptr == start + j && out[..ptr] == old(out[..start]) + Tabs(j)
    {
      out[ptr] := TAB;
      ptr := ptr + 1;
      TabsSnoc(j);
    }
  }

  lemma {:induction false} TabsSnoc(n: nat)
    ensures Tabs(n + 1) == Tabs(n) + [TAB]
  {
    if n > 0 {
      TabsSnoc(n - 1);
    }
  }

  /** The name and the colon. */
  method WriteName(out: array<byte>, start: nat, name: array<byte>, fmt: bool, ghost n: seq<byte>) returns (ptr: nat)
    requires IsText(name, n) && name != out
    requires start + |n + ([COLON] + When(fmt, [TAB]))| < out.Length
    modifies out
    ensures ptr == start + |n + ([COLON] + When(fmt, [TAB]))|
    ensures out[..ptr] == old(out[..start]) + (n + ([COLON] + When(fmt, [TAB])))
  {
    Strcpy(out, start, name, n);
    var size := Strlen(name, n);
    ptr := start + size;
    out[ptr] := COLON;
    ptr := ptr + 1;
    if fmt {
      out[ptr] := TAB;
      ptr := ptr + 1;
    }
  }

  /** The indentation in front of a name. */
  method WriteIndent(out: array<byte>, start: nat, depth: nat, fmt: bool) returns (ptr: nat)
    requires start + |When(fmt, Tabs(depth))| < out.Length
    modifies out
    ensures ptr == start + |When(fmt, Tabs(depth))| && out[..ptr] == old(out[..start]) + When(fmt, Tabs(depth))
  {
    ptr := start;
    if fmt {
      ptr := WriteTabs(out, ptr, depth);
    }
  }

  /** The value, the comma and the line feed. */
  method WriteBody(out: array<byte>, start: nat, entry: array<byte>, last: bool, fmt: bool, ghost s: seq<byte>) returns (ptr: nat)
    requires IsText(entry, s) && entry != out
    requires start + |s + MemberTail(last, fmt)| < out.Length
    modifies out
    ensures ptr == start + |s + MemberTail(last, fmt)|
    ensures out[..ptr] == old(out[..start]) + (s + MemberTail(last, fmt))
  {
    Strcpy(out, start, entry, s);
    var size := Strlen(entry, s);
    ptr := start + size;
    if !last {
      out[ptr] := COMMA;
      ptr := ptr + 1;
    }
    if fmt {
      out[ptr] := LF;
      ptr := ptr + 1;
    }
    out[ptr] := NUL;
  }

  /** One member, with the interim terminators that `strcpy` and the loop leave. */
  method WriteMember(out: array<byte>, start: nat, name: array<byte>, entry: array<byte>, last: bool, depth: nat, fmt: bool,
                     ghost n: seq<byte>, ghost s: seq<byte>) returns (ptr: nat)
    requires IsText(name, n) && IsText(entry, s) && name != out && entry != out
    requires start + |MemberText(n, s, last, depth, fmt)| < out.Length
    modifies out
    ensures ptr == start + |MemberText(n, s, last, depth, fmt)|
    ensures out[..ptr] == old(out[..start]) + MemberText(n, s, last, depth, fmt)
  {
    hide When, Tabs, MemberTail, IsText;
    ptr := WriteIndent(out, start, depth, fmt);
    ptr := WriteName(out, ptr, name, fmt, n);
    ptr := WriteBody(out, ptr, entry, last, fmt, s);
  }

  /** `{` and the line feed. */
  method OpenObject(out: array<byte>, fmt: bool) returns (ptr: nat)
    requires |When(fmt, [LF])| + 1 < out.Length
    modifies out
    ensures ptr == 1 + |When(fmt, [LF])| && out[..ptr] == [LBRACE] + When(fmt, [LF])
  {
    out[0] := LBRACE;
    ptr := 1;
    if fmt {
      out[ptr] := LF;
      ptr := ptr + 1;
    }
    out[ptr] := NUL;
  }

  /** The last indentation, the brace and the terminator. */
  method CloseObject(out: array<byte>, start: nat, depth: nat, fmt: bool, ghost all: seq<byte>)
    requires start + |Closing(depth, fmt)| < out.Length && out[..start] == all
    modifies out
    ensures out[..|all + Closing(depth, fmt)| + 1] == all + Closing(depth, fmt) + [NUL]
  {
    hide When, Tabs;
    var ptr := WriteIndent(out, start, depth, fmt);
    out[ptr] := RBRACE;
    out[ptr + 1] := NUL;
    assert out[..ptr] == all + When(fmt, Tabs(depth));
    assert out[..ptr + 2] == out[..ptr] + [RBRACE, NUL];
  }

  /** The composing half of `print_object`; `depth` is that of the members. */
  method ComposeObject(b: Blocks, tables: (Table, Table), names: seq<array<byte>>, entries: seq<array<byte>>,
                       ghost ns: seq<seq<byte>>, ghost texts: seq<seq<byte>>,
                       len: nat, depth: nat, fmt: bool, ghost rest: set<object>) returns (out: array<byte>)
    requires AreTexts(names, ns) && AreTexts(entries, texts) && |names| == |entries| && depth > 0
    requires len == 7 + (if fmt then depth else 0) + MembersLength(ns, texts, depth, fmt)
    requires Holds(b.live, rest + {tables.0, tables.1}, names, entries)
    requires tables.0 != tables.1 && tables.0 !in rest && tables.1 !in rest
    modifies b
    ensures fresh(out) && out.Length == len && b.live == rest + {out}
    ensures IsText(out, [LBRACE] + When(fmt, [LF]) + JoinMembers(ns, texts, depth, fmt) + Closing(depth - 1, fmt))
  {
    hide JoinMembers, MembersLength, NulFree, MemberText, Holds, AreTexts, IsText, Closing, When;
    AreTextsAt(names, ns, 0);
    AreTextsAt(entries, texts, 0);
    ObjectFits(ns, texts, depth, fmt);
    ghost var all := [LBRACE] + When(fmt, [LF]) + JoinMembers(ns, texts, depth, fmt);
    ghost var live := b.live;
    out := b.New(len);
    HoldsBeside(live, rest + {tables.0, tables.1}, names, entries, out);
    ghost var base := rest + {tables.0, tables.1} + {out};
    var ptr := OpenObject(out, fmt);
    var i: nat := 0;
    assert ns[0..] == ns && texts[0..] == texts && names[0..] == names && entries[0..] == entries;
    while i < |entries|
      invariant i <= |entries| && AreTexts(names, ns) && AreTexts(entries, texts)
      invariant Holds(b.live, base, names[i..], entries[i..])
      invariant 0 <= ptr <= |all| && out[..ptr] + JoinMembers(ns[i..], texts[i..], depth, fmt) == all
    {
      AreTextsAt(names, ns, i);
      AreTextsAt(entries, texts, i);
      JoinMembersStep(out[..ptr], ns, texts, i, depth, fmt);
      ghost var grown := out[..ptr] + MemberText(ns[i], texts[i], i == |ns| - 1, depth, fmt);
      assert |grown| <= |all|;
      ptr := WriteMember(out, ptr, names[i], entries[i], i == |entries| - 1, depth, fmt, ns[i], texts[i]);
      HoldsNameLess(b.live, base, names[i..], entries[i..]);
      b.Free(names[i]);
      HoldsEntryLess(b.live, base, names[i..][1..], entries[i..]);
      b.Free(entries[i]);
      assert names[i..][1..] == names[i + 1..] && entries[i..][1..] == entries[i + 1..];
      i := i + 1;
    }
    assert names[i..] == [] && entries[i..] == [];
    HoldsEnd(b.live, base);
    b.Free(tables.0);
    b.Free(tables.1);
    NoMemberTexts(ns, texts, depth, fmt);
    assert out[..ptr] == all;
    CloseObject(out, ptr, depth - 1, fmt, all);
    ObjectNulFree(ns, texts, depth, fmt);
    MakeText(out, all + Closing(depth - 1, fmt));
  }

  lemma ObjectFits(names: seq<seq<byte>>, texts: seq<seq<byte>>, depth: nat, fmt: bool)
    requires |names| == |texts| && depth > 0
    ensures |[LBRACE] + When(fmt, [LF]) + JoinMembers(names, texts, depth, fmt)| + |Closing(depth - 1, fmt)| + 1
         <= 7 + (if fmt then depth else 0) + MembersLength(names, texts, depth, fmt)
  {
    hide JoinMembers, MembersLength;
    JoinMembersFits(names, texts, depth, fmt);
  }

  lemma NoMemberTexts(names: seq<seq<byte>>, texts: seq<seq<byte>>, depth: nat, fmt: bool)
    requires |names| == |texts|
    ensures JoinMembers(names[|names|..], texts[|texts|..], depth, fmt) == []
  {
  }

  lemma ObjectNulFree(names: seq<seq<byte>>, texts: seq<seq<byte>>, depth: nat, fmt: bool)
    requires |names| == |texts| && depth > 0 && forall k :: 0 <= k < |texts| ==> NulFree(texts[k]) && NulFree(names[k])
    ensures NulFree([LBRACE] + When(fmt, [LF]) + JoinMembers(names, texts, depth, fmt) + Closing(depth - 1, fmt))
  {
    JoinMembersNulFree(names, texts, depth, fmt);
  }

  // ----- the printers -----

  lemma KidPrintable(m: Mem, t: Tree, k: nat)
    requires t.addr in m.nodes && k < |t.kids| && Printable(ValueOf(m, t))
    requires m.nodes[t.addr].kind == KArray || m.nodes[t.addr].kind == KObject
    ensures Printable(ValueOf(m, t.kids[k]))
    ensures m.nodes[t.addr].kind == KObject ==> NulFree(TextAt(m, t.kids[k].name))
  {
    if m.nodes[t.addr].kind == KArray {
      assert Printable(ValuesOf(m, t.kids)[k]);
    } else {
      assert Printable(MembersOf(m, t.kids)[k].value) && NulFree(MembersOf(m, t.kids)[k].name);
    }
  }

  /** `print_value`; a printable tree has no node of type double. */
  method PrintItem(h: Heap, item: Ptr, depth: nat, fmt: bool, ghost t: Tree) returns (out: array<byte>)
    requires WellFormed(h.mem) && Held(h.mem, t) && t.addr == item && Printable(ValueOf(h.mem, t))
    modifies h.texts
    ensures fresh(out) && IsText(out, Render(ValueOf(h.mem, t), depth, fmt))
    ensures out !in old(h.texts.live) && h.texts.live == old(h.texts.live) + {out}
    decreases t, 4
  {
    RenderNulFree(ValueOf(h.mem, t), depth, fmt);
    var node := h.mem.nodes[item];
    match node.kind
    case KNull => out := Strdup(h.texts, NULL_TEXT);
    case KFalse => out := Strdup(h.texts, FALSE_TEXT);
    case KTrue => out := Strdup(h.texts, TRUE_TEXT);
    case KInt => out := PrintInt(h.texts, node.number.value, node.number.sign);
    case KString => out := PrintString(h.texts, TextAt(h.mem, node.valuestring));
    case KArray => out := PrintArrayItem(h, item, depth, fmt, t);
    case KObject => out := PrintObjectItem(h, item, depth, fmt, t);
  }

  /** The first half of `print_array`: print the elements and add up the lengths. */
  method CollectItems(h: Heap, item: Ptr, depth: nat, fmt: bool, ghost t: Tree)
    returns (table: Table, entries: seq<array<byte>>, len: nat)
    requires WellFormed(h.mem) && Held(h.mem, t) && t.addr == item
    requires h.mem.nodes[item].kind == KArray && Printable(ValueOf(h.mem, t))
    modifies h.texts
    ensures Holds(h.texts.live, old(h.texts.live) + {table}, [], entries) && table !in old(h.texts.live)
    ensures AreTexts(entries, Texts(ValuesOf(h.mem, t.kids), depth, fmt))
    ensures len == 5 + ItemsLength(Texts(ValuesOf(h.mem, t.kids), depth, fmt), fmt)
    decreases t, 2
  {
    hide Held, ValueOf, Render, ItemsLength, Printable, WellFormed, IsText, AreTexts, Linked, Holds;
    NoTexts();
    Walkable(h.mem, t);
    ghost var texts := Texts(ValuesOf(h.mem, t.kids), depth, fmt);
    entries, len := [], 5;
    var child, i: nat := h.mem.nodes[item].child, 0;
    ghost var base := h.texts.live;
    table := h.texts.NewTable();
    HoldsNone(base + {table});
    NoItemsLength(fmt);
    while child != 0
      invariant i <= |t.kids| && child == AddrAt(t.kids, i)
      invariant Holds(h.texts.live, base + {table}, [], entries)
      invariant AreTexts(entries, texts[..i]) && len == 5 + ItemsLength(texts[..i], fmt)
      decreases |t.kids| - i
    {
      ghost var live := h.texts.live;
      var ret, n := PrintElement(h, child, depth, fmt, t, i);
      AreTextsSnoc(entries, texts[..i], ret, texts[i]);
      HoldsMoreEntries(live, base + {table}, [], entries, ret);
      entries := entries + [ret];
      len := len + n + 2 + if fmt then 1 else 0;
      ItemsLengthSnoc(texts[..i], texts[i], fmt);
      assert texts[..i + 1] == texts[..i] + [texts[i]];
      LinkedKid(h.mem, t, i);
      child, i := h.mem.nodes[child].next, i + 1;
    }
    assert texts[..i] == texts;
  }

  /** The text of an element and its length. */
  method PrintElement(h: Heap, child: Ptr, depth: nat, fmt: bool, ghost t: Tree, ghost i: nat) returns (ret: array<byte>, n: nat)
    requires WellFormed(h.mem) && Held(h.mem, t) && t.addr in h.mem.nodes && i < |t.kids| && child == t.kids[i].addr
    requires h.mem.nodes[t.addr].kind == KArray && Printable(ValueOf(h.mem, t))
    modifies h.texts
    ensures fresh(ret) && ret !in old(h.texts.live) && h.texts.live == old(h.texts.live) + {ret}
    ensures IsText(ret, Render(ValuesOf(h.mem, t.kids)[i], depth, fmt)) && n == |Render(ValuesOf(h.mem, t.kids)[i], depth, fmt)|
    decreases t, 1
  {
    hide Held, ValueOf, Render, Printable, WellFormed;
    KidHeld(h.mem, t, i);
    KidPrintable(h.mem, t, i);
    ret := PrintItem(h, child, depth, fmt, t.kids[i]);
    n := Strlen(ret, Render(ValuesOf(h.mem, t.kids)[i], depth, fmt));
  }

  lemma NoItemsLength(fmt: bool)
    ensures ItemsLength([], fmt) == 0
  {
  }

  /** `print_array` */
  method PrintArrayItem(h: Heap, item: Ptr, depth: nat, fmt: bool, ghost t: Tree) returns (out: array<byte>)
    requires WellFormed(h.mem) && Held(h.mem, t) && t.addr == item
    requires h.mem.nodes[item].kind == KArray && Printable(ValueOf(h.mem, t))
    modifies h.texts
    ensures fresh(out) && IsText(out, Render(ValueOf(h.mem, t), depth, fmt))
    ensures out !in old(h.texts.live) && h.texts.live == old(h.texts.live) + {out}
    decreases t, 3
  {
    hide Held, WellFormed, IsText, AreTexts, Join, ItemsLength, RenderItems, Printable;
    ghost var rest := h.texts.live;
    var table, entries, len := CollectItems(h, item, depth + 1, fmt, t);
    ghost var vs := ValuesOf(h.mem, t.kids);
    JoinIsRender(vs, depth + 1, fmt);
    RootFacts(h.mem, t);
    ArrayValue(h.mem, t);
    out := ComposeArray(h.texts, table, entries, Texts(vs, depth + 1, fmt), len, fmt, rest);
  }

  /** The first half of `print_object`: print names and values and add up the lengths. */
  method CollectMembers(h: Heap, item: Ptr, depth: nat, fmt: bool, ghost t: Tree)
    returns (tables: (Table, Table), names: seq<array<byte>>, entries: seq<array<byte>>, len: nat)
    requires WellFormed(h.mem) && Held(h.mem, t) && t.addr == item
    requires h.mem.nodes[item].kind == KObject && Printable(ValueOf(h.mem, t))
    modifies h.texts
    ensures Holds(h.texts.live, old(h.texts.live) + {tables.0, tables.1}, names, entries)
    ensures tables.0 != tables.1 && tables.0 !in old(h.texts.live) && tables.1 !in old(h.texts.live)
    ensures var ms := MembersOf(h.mem, t.kids);
            && AreTexts(names, Names(ms)) && AreTexts(entries, MemberTexts(ms, depth, fmt))
            && len == 7 + (if fmt then depth else 0) + MembersLength(Names(ms), MemberTexts(ms, depth, fmt), depth, fmt)
    decreases t, 2
  {
    hide Held, ValueOf, Render, MembersLength, Printable, WellFormed, TextAt, Quoted, IsText, AreTexts, Linked, Holds;
    NoTexts();
    Walkable(h.mem, t);
    ghost var ms := MembersOf(h.mem, t.kids);
    ghost var ns, texts := Names(ms), MemberTexts(ms, depth, fmt);
    names, entries, len := [], [], 7;
    if fmt {
      len := len + depth;
    }
    var child, i: nat := h.mem.nodes[item].child, 0;
    NoMembersLength(depth, fmt);
    ghost var base := h.texts.live;
    var table := h.texts.NewTable();
    var table2 := h.texts.NewTable();
    tables := (table, table2);
    ghost var all := base + {table, table2};
    assert h.texts.live == all;
    HoldsNone(all);
    while child != 0
      invariant i <= |t.kids| && child == AddrAt(t.kids, i)
      invariant AreTexts(names, ns[..i]) && AreTexts(entries, texts[..i])
      invariant Holds(h.texts.live, all, names, entries)
      invariant len == 7 + (if fmt then depth else 0) + MembersLength(ns[..i], texts[..i], depth, fmt)
      decreases |t.kids| - i
    {
      ghost var live := h.texts.live;
      var str, ret, n := PrintMember(h, child, depth, fmt, t, i);
      AreTextsSnoc(names, ns[..i], str, ns[i]);
      AreTextsSnoc(entries, texts[..i], ret, texts[i]);
      HoldsMoreNames(live, all, names, entries, str);
      HoldsMoreEntries(live + {str}, all, names + [str], entries, ret);
      names, entries := names + [str], entries + [ret];
      len := len + n + 2 + if fmt then 2 + depth else 0;
      MembersLengthSnoc(ns[..i], texts[..i], ns[i], texts[i], depth, fmt);
      assert ns[..i + 1] == ns[..i] + [ns[i]] && texts[..i + 1] == texts[..i] + [texts[i]];
      LinkedKid(h.mem, t, i);
      child, i := h.mem.nodes[child].next, i + 1;
    }
    assert ns[..i] == ns && texts[..i] == texts;
  }

  /** The two texts of a member and the sum of their lengths. */
  method PrintMember(h: Heap, child: Ptr, depth: nat, fmt: bool, ghost t: Tree, ghost i: nat)
    returns (str: array<byte>, ret: array<byte>, n: nat)
    requires WellFormed(h.mem) && Held(h.mem, t) && t.addr in h.mem.nodes && i < |t.kids| && child == t.kids[i].addr
    requires h.mem.nodes[t.addr].kind == KObject && Printable(ValueOf(h.mem, t))
    modifies h.texts
    ensures fresh(str) && str !in old(h.texts.live) && fresh(ret) && ret !in old(h.texts.live) && str != ret
    ensures h.texts.live == old(h.texts.live) + {str} + {ret}
    ensures var m := MembersOf(h.mem, t.kids)[i];
            && IsText(str, Quoted(m.name)) && IsText(ret, Render(m.value, depth, fmt))
            && n == |Quoted(m.name)| + |Render(m.value, depth, fmt)|
    decreases t, 1
  {
    hide Held, ValueOf, Render, Printable, WellFormed, TextAt, Quoted;
    KidHeld(h.mem, t, i);
    KidPrintable(h.mem, t, i);
    KidName(h.mem, t, i);
    ghost var m := MembersOf(h.mem, t.kids)[i];
    str := PrintName(h.texts, TextAt(h.mem, h.mem.nodes[child].name));
    ret := PrintItem(h, child, depth, fmt, t.kids[i]);
    var n1 := Strlen(ret, Render(m.value, depth, fmt));
    var n2 := Strlen(str, Quoted(m.name));
    n := n1 + n2;
  }

  lemma KidName(m: Mem, t: Tree, k: nat)
    requires Held(m, t) && k < |t.kids|
    ensures t.kids[k].addr in m.nodes && m.nodes[t.kids[k].addr].name == t.kids[k].name
  {
    KidHeld(m, t, k);
  }

  /** `print_string_ptr` of a name. */
  method PrintName(b: Blocks, s: seq<byte>) returns (out: array<byte>)
    requires NulFree(s)
    modifies b
    ensures fresh(out) && IsText(out, Quoted(s)) && out !in old(b.live) && b.live == old(b.live) + {out}
  {
    EscapeNulFree(s);
    out := PrintString(b, s);
    assert out[..|Quoted(s)| + 1] == out[..];
  }

  lemma NoMembersLength(depth: nat, fmt: bool)
    ensures MembersLength([], [], depth, fmt) == 0
  {
  }

  /** `print_object` */
  method PrintObjectItem(h: Heap, item: Ptr, depth: nat, fmt: bool, ghost t: Tree) returns (out: array<byte>)
    requires WellFormed(h.mem) && Held(h.mem, t) && t.addr == item
    requires h.mem.nodes[item].kind == KObject && Printable(ValueOf(h.mem, t))
    modifies h.texts
    ensures fresh(out) && IsText(out, Render(ValueOf(h.mem, t), depth, fmt))
    ensures out !in old(h.texts.live) && h.texts.live == old(h.texts.live) + {out}
    decreases t, 3
  {
    hide Held, WellFormed, IsText, AreTexts, Closing, JoinMembers, MembersLength, RenderMembers, Printable;
    ghost var rest := h.texts.live;
    var tables, names, entries, len := CollectMembers(h, item, depth + 1, fmt, t);
    TextsLength(names, entries, Names(MembersOf(h.mem, t.kids)), MemberTexts(MembersOf(h.mem, t.kids), depth + 1, fmt));
    ghost var ms := MembersOf(h.mem, t.kids);
    JoinMembersIsRender(ms, depth + 1, fmt);
    RootFacts(h.mem, t);
    ObjectValue(h.mem, t);
    out := ComposeObject(h.texts, tables, names, entries, Names(ms), MemberTexts(ms, depth + 1, fmt), len, depth + 1, fmt, rest);
  }

  /** `cJSON_Print` and `cJSON_PrintUnformatted` */
  method Print(h: Heap, item: Ptr, fmt: bool, ghost t: Tree) returns (out: array<byte>)
    requires WellFormed(h.mem) && Held(h.mem, t) && t.addr == item && Printable(ValueOf(h.mem, t))
    modifies h.texts
    ensures fresh(out) && IsText(out, Render(ValueOf(h.mem, t), 0, fmt))
    ensures out !in old(h.texts.live) && h.texts.live == old(h.texts.live) + {out}
  {
    out := PrintItem(h, item, 0, fmt, t);
  }
}
