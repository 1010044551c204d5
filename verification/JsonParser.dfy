/** The parser on the heap (cJSON.c:214-555, 627-686): it builds what `JsonText` says it
    reads, and owns from the root whatever it allocates, when it fails as well. */
module JsonParser {
  import opened Bytes
  import opened JsonInteger
  import opened JsonString
  import opened JsonText
  import opened JsonHeap

  /** From `m` to `n` nothing happened but to `item`, which now owns `tree` and with it every new allocation. */
  ghost predicate Grown(m: Mem, n: Mem, item: Ptr, tree: Tree) {
    && WellFormed(n) && Held(n, tree) && Proper(tree) && tree.addr == item
    && item in m.nodes
    && (m.nodes[item].name == 0 || tree.name == m.nodes[item].name)
    && n.nodes[item].next == m.nodes[item].next && n.nodes[item].prev == m.nodes[item].prev
    && Live(n) == Live(m) + Cells(tree)
    && Cells(tree) * Live(m) == {item} + Cell(m.nodes[item].name)
    && Agree(m, n, Live(m) - {item})
  }

  /** A node that owns nothing yet but perhaps its name. */
  predicate Ready(m: Mem, item: Ptr) {
    && WellFormed(m)
    && item in m.nodes && m.nodes[item].child == 0 && m.nodes[item].valuestring == 0
    && (m.nodes[item].name != 0 ==> m.nodes[item].name in m.blocks)
  }

  /** A leaf that owns one string at most. */
  lemma LeafGrown(m: Mem, n: Mem, item: Ptr, node: Node, text: map<Ptr, seq<byte>>)
    requires Ready(m, item) && WellFormed(n)
    requires node.child == 0 && node.next == m.nodes[item].next && node.prev == m.nodes[item].prev
    requires node.name == m.nodes[item].name
    requires text.Keys == Cell(node.valuestring) && text.Keys !! Live(m)
    requires n == Mem(m.nodes[item := node], m.blocks + text)
    ensures Grown(m, n, item, Tree(item, node.valuestring, node.name, []))
  {
    NoCells();
  }

  // ----- appending a child -----

  /** Hang the new node behind the children that are there. */
  function Link(m: Mem, item: Ptr, last: Ptr, added: Ptr): Mem
    requires item in m.nodes && (last != 0 ==> last in m.nodes) && added in m.nodes
  {
    if last == 0 then m.(nodes := m.nodes[item := m.nodes[item].(child := added)])
    else
      var nodes := m.nodes[last := m.nodes[last].(next := added)];
      m.(nodes := nodes[added := nodes[added].(prev := last)])
  }

  /** The state in which the child `added` is about to be parsed. */
  ghost predicate Appending(m: Mem, m1: Mem, item: Ptr, done: seq<Tree>, added: Ptr) {
    && item in m.nodes && added !in Live(m) && added != 0 && (done != [] ==> done[|done| - 1].addr in m.nodes)
    && m1 == Link(m.(nodes := m.nodes[added := BLANK]), item, AddrAt(done, |done| - 1), added)
  }

  lemma AppendReady(m: Mem, m1: Mem, item: Ptr, done: seq<Tree>, added: Ptr)
    requires WellFormed(m) && Appending(m, m1, item, done, added)
    ensures Ready(m1, added) && Live(m1) == Live(m) + {added} && m1.nodes[added].name == 0
    ensures m1.nodes[added].next == 0 && m1.nodes[added].prev == AddrAt(done, |done| - 1)
    ensures m1.blocks == m.blocks
    ensures Agree(m, m1, Live(m) - {item, AddrAt(done, |done| - 1)})
    ensures forall a :: a in m.nodes ==> a in m1.nodes
    ensures item != AddrAt(done, |done| - 1) ==>
              m1.nodes[item] == m.nodes[item].(child := if done == [] then added else m.nodes[item].child)
    ensures done != [] && item != AddrAt(done, |done| - 1) ==>
              m1.nodes[AddrAt(done, |done| - 1)] == m.nodes[AddrAt(done, |done| - 1)].(next := added)
  {
  }

  /** What `Grown` says without its trees. */
  lemma GrownFacts(m: Mem, n: Mem, item: Ptr, tree: Tree)
    requires Grown(m, n, item, tree)
    ensures WellFormed(n) && Held(n, tree) && Proper(tree) && tree.addr == item && item in m.nodes && item in n.nodes
    ensures n.nodes[item].next == m.nodes[item].next && n.nodes[item].prev == m.nodes[item].prev
    ensures Live(n) == Live(m) + Cells(tree)
    ensures Agree(m, n, Live(m) - {item})
  {
  }

  lemma AgreeTrans(m: Mem, m1: Mem, m2: Mem, s: set<Ptr>)
    requires Agree(m, m1, s) && Agree(m1, m2, s)
    ensures Agree(m, m2, s)
  {
  }

  /** The cells of a child that is there already stay, but for the link to the new one. */
  lemma OldCells(m: Mem, m1: Mem, m2: Mem, t: Tree, added: Ptr, kid: Tree, k: nat)
    requires WellFormed(m) && Held(m, t) && Proper(t) && k < |t.kids|
    requires Appending(m, m1, t.addr, t.kids, added) && Grown(m1, m2, added, kid)
    ensures Agree(m, m2, Cells(t.kids[k]) - {AddrAt(t.kids, |t.kids| - 1)})
  {
    hide Cells, Proper, Held, Grown, Appending;
    AppendReady(m, m1, t.addr, t.kids, added);
    HeldLive(m, t);
    KidCells(t, k);
    GrownFacts(m1, m2, added, kid);
    assert added !in Live(m) by { AppendingFresh(m, m1, t.addr, t.kids, added); }
    AgreeTrans(m, m1, m2, Cells(t.kids[k]) - {AddrAt(t.kids, |t.kids| - 1)});
  }

  lemma AppendingFresh(m: Mem, m1: Mem, item: Ptr, done: seq<Tree>, added: Ptr)
    requires Appending(m, m1, item, done, added)
    ensures added !in Live(m) && added != 0
  {
  }

  lemma OldRoot(m: Mem, m1: Mem, m2: Mem, t: Tree, added: Ptr, kid: Tree, k: nat)
    requires WellFormed(m) && Held(m, t) && Proper(t) && k < |t.kids|
    requires Appending(m, m1, t.addr, t.kids, added) && Grown(m1, m2, added, kid)
    ensures t.kids[k].addr in m2.nodes && t.kids[k].addr in m.nodes
    ensures m2.nodes[t.kids[k].addr]
         == if k == |t.kids| - 1 then m.nodes[t.kids[k].addr].(next := added) else m.nodes[t.kids[k].addr]
  {
    hide Cells, Proper, Held, Grown, Appending;
    var last := |t.kids| - 1;
    AppendReady(m, m1, t.addr, t.kids, added);
    KidHeld(m, t, k);
    KidCells(t, k);
    KidCells(t, last);
    if k != last {
      KidApart(t, k, last);
    }
    GrownFacts(m1, m2, added, kid);
    AppendingFresh(m, m1, t.addr, t.kids, added);
  }

  lemma OldChild(m: Mem, m1: Mem, m2: Mem, t: Tree, added: Ptr, kid: Tree, k: nat)
    requires WellFormed(m) && Held(m, t) && Proper(t) && k < |t.kids|
    requires Appending(m, m1, t.addr, t.kids, added) && Grown(m1, m2, added, kid)
    ensures Held(m2, t.kids[k]) && ValueOf(m2, t.kids[k]) == ValueOf(m, t.kids[k])
    ensures TextAt(m2, t.kids[k].name) == TextAt(m, t.kids[k].name)
  {
    hide Cells, Proper, Held, Grown, Appending, ValueOf, TextAt;
    OldCells(m, m1, m2, t, added, kid, k);
    OldRoot(m, m1, m2, t, added, kid, k);
    if k < |t.kids| - 1 {
      KidApart(t, |t.kids| - 1, k);
    }
    KidHeld(m, t, k);
    KidCells(t, k);
    HeldFrame(m, m2, t.kids[k]);
  }

  lemma NewRoot(m: Mem, m1: Mem, m2: Mem, t: Tree, added: Ptr, kid: Tree)
    requires WellFormed(m) && Appending(m, m1, t.addr, t.kids, added) && Grown(m1, m2, added, kid)
    ensures kid.addr == added && added in m2.nodes && m2.nodes[added].next == 0
    ensures m2.nodes[added].prev == AddrAt(t.kids, |t.kids| - 1)
  {
    hide Grown, Appending;
    AppendReady(m, m1, t.addr, t.kids, added);
    GrownFacts(m1, m2, added, kid);
  }

  lemma AppendLinks(m: Mem, m1: Mem, m2: Mem, t: Tree, added: Ptr, kid: Tree)
    requires WellFormed(m) && Held(m, t) && Proper(t)
    requires Appending(m, m1, t.addr, t.kids, added) && Grown(m1, m2, added, kid)
    ensures Linked(m2, t.kids + [kid])
  {
    hide Held, Proper, Grown, Appending, Cells, Linked, WellFormed;
    var all := t.kids + [kid];
    RootFacts(m, t);
    NewRoot(m, m1, m2, t, added, kid);
    forall k | 0 <= k < |t.kids|
      ensures all[k] == t.kids[k] && all[k].addr in m2.nodes
      ensures m2.nodes[all[k].addr].prev == AddrAt(all, k - 1) && m2.nodes[all[k].addr].next == AddrAt(all, k + 1)
    {
      OldRoot(m, m1, m2, t, added, kid, k);
      LinkedKid(m, t, k);
    }
    LinkedByIndex(m2, all);
  }

  /** After the child is parsed, the old children are as they were and the new one stands behind them. */
  lemma AppendChildren(m: Mem, m1: Mem, m2: Mem, t: Tree, added: Ptr, kid: Tree)
    requires WellFormed(m) && Held(m, t) && Proper(t)
    requires Appending(m, m1, t.addr, t.kids, added) && Grown(m1, m2, added, kid)
    ensures HeldAll(m2, t.kids + [kid])
    ensures ValuesOf(m2, t.kids + [kid]) == ValuesOf(m, t.kids) + [ValueOf(m2, kid)]
    ensures MembersOf(m2, t.kids + [kid]) == MembersOf(m, t.kids) + [Member(TextAt(m2, kid.name), ValueOf(m2, kid))]
  {
    hide Held, Proper, Grown, Appending, ValueOf, TextAt, Cells;
    GrownFacts(m1, m2, added, kid);
    var all := t.kids + [kid];
    forall k | 0 <= k < |t.kids|
      ensures all[k] == t.kids[k]
      ensures Held(m2, t.kids[k]) && ValueOf(m2, t.kids[k]) == ValueOf(m, t.kids[k])
      ensures TextAt(m2, t.kids[k].name) == TextAt(m, t.kids[k].name)
    {
      OldChild(m, m1, m2, t, added, kid, k);
    }
    assert all[|t.kids|] == kid;
  }

  /** Adding a child keeps the account of the allocations. */
  lemma AppendCells(m0: Mem, m: Mem, m1: Mem, m2: Mem, t: Tree, added: Ptr, kid: Tree)
    requires Grown(m0, m, t.addr, t) && WellFormed(m0)
    requires Appending(m, m1, t.addr, t.kids, added) && Grown(m1, m2, added, kid)
    ensures Cells(kid) !! Live(m)
    ensures Cells(t.(kids := t.kids + [kid])) == Cells(t) + Cells(kid)
    ensures Live(m2) == Live(m) + Cells(kid)
  {
    hide Held, Proper, Agree, CellsOf, Linked, WellFormed, Appending;
    AppendReady(m, m1, t.addr, t.kids, added);
    AppendingFresh(m, m1, t.addr, t.kids, added);
    CellsOfSnoc(t.kids, kid);
  }

  lemma AppendProper(t: Tree, kid: Tree)
    requires Proper(t) && Proper(kid) && Cells(kid) !! Cells(t)
    ensures Proper(t.(kids := t.kids + [kid]))
  {
    hide CellsOf;
    var all := t.kids + [kid];
    CellsOfSnoc(t.kids, kid);
    forall k | 0 <= k < |t.kids|
      ensures all[k] == t.kids[k] && Proper(all[k]) && Cells(all[k]) !! Cells(kid)
    {
      KidCells(t, k);
    }
    assert all[|t.kids|] == kid;
  }

  lemma AppendAgree(m0: Mem, m: Mem, m1: Mem, m2: Mem, t: Tree, added: Ptr, kid: Tree)
    requires Grown(m0, m, t.addr, t) && WellFormed(m0)
    requires Appending(m, m1, t.addr, t.kids, added) && Grown(m1, m2, added, kid)
    ensures Agree(m0, m2, Live(m0) - {t.addr})
  {
    hide Held, Proper, Cells, Appending;
    AppendReady(m, m1, t.addr, t.kids, added);
    AppendingFresh(m, m1, t.addr, t.kids, added);
    var last := AddrAt(t.kids, |t.kids| - 1);
    if t.kids != [] {
      KidCells(t, |t.kids| - 1);
      NameIsNoKid(m, t, |t.kids| - 1);
    }
    assert last !in Cells(t) * Live(m0) || last == t.addr;
    AgreeTrans(m0, m, m1, Live(m0) - {t.addr});
    AgreeTrans(m0, m1, m2, Live(m0) - {t.addr});
  }

  lemma NameIsNoKid(m: Mem, t: Tree, k: nat)
    requires WellFormed(m) && Held(m, t) && k < |t.kids|
    ensures t.kids[k].addr != t.name && t.kids[k].addr != 0
  {
    KidHeld(m, t, k);
  }

  /** One more child has been parsed, or its parsing has failed: either way it hangs in the tree. */
  lemma AppendGrown(m0: Mem, m: Mem, m1: Mem, m2: Mem, t: Tree, added: Ptr, kid: Tree)
    requires Grown(m0, m, t.addr, t) && WellFormed(m0)
    requires Appending(m, m1, t.addr, t.kids, added) && Grown(m1, m2, added, kid)
    ensures Grown(m0, m2, t.addr, t.(kids := t.kids + [kid]))
    ensures t.addr in m.nodes && t.addr in m2.nodes && m2.nodes[t.addr].kind == m.nodes[t.addr].kind
  {
    hide Held, Proper, Cells, Appending, Linked, HeldAll;
    var all := t.kids + [kid];
    AppendReady(m, m1, t.addr, t.kids, added);
    AppendingFresh(m, m1, t.addr, t.kids, added);
    AppendChildren(m, m1, m2, t, added, kid);
    AppendLinks(m, m1, m2, t, added, kid);
    AppendCells(m0, m, m1, m2, t, added, kid);
    HeldLive(m, t);
    AppendProper(t, kid);
    AppendAgree(m0, m, m1, m2, t, added, kid);
    RootFacts(m, t);
    if t.kids != [] {
      KidCells(t, |t.kids| - 1);
      NameIsNoKid(m, t, 0);
    }
    assert (Cells(t) + Cells(kid)) * Live(m0) == Cells(t) * Live(m0);
    MakeHeld(m2, t.(kids := all));
  }

  // ----- the parsers -----

  /** The outcome without its value. */
  function Forget<T>(r: Outcome<T>): Outcome<()> {
    match r
    case Got(_, p) => Got((), p)
    case Failed(at) => Failed(at)
    case Undefined => Undefined
  }

  /** `parse_string` into `valuestring`. */
  method ParseStringItem(h: Heap, item: Ptr, t: seq<byte>, i: nat) returns (r: StringResult, ghost tree: Tree)
    requires Ready(h.mem, item)
    modifies h
    ensures r == StringAt(t, i)
    ensures !r.Incomplete? ==> Grown(old(h.mem), h.mem, item, tree) && tree.name == old(h.mem).nodes[item].name
    ensures !r.Incomplete? ==> tree.kids == [] && h.mem.nodes[item].name == tree.name
    ensures r.Parsed? ==> h.ep == old(h.ep)
    ensures r.NotAString? ==> h.ep == ErrorAt(i) && tree.valuestring == 0
    ensures r.Parsed? ==> h.mem.nodes[item].kind == KString && TextAt(h.mem, tree.valuestring) == r.bytes
    ensures r.Parsed? ==> tree.valuestring != 0 && tree.valuestring !in Live(old(h.mem))
  {
    ghost var m := h.mem;
    r := ParseString(t, i);
    tree := Tree(item, 0, h.mem.nodes[item].name, []);
    if r.NotAString? {
      h.ep := ErrorAt(i);
      assert m == Mem(m.nodes[item := m.nodes[item]], m.blocks + map[]);
      LeafGrown(m, h.mem, item, m.nodes[item], map[]);
    } else if r.Parsed? {
      var out := h.NewString(r.bytes);
      var node := h.mem.nodes[item].(valuestring := out, kind := KString);
      h.mem := h.mem.(nodes := h.mem.nodes[item := node]);
      assert h.mem == Mem(m.nodes[item := node], m.blocks + map[out := r.bytes]);
      LeafGrown(m, h.mem, item, node, map[out := r.bytes]);
      tree := Tree(item, out, node.name, []);
    }
  }

  /** A value without allocations of its own: only the fields of the node change. */
  method SetLeaf(h: Heap, item: Ptr, kind: Kind, number: Number) returns (ghost tree: Tree)
    requires Ready(h.mem, item)
    modifies h`mem
    ensures Grown(old(h.mem), h.mem, item, tree) && tree.name == old(h.mem).nodes[item].name
    ensures h.mem.nodes[item].kind == kind && h.mem.nodes[item].number == number
    ensures tree == Tree(item, 0, tree.name, [])
  {
    ghost var m := h.mem;
    var node := h.mem.nodes[item].(kind := kind, number := number);
    h.mem := h.mem.(nodes := h.mem.nodes[item := node]);
    assert h.mem == Mem(m.nodes[item := node], m.blocks + map[]);
    LeafGrown(m, h.mem, item, node, map[]);
    tree := Tree(item, 0, node.name, []);
  }

  /** `parse_value`: the node comes to hold the value read, or what was read before the failure. */
  method ParseValueItem(h: Heap, item: Ptr, t: seq<byte>, i: nat) returns (r: Outcome<()>, ghost tree: Tree)
    requires Ready(h.mem, item)
    modifies h
    ensures r == Forget(ParseValue(t, i))
    ensures r.Failed? ==> h.ep == ErrorAt(r.at)
    ensures r.Got? ==> h.ep == old(h.ep)
    ensures !r.Undefined? ==> Grown(old(h.mem), h.mem, item, tree) && tree.name == old(h.mem).nodes[item].name
    ensures r.Got? ==> ValueOf(h.mem, tree) == ParseValue(t, i).value
    decreases |t| - i, 1
  {
    hide Held, Proper, Cells, Grown, Agree, MatchesAt, NumberAt, ParseArray, ParseObject, StringAt;
    ghost var m0 := h.mem;
    if MatchesAt(t, i, NULL_TEXT) {
      tree := SetLeaf(h, item, KNull, h.mem.nodes[item].number);
      r := Got((), i + 4);
    } else if MatchesAt(t, i, FALSE_TEXT) {
      tree := SetLeaf(h, item, KFalse, h.mem.nodes[item].number);
      r := Got((), i + 5);
    } else if MatchesAt(t, i, TRUE_TEXT) {
      tree := SetLeaf(h, item, KTrue, Int(1, 0));
      r := Got((), i + 4);
    } else if Peek(t, i) == QUOTE {
      var s;
      s, tree := ParseStringItem(h, item, t, i);
      r := if s.Parsed? then Got((), s.pos) else Undefined;
    } else if Peek(t, i) == MINUS || IsDigit(Peek(t, i)) {
      var number, num := ParseNumber(t, i);
      tree := SetLeaf(h, item, if number.Float? then KDouble else KInt, number);
      r := Got((), num);
    } else if Peek(t, i) == LBRACKET {
      r, tree := ParseArrayItem(h, item, t, i);
    } else if Peek(t, i) == LBRACE {
      r, tree := ParseObjectItem(h, item, t, i);
    } else {
      h.ep := ErrorAt(i);
      assert h.mem == Mem(h.mem.nodes[item := h.mem.nodes[item]], h.mem.blocks + map[]);
      LeafGrown(h.mem, h.mem, item, h.mem.nodes[item], map[]);
      tree := Tree(item, 0, h.mem.nodes[item].name, []);
      r := Failed(i);
    }
    if r.Got? {
      GrownFacts(m0, h.mem, item, tree);
    }
  }

  /** Allocate a node and hang it behind `last`, or under the parent when it is the first. */
  method NewChild(h: Heap, item: Ptr, last: Ptr, ghost kids: seq<Tree>) returns (child: Ptr)
    requires WellFormed(h.mem) && item in h.mem.nodes && last == AddrAt(kids, |kids| - 1)
    requires last != 0 ==> last in h.mem.nodes
    requires kids != [] ==> last != 0
    modifies h`mem
    ensures Appending(old(h.mem), h.mem, item, kids, child)
  {
    child := h.NewItem();
    var nodes := h.mem.nodes;
    if last == 0 {
      nodes := nodes[item := nodes[item].(child := child)];
    } else {
      nodes := nodes[last := nodes[last].(next := child)];
      nodes := nodes[child := nodes[child].(prev := last)];
    }
    h.mem := h.mem.(nodes := nodes);
  }

  /** The state between two children: everything allocated so far hangs in the tree. */
  ghost predicate Between(m0: Mem, m: Mem, item: Ptr, tree: Tree, kind: Kind, last: Ptr) {
    && WellFormed(m0) && item in m0.nodes
    && Grown(m0, m, item, tree) && tree.addr == item && tree.name == m0.nodes[item].name
    && item in m.nodes && m.nodes[item].kind == kind
    && last == AddrAt(tree.kids, |tree.kids| - 1)
    && (tree.kids != [] ==> last != 0 && last in m.nodes)
  }

  lemma BetweenAgain(m0: Mem, m: Mem, m1: Mem, m2: Mem, tree: Tree, kind: Kind, last: Ptr, child: Ptr, kid: Tree)
    requires Between(m0, m, tree.addr, tree, kind, last)
    requires Appending(m, m1, tree.addr, tree.kids, child) && Grown(m1, m2, child, kid)
    ensures Between(m0, m2, tree.addr, tree.(kids := tree.kids + [kid]), kind, child)
    ensures ValuesOf(m2, tree.kids + [kid]) == ValuesOf(m, tree.kids) + [ValueOf(m2, kid)]
    ensures MembersOf(m2, tree.kids + [kid]) == MembersOf(m, tree.kids) + [Member(TextAt(m2, kid.name), ValueOf(m2, kid))]
  {
    hide Held, Proper, Cells, Appending, ValueOf, TextAt;
    AppendGrown(m0, m, m1, m2, tree, child, kid);
    AppendChildren(m, m1, m2, tree, child, kid);
    AppendingFresh(m, m1, tree.addr, tree.kids, child);
    GrownFacts(m1, m2, child, kid);
    assert (tree.kids + [kid])[|tree.kids|] == kid;
  }

  /** One more element: allocated, linked and parsed. */
  method ParseElementItem(h: Heap, item: Ptr, last: Ptr, t: seq<byte>, i: nat, ghost m0: Mem, ghost before: Tree)
    returns (r: Outcome<()>, child: Ptr, ghost tree: Tree)
    requires Between(m0, h.mem, item, before, KArray, last)
    modifies h
    ensures r == Forget(ParseValue(t, i))
    ensures r.Failed? ==> h.ep == ErrorAt(r.at)
    ensures r.Got? ==> h.ep == old(h.ep)
    ensures !r.Undefined? ==> Between(m0, h.mem, item, tree, KArray, child) && tree.kids != []
    ensures r.Got? ==> ValuesOf(h.mem, tree.kids) == ValuesOf(old(h.mem), before.kids) + [ParseValue(t, i).value]
    decreases |t| - i, 2
  {
    hide Held, Proper, Cells, Appending, ValueOf;
    ghost var m := h.mem;
    child := NewChild(h, item, last, before.kids);
    ghost var m1 := h.mem;
    ghost var kid;
    AppendReady(m, m1, item, before.kids, child);
    r, kid := ParseValueItem(h, child, t, i);
    if !r.Undefined? {
      BetweenAgain(m0, m, m1, h.mem, before, KArray, last, child, kid);
      tree := before.(kids := before.kids + [kid]);
    } else {
      tree := before;
    }
  }

  /** What is known of the elements once the value at `i` is parsed. */
  lemma ElementsSoFar(t: seq<byte>, i: nat)
    ensures var r := ParseValue(t, i);
            if r.Got? then ParseElements(t, i) == Chain([r.value], AfterElement(t, Skip(t, r.pos)))
            else Forget(ParseElements(t, i)) == Forget(r)
  {
    hide ParseValue, Skip;
  }

  lemma ArrayAtStart(t: seq<byte>, i: nat)
    requires i < |t|
    ensures var j := Skip(t, i + 1);
            if Peek(t, j) == RBRACKET then ParseArray(t, i) == Got(Arr([]), j + 1)
            else !ParseValue(t, j).Got? ==> Forget(ParseArray(t, i)) == Forget(ParseValue(t, j))
  {
    hide ParseValue, Skip, ParseElements;
    ElementsSoFar(t, Skip(t, i + 1));
  }

  /** What is known of an array once a stop behind an element is reached. */
  lemma ArrayAtStop(t: seq<byte>, i: nat, vs: seq<Value>, q: nat)
    requires i < |t| && Peek(t, Skip(t, i + 1)) != RBRACKET
    requires ParseElements(t, Skip(t, i + 1)) == Chain(vs, AfterElement(t, q))
    ensures Peek(t, q) == COMMA ==>
              var r := ParseValue(t, Skip(t, q + 1));
              if r.Got? then ParseElements(t, Skip(t, i + 1)) == Chain(vs + [r.value], AfterElement(t, Skip(t, r.pos)))
              else Forget(ParseArray(t, i)) == Forget(r)
    ensures Peek(t, q) == RBRACKET ==> ParseArray(t, i) == Got(Arr(vs), q + 1)
    ensures Peek(t, q) != COMMA && Peek(t, q) != RBRACKET ==> ParseArray(t, i) == Failed(q)
  {
    hide ParseValue, Skip, ParseElements;
    assert vs + [] == vs;
    ElementsSoFar(t, Skip(t, q + 1));
    var r := ParseValue(t, Skip(t, q + 1));
    if r.Got? {
      ChainTwice(vs, [r.value], AfterElement(t, Skip(t, r.pos)));
    }
  }

  /** `parse_array`: the loop over the elements. */
  method ParseArrayItem(h: Heap, item: Ptr, t: seq<byte>, i: nat) returns (r: Outcome<()>, ghost tree: Tree)
    requires Ready(h.mem, item) && i < |t| && t[i] == LBRACKET
    modifies h
    ensures r == Forget(ParseArray(t, i))
    ensures r.Failed? ==> h.ep == ErrorAt(r.at)
    ensures r.Got? ==> h.ep == old(h.ep)
    ensures !r.Undefined? ==> Grown(old(h.mem), h.mem, item, tree) && tree.name == old(h.mem).nodes[item].name
    ensures r.Got? ==> ValueOf(h.mem, tree) == ParseArray(t, i).value
    decreases |t| - i, 0
  {
    hide Held, Proper, Cells, Grown, ValueOf, ParseValue, ParseElements, AfterElement, Skip, WellFormed, Agree, TextAt,
        ParseArray, Chain;
    ghost var m0 := h.mem;
    tree := SetLeaf(h, item, KArray, h.mem.nodes[item].number);
    GrownFacts(m0, h.mem, item, tree);
    var value := SkipSpace(t, i + 1);
    ArrayAtStart(t, i);
    if Peek(t, value) == RBRACKET {
      ArrayValue(h.mem, tree);
      return Got((), value + 1), tree;
    }
    ghost var start := value;
    var child;
    ElementsSoFar(t, start);
    assert ValuesOf(h.mem, tree.kids) == [];
    r, child, tree := ParseElementItem(h, item, 0, t, value, m0, tree);
    if !r.Got? {
      return;
    }
    assert ValuesOf(h.mem, tree.kids) == [ParseValue(t, start).value];
    value := SkipSpace(t, r.pos);
    while Peek(t, value) == COMMA
      invariant i < value <= |t| && h.ep == old(h.ep)
      invariant Between(m0, h.mem, item, tree, KArray, child)
      invariant ParseElements(t, start) == Chain(ValuesOf(h.mem, tree.kids), AfterElement(t, value))
      decreases |t| - value
    {
      ArrayAtStop(t, i, ValuesOf(h.mem, tree.kids), value);
      var next := SkipSpace(t, value + 1);
      r, child, tree := ParseElementItem(h, item, child, t, next, m0, tree);
      if !r.Got? {
        return;
      }
      value := SkipSpace(t, r.pos);
    }
    ArrayAtStop(t, i, ValuesOf(h.mem, tree.kids), value);
    ArrayValue(h.mem, tree);
    if Peek(t, value) == RBRACKET {
      r := Got((), value + 1);
    } else {
      h.ep := ErrorAt(value);
      r := Failed(value);
    }
  }

  // ----- objects -----

  /** `child->string = child->valuestring; child->valuestring = 0`: the same allocations, under another field. */
  lemma NameMoved(m0: Mem, m: Mem, n: Mem, item: Ptr, out: Ptr)
    requires Ready(m0, item) && m0.nodes[item].name == 0 && out != 0
    requires Grown(m0, m, item, Tree(item, out, 0, []))
    requires n == m.(nodes := m.nodes[item := m.nodes[item].(name := out, valuestring := 0)])
    ensures Grown(m0, n, item, Tree(item, 0, out, [])) && Ready(n, item)
    ensures TextAt(n, out) == TextAt(m, out)
  {
    NoCells();
  }

  /** Parsing the name first and the value then is one growth of the child. */
  lemma GrownTwice(m0: Mem, m: Mem, n: Mem, item: Ptr, out: Ptr, tree: Tree)
    requires WellFormed(m0) && item in m0.nodes && m0.nodes[item].name == 0
    requires Grown(m0, m, item, Tree(item, 0, out, [])) && m.nodes[item].name == out && out != 0
    requires Grown(m, n, item, tree) && tree.name == out
    ensures Grown(m0, n, item, tree)
    ensures TextAt(n, tree.name) == TextAt(m, out)
  {
    hide Held, Proper;
    NameCells(m0, m, item, out);
    AgreeTrans(m0, m, n, Live(m0) - {item});
  }

  lemma NameCells(m0: Mem, m: Mem, item: Ptr, out: Ptr)
    requires Grown(m0, m, item, Tree(item, 0, out, [])) && out != 0 && m0.nodes[item].name == 0
    ensures Live(m) == Live(m0) + {item, out} && out != item && out in m.blocks && out !in Live(m0)
    ensures WellFormed(m) && item in m.nodes
  {
    NoCells();
    assert Cells(Tree(item, 0, out, [])) == {item, out};
  }

  /** A member: its name, the colon, its value. */
  method ParseMemberFields(h: Heap, item: Ptr, t: seq<byte>, i: nat) returns (r: Outcome<()>, ghost tree: Tree)
    requires Ready(h.mem, item) && h.mem.nodes[item].name == 0
    modifies h
    ensures r == Forget(ParseMember(t, i))
    ensures r.Failed? ==> h.ep == ErrorAt(r.at)
    ensures r.Got? ==> h.ep == old(h.ep)
    ensures !r.Undefined? ==> Grown(old(h.mem), h.mem, item, tree)
    ensures r.Got? ==> Member(TextAt(h.mem, tree.name), ValueOf(h.mem, tree)) == ParseMember(t, i).value
    decreases |t| - i, 2
  {
    hide Held, Proper, Cells, Grown, ValueOf, ParseValue, StringAt, TextAt, Skip;
    ghost var m0 := h.mem;
    var s;
    s, tree := ParseStringItem(h, item, t, i);
    if !s.Parsed? {
      r := if s.NotAString? then Failed(i) else Undefined;
      return;
    }
    ghost var m := h.mem;
    GrownFacts(m0, m, item, tree);
    RootFacts(m, tree);
    var node := h.mem.nodes[item];
    h.mem := h.mem.(nodes := h.mem.nodes[item := node.(name := node.valuestring, valuestring := 0)]);
    ghost var m1, out := h.mem, node.valuestring;
    NameMoved(m0, m, m1, item, out);
    tree := Tree(item, 0, out, []);
    var value := SkipSpace(t, s.pos);
    if Peek(t, value) != COLON {
      h.ep := ErrorAt(value);
      return Failed(value), tree;
    }
    value := SkipSpace(t, value + 1);
    r, tree := ParseValueItem(h, item, t, value);
    if !r.Undefined? {
      GrownTwice(m0, m1, h.mem, item, out, tree);
    }
  }

  /** One more member: allocated, linked and parsed. */
  method ParseMemberItem(h: Heap, item: Ptr, last: Ptr, t: seq<byte>, i: nat, ghost m0: Mem, ghost before: Tree)
    returns (r: Outcome<()>, child: Ptr, ghost tree: Tree)
    requires Between(m0, h.mem, item, before, KObject, last)
    modifies h
    ensures r == Forget(ParseMember(t, i))
    ensures r.Failed? ==> h.ep == ErrorAt(r.at)
    ensures r.Got? ==> h.ep == old(h.ep)
    ensures !r.Undefined? ==> Between(m0, h.mem, item, tree, KObject, child) && tree.kids != []
    ensures r.Got? ==> MembersOf(h.mem, tree.kids) == MembersOf(old(h.mem), before.kids) + [ParseMember(t, i).value]
    decreases |t| - i, 3
  {
    hide Held, Proper, Cells, Appending, ValueOf, TextAt;
    ghost var m := h.mem;
    child := NewChild(h, item, last, before.kids);
    ghost var m1 := h.mem;
    ghost var kid;
    AppendReady(m, m1, item, before.kids, child);
    r, kid := ParseMemberFields(h, child, t, i);
    if !r.Undefined? {
      BetweenAgain(m0, m, m1, h.mem, before, KObject, last, child, kid);
      tree := before.(kids := before.kids + [kid]);
    } else {
      tree := before;
    }
  }

  lemma MembersSoFar(t: seq<byte>, i: nat)
    ensures var r := ParseMember(t, i);
            if r.Got? then ParseMembers(t, i) == Chain([r.value], AfterMember(t, Skip(t, r.pos)))
            else Forget(ParseMembers(t, i)) == Forget(r)
  {
    hide ParseMember, Skip;
  }

  lemma ObjectAtStart(t: seq<byte>, i: nat)
    requires i < |t|
    ensures var j := Skip(t, i + 1);
            if Peek(t, j) == RBRACE then ParseObject(t, i) == Got(Obj([]), j + 1)
            else !ParseMember(t, j).Got? ==> Forget(ParseObject(t, i)) == Forget(ParseMember(t, j))
  {
    hide ParseMember, Skip, ParseMembers;
    MembersSoFar(t, Skip(t, i + 1));
  }

  /** What is known of an object once a stop behind a member is reached. */
  lemma ObjectAtStop(t: seq<byte>, i: nat, ms: seq<Member>, q: nat)
    requires i < |t| && Peek(t, Skip(t, i + 1)) != RBRACE
    requires ParseMembers(t, Skip(t, i + 1)) == Chain(ms, AfterMember(t, q))
    ensures Peek(t, q) == COMMA ==>
              var r := ParseMember(t, Skip(t, q + 1));
              if r.Got? then ParseMembers(t, Skip(t, i + 1)) == Chain(ms + [r.value], AfterMember(t, Skip(t, r.pos)))
              else Forget(ParseObject(t, i)) == Forget(r)
    ensures Peek(t, q) == RBRACE ==> ParseObject(t, i) == Got(Obj(ms), q + 1)
    ensures Peek(t, q) != COMMA && Peek(t, q) != RBRACE ==> ParseObject(t, i) == Failed(q)
  {
    hide ParseMember, Skip, ParseMembers;
    assert ms + [] == ms;
    MembersSoFar(t, Skip(t, q + 1));
    var r := ParseMember(t, Skip(t, q + 1));
    if r.Got? {
      ChainTwice(ms, [r.value], AfterMember(t, Skip(t, r.pos)));
    }
  }

  /** `parse_object`: the loop over the members. */
  method ParseObjectItem(h: Heap, item: Ptr, t: seq<byte>, i: nat) returns (r: Outcome<()>, ghost tree: Tree)
    requires Ready(h.mem, item) && i < |t| && t[i] == LBRACE
    modifies h
    ensures r == Forget(ParseObject(t, i))
    ensures r.Failed? ==> h.ep == ErrorAt(r.at)
    ensures r.Got? ==> h.ep == old(h.ep)
    ensures !r.Undefined? ==> Grown(old(h.mem), h.mem, item, tree) && tree.name == old(h.mem).nodes[item].name
    ensures r.Got? ==> ValueOf(h.mem, tree) == ParseObject(t, i).value
    decreases |t| - i, 0
  {
    hide Held, Proper, Cells, Grown, ValueOf, TextAt, ParseMember, ParseMembers, AfterMember, Skip, WellFormed, Agree,
        ParseObject, Chain;
    ghost var m0 := h.mem;
    tree := SetLeaf(h, item, KObject, h.mem.nodes[item].number);
    GrownFacts(m0, h.mem, item, tree);
    var value := SkipSpace(t, i + 1);
    ObjectAtStart(t, i);
    if Peek(t, value) == RBRACE {
      ObjectValue(h.mem, tree);
      return Got((), value + 1), tree;
    }
    ghost var start := value;
    var child;
    MembersSoFar(t, start);
    assert MembersOf(h.mem, tree.kids) == [];
    r, child, tree := ParseMemberItem(h, item, 0, t, value, m0, tree);
    if !r.Got? {
      return;
    }
    assert MembersOf(h.mem, tree.kids) == [ParseMember(t, start).value];
    value := SkipSpace(t, r.pos);
    while Peek(t, value) == COMMA
      invariant i < value <= |t| && h.ep == old(h.ep)
      invariant Between(m0, h.mem, item, tree, KObject, child)
      invariant ParseMembers(t, start) == Chain(MembersOf(h.mem, tree.kids), AfterMember(t, value))
      decreases |t| - value
    {
      ObjectAtStop(t, i, MembersOf(h.mem, tree.kids), value);
      var next := SkipSpace(t, value + 1);
      r, child, tree := ParseMemberItem(h, item, child, t, next, m0, tree);
      if !r.Got? {
        return;
      }
      value := SkipSpace(t, r.pos);
    }
    ObjectAtStop(t, i, MembersOf(h.mem, tree.kids), value);
    ObjectValue(h.mem, tree);
    if Peek(t, value) == RBRACE {
      r := Got((), value + 1);
    } else {
      h.ep := ErrorAt(value);
      r := Failed(value);
    }
  }

  // ----- the entry point -----

  /** `cJSON_Parse`. On success the new root owns every allocation made; on failure none is left and `ep`
      says where; nothing that was there before is touched. */
  method Parse(h: Heap, t: seq<byte>) returns (r: Outcome<Ptr>, ghost tree: Tree)
    requires WellFormed(h.mem)
    modifies h
    ensures Forget(r) == Forget(ParseText(t))
    ensures r.Got? ==>
              && r.value == tree.addr && r.value !in Live(old(h.mem)) && WellFormed(h.mem)
              && r.value != 0 && r.value in h.mem.nodes
              && Held(h.mem, tree) && Proper(tree) && ValueOf(h.mem, tree) == ParseText(t).value
              && h.mem.nodes[r.value].next == 0 && h.mem.nodes[r.value].prev == 0 && tree.name == 0
              && Cells(tree) !! Live(old(h.mem))
              && Without(h.mem, Cells(tree)) == old(h.mem)
    ensures r.Failed? ==> h.mem == old(h.mem) && h.ep == ErrorAt(r.at) && r.at <= |t|
    ensures r.Got? ==> h.ep == NoError
  {
    hide Held, Proper, Cells, Grown, ValueOf, ParseValue, Agree, Skip, Without, TextAt;
    ghost var m0 := h.mem;
    var c := h.NewItem();
    ghost var m := h.mem;
    h.ep := NoError;
    var start := SkipSpace(t, 0);
    var outcome;
    outcome, tree := ParseValueItem(h, c, t, start);
    match outcome
    case Got(_, p) =>
      RootRemoved(m0, m, h.mem, c, tree);
      r := Got(c, p);
    case Failed(at) =>
      RootRemoved(m0, m, h.mem, c, tree);
      NoCells();
      assert CellsOf([tree]) == Cells(tree) by {
        CellsOfSnoc([], tree);
        assert [] + [tree] == [tree];
      }
      h.Delete(c, [tree]);
      r := Failed(at);
    case Undefined =>
      r := Undefined;
  }

  /** Taking the cells of the new root away leaves what was there before. */
  lemma RootRemoved(m0: Mem, m: Mem, n: Mem, c: Ptr, tree: Tree)
    requires WellFormed(m0) && c !in Live(m0) && c != 0
    requires m == m0.(nodes := m0.nodes[c := BLANK]) && Grown(m, n, c, tree)
    ensures WellFormed(n) && Held(n, tree) && Proper(tree) && tree.addr == c && c in n.nodes
    ensures n.nodes[c].next == 0 && n.nodes[c].prev == 0
    ensures Cells(tree) !! Live(m0) && Without(n, Cells(tree)) == m0
  {
    hide Held, Proper, Cells;
    GrownFacts(m, n, c, tree);
    assert Live(m) == Live(m0) + {c};
    var rest := Without(n, Cells(tree));
    assert rest.nodes.Keys + rest.blocks.Keys == Live(m0);
    assert Agree(m, n, Live(m) - {c});
    KeysKept(m0, rest);
  }

  lemma KeysKept(m: Mem, n: Mem)
    requires WellFormed(m) && WellFormed(n) && Live(n) == Live(m) && Agree(m, n, Live(m))
    ensures n == m
  {
    assert n.nodes.Keys == m.nodes.Keys;
    assert n.blocks.Keys == m.blocks.Keys;
    assert n.nodes == m.nodes && n.blocks == m.blocks;
  }
}
