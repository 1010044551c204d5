/** Sibling lists: the operations that relink `next`, `prev` and `child` in place (cJSON.c:48-59, 786-863, 884-903, 919-937).

The children of a node are the sequence `kids` of its ownership tree. Each operation
refines the operation on sequences, for any index: a negative one counts as 0.
 */
module JsonSiblings {
  import opened Bytes
  import opened JsonText
  import opened JsonHeap

  /** The roots of the trees. */
  function Roots(ts: seq<Tree>): set<Ptr> {
    set k | 0 <= k < |ts| :: ts[k].addr
  }

  /** Only the links of these roots and the first-child pointer of `parent` differ. */
  ghost predicate Relinked(m: Mem, n: Mem, parent: Ptr, ts: seq<Tree>) {
    && n.blocks == m.blocks && n.nodes.Keys == m.nodes.Keys
    && parent in m.nodes && n.nodes[parent] == m.nodes[parent].(child := n.nodes[parent].child)
    && (forall a :: a in m.nodes && a != parent && a !in Roots(ts) ==> n.nodes[a] == m.nodes[a])
    && (forall a :: a in m.nodes && a != parent && a in Roots(ts) ==> SameButLinks(m.nodes[a], n.nodes[a]))
  }

  /** Relinking the roots leaves every tree below them what it was. */
  lemma RelinkFrame(m: Mem, n: Mem, parent: Ptr, ts: seq<Tree>, k: nat)
    requires WellFormed(m) && Relinked(m, n, parent, ts) && ProperAll(ts) && HeldAll(m, ts)
    requires parent !in CellsOf(ts) && k < |ts|
    ensures Held(n, ts[k]) && ValueOf(n, ts[k]) == ValueOf(m, ts[k])
    ensures TextAt(n, ts[k].name) == TextAt(m, ts[k].name)
  {
    hide Cells, ValueOf, TextAt, Proper, Held;
    TreeOf(m, ts, k);
    forall a | a in Cells(ts[k]) - {ts[k].addr}
      ensures a !in Roots(ts) && a != parent
    {
      InCellsOf(ts, k, a);
      forall j | 0 <= j < |ts|
        ensures ts[j].addr != a
      {
        TreeOf(m, ts, j);
        if j < k {
          assert Cells(ts[j]) !! Cells(ts[k]);
        } else if k < j {
          assert Cells(ts[k]) !! Cells(ts[j]);
        }
      }
    }
    InCellsOf(ts, k, ts[k].addr);
    assert ts[k].addr in Roots(ts);
    HeldFrame(m, n, ts[k]);
  }

  lemma InCellsOf(ts: seq<Tree>, k: nat, a: Ptr)
    requires k < |ts| && a in Cells(ts[k])
    ensures a in CellsOf(ts)
  {
  }

  lemma TreeOf(m: Mem, ts: seq<Tree>, k: nat)
    requires ProperAll(ts) && HeldAll(m, ts) && k < |ts|
    ensures Proper(ts[k]) && Held(m, ts[k]) && ts[k].addr in Cells(ts[k]) && ts[k].addr in m.nodes
  {
  }

  /** Any selection of the trees is in memory with its values after the relinking, and is proper when nothing is taken twice. */
  lemma RelinkAll(m: Mem, n: Mem, parent: Ptr, ts: seq<Tree>)
    requires WellFormed(m) && Relinked(m, n, parent, ts) && ProperAll(ts) && HeldAll(m, ts)
    requires parent !in CellsOf(ts)
    ensures HeldAll(n, ts) && ValuesOf(n, ts) == ValuesOf(m, ts) && MembersOf(n, ts) == MembersOf(m, ts)
  {
    hide Cells, ValueOf, TextAt, Proper, Held, CellsOf, Relinked, ProperAll;
    forall k | 0 <= k < |ts|
      ensures Held(n, ts[k]) && ValueOf(n, ts[k]) == ValueOf(m, ts[k]) && TextAt(n, ts[k].name) == TextAt(m, ts[k].name)
    {
      RelinkFrame(m, n, parent, ts, k);
    }
  }

  /** But for the children of the node, its first-child pointer and `extra`, memory is what it was. */
  ghost predicate OnlyBelow(m: Mem, n: Mem, at: Tree, extra: set<Ptr>) {
    && at.addr in m.nodes && at.addr in n.nodes
    && n.nodes[at.addr] == m.nodes[at.addr].(child := n.nodes[at.addr].child)
    && Agree(m, n, Live(m) - {at.addr} - CellsOf(at.kids) - extra)
  }

  lemma RelinkedBelow(m: Mem, n: Mem, at: Tree, ts: seq<Tree>, extra: set<Ptr>, freed: set<Ptr>)
    requires Relinked(m, n, at.addr, ts) && CellsOf(ts) <= CellsOf(at.kids) + extra
    requires freed <= CellsOf(at.kids) + extra && at.addr !in freed
    ensures OnlyBelow(m, Without(n, freed), at, extra)
  {
    hide Cells, CellsOf;
    forall a | a in m.nodes && a in Roots(ts)
      ensures a in CellsOf(ts)
    {
      var k :| 0 <= k < |ts| && ts[k].addr == a;
      RootCell(ts[k]);
      InCellsOf(ts, k, a);
    }
  }

  /** The node has these children now; nothing else was allocated, freed or changed but links of `ts`. */
  ghost predicate HasKids(m: Mem, n: Mem, at: Tree, kids: seq<Tree>, ts: seq<Tree>) {
    && WellFormed(n) && Live(n) == Live(m)
    && Relinked(m, n, at.addr, ts)
    && Held(n, at.(kids := kids)) && Proper(at.(kids := kids))
    && ValuesOf(n, ts) == ValuesOf(m, ts) && MembersOf(n, ts) == MembersOf(m, ts)
    && HeldAll(n, ts)
  }

  /** Relink some of the trees `ts` under `at`: what is left to show is how the pointers run. */
  lemma MakeKids(m: Mem, n: Mem, at: Tree, kids: seq<Tree>, ts: seq<Tree>)
    requires WellFormed(m) && Held(m, at) && Relinked(m, n, at.addr, ts)
    requires Own(at) !! CellsOf(ts) && ProperAll(ts) && HeldAll(m, ts) && Proper(at)
    requires ProperAll(kids) && forall k :: 0 <= k < |kids| ==> kids[k] in ts
    requires Linked(n, kids) && n.nodes[at.addr].child == AddrAt(kids, 0)
    ensures HasKids(m, n, at, kids, ts)
  {
    hide Held, ValueOf, TextAt, ProperAll;
    RelinkAll(m, n, at.addr, ts);
    RootFacts(m, at);
    MakeHeld(n, at.(kids := kids));
    assert CellsOf(kids) <= CellsOf(ts);
  }

  /** A part of a proper list, each tree taken at most once, is proper. */
  lemma PartProper(ts: seq<Tree>, kids: seq<Tree>, pick: seq<nat>)
    requires ProperAll(ts) && |pick| == |kids|
    requires forall k :: 0 <= k < |pick| ==> pick[k] < |ts| && kids[k] == ts[pick[k]]
    requires forall j, k :: 0 <= j < k < |pick| ==> pick[j] != pick[k]
    ensures ProperAll(kids)
    ensures forall k :: 0 <= k < |kids| ==> kids[k] in ts
  {
    hide Cells, Proper;
    forall j, k | 0 <= j < k < |kids|
      ensures Cells(kids[j]) !! Cells(kids[k])
    {
      assert Cells(ts[pick[j]]) !! Cells(ts[pick[k]]);
    }
  }

  // ----- walking -----

  /** The pointers a walk over the children follows. */
  lemma Walkable(m: Mem, at: Tree)
    requires WellFormed(m) && Held(m, at)
    ensures at.addr in m.nodes && m.nodes[at.addr].child == AddrAt(at.kids, 0) && Linked(m, at.kids)
    ensures forall k :: 0 <= k < |at.kids| ==> at.kids[k].addr != 0
  {
    forall k | 0 <= k < |at.kids|
      ensures at.kids[k].addr != 0
    {
      KidHeld(m, at, k);
    }
  }

  /** `cJSON_GetArraySize` */
  method GetArraySize(h: Heap, parent: Ptr, ghost at: Tree) returns (i: nat)
    requires WellFormed(h.mem) && Held(h.mem, at) && at.addr == parent
    ensures i == |at.kids|
  {
    hide Held;
    Walkable(h.mem, at);
    var c := h.mem.nodes[parent].child;
    i := 0;
    while c != 0
      invariant i <= |at.kids| && c == AddrAt(at.kids, i)
      decreases |at.kids| - i
    {
      i, c := i + 1, h.mem.nodes[c].next;
    }
  }

  /** The index that an `int` index stands for. */
  function Index(which: int): nat {
    if which < 0 then 0 else which
  }

  /** `cJSON_GetArrayItem`, and the walk at the head of the operations by index. */
  method GetArrayItem(h: Heap, parent: Ptr, item: int, ghost at: Tree) returns (c: Ptr)
    requires WellFormed(h.mem) && Held(h.mem, at) && at.addr == parent
    ensures c == AddrAt(at.kids, Index(item))
    ensures c == if item < 0 then AddrAt(at.kids, 0) else AddrAt(at.kids, item)
    ensures c == 0 <==> Index(item) >= |at.kids|
  {
    hide WellFormed;
    hide Held;
    Walkable(h.mem, at);
    var left := item;
    c := h.mem.nodes[parent].child;
    ghost var i := 0;
    while c != 0 && left > 0
      invariant 0 <= i <= |at.kids| && c == AddrAt(at.kids, i)
      invariant i + Index(left) == Index(item)
      decreases |at.kids| - i
    {
      left, c, i := left - 1, h.mem.nodes[c].next, i + 1;
    }
  }

  /** `tolower` in the C locale. */
  function Lower(b: byte): byte {
    if 0x41 <= b <= 0x5A then b + 0x20 else b
  }

  predicate CaseEqual(a: seq<byte>, b: seq<byte>) {
    |a| == |b| && forall k :: 0 <= k < |a| ==> Lower(a[k]) == Lower(b[k])
  }

  /** The same byte, or the two cases of one letter. */
  predicate SameLetter(x: byte, y: byte) {
    x == y || (0x41 <= x <= 0x5A && y == x + 0x20) || (0x41 <= y <= 0x5A && x == y + 0x20)
  }

  /** One text is the other with the case of some letters changed. */
  predicate Recased(a: seq<byte>, b: seq<byte>) {
    |a| == |b| && forall k :: 0 <= k < |a| ==> SameLetter(a[k], b[k])
  }

  lemma CaseEqualMeans(a: seq<byte>, b: seq<byte>)
    ensures CaseEqual(a, b) <==> Recased(a, b)
  {
    if |a| == |b| {
      forall k | 0 <= k < |a|
        ensures Lower(a[k]) == Lower(b[k]) <==> SameLetter(a[k], b[k])
      {
      }
    }
  }

  lemma CaseEqualIsEquivalence(a: seq<byte>, b: seq<byte>, c: seq<byte>)
    ensures CaseEqual(a, a)
    ensures CaseEqual(a, b) ==> CaseEqual(b, a)
    ensures CaseEqual(a, b) && CaseEqual(b, c) ==> CaseEqual(a, c)
  {
  }

  /** `cJSON_strcasecmp` on two strings: zero exactly when they agree up to case. */
  method StrCaseCmp(s1: seq<byte>, s2: seq<byte>) returns (r: int)
    requires NulFree(s1) && NulFree(s2)
    ensures r == 0 <==> Recased(s1, s2)
    ensures r == 0 <==> CaseEqual(s1, s2)
  {
    CaseEqualMeans(s1, s2);
    var k := 0;
    while Lower(Peek(s1, k)) == Lower(Peek(s2, k))
      invariant 0 <= k <= |s1| && k <= |s2|
      invariant forall j :: 0 <= j < k ==> Lower(s1[j]) == Lower(s2[j])
      decreases |s1| - k
    {
      if Peek(s1, k) == NUL {
        return 0;
      }
      k := k + 1;
    }
    r := Lower(Peek(s1, k)) as int - Lower(Peek(s2, k)) as int;
  }

  // ----- relinking -----

  /** A tree of its own, chained to nothing. */
  ghost predicate Loose(m: Mem, it: Tree, item: Ptr) {
    && Held(m, it) && Proper(it) && it.addr == item
    && item in m.nodes && m.nodes[item].next == 0 && m.nodes[item].prev == 0
  }

  /** Different nodes, none of them the parent or null. */
  predicate Distinct(ts: seq<Tree>, parent: Ptr) {
    && (forall j, k :: 0 <= j < k < |ts| ==> ts[j].addr != ts[k].addr)
    && (forall k :: 0 <= k < |ts| ==> ts[k].addr != parent && ts[k].addr != 0)
  }

  lemma KidsDistinct(m: Mem, at: Tree)
    requires WellFormed(m) && Held(m, at) && Proper(at)
    ensures Distinct(at.kids, at.addr) && ProperAll(at.kids) && HeldAll(m, at.kids) && Own(at) !! CellsOf(at.kids)
  {
    forall j, k | 0 <= j < k < |at.kids|
      ensures at.kids[j].addr != at.kids[k].addr
    {
      KidApart(at, j, k);
      KidCells(at, k);
    }
    forall k | 0 <= k < |at.kids|
      ensures at.kids[k].addr != at.addr && at.kids[k].addr != 0
    {
      KidCells(at, k);
      KidHeld(m, at, k);
    }
  }

  lemma WithLoose(m: Mem, at: Tree, it: Tree)
    requires WellFormed(m) && Held(m, at) && Proper(at) && Loose(m, it, it.addr) && Cells(at) !! Cells(it)
    ensures var ts := at.kids + [it];
            Distinct(ts, at.addr) && ProperAll(ts) && HeldAll(m, ts) && Own(at) !! CellsOf(ts)
  {
    hide Cells, Proper, Held, CellsOf;
    KidsDistinct(m, at);
    CellsOfSnoc(at.kids, it);
    ItIsApart(at, it);
    LooseIsLive(m, it);
    var ts := at.kids + [it];
    forall k | 0 <= k < |at.kids|
      ensures ts[k] == at.kids[k] && Cells(ts[k]) !! Cells(it) && ts[k].addr != it.addr
    {
      KidCells(at, k);
    }
    assert ts[|at.kids|] == it;
  }

  lemma LooseIsLive(m: Mem, it: Tree)
    requires WellFormed(m) && Loose(m, it, it.addr)
    ensures Held(m, it) && Proper(it) && it.addr in Cells(it) && it.addr != 0
  {
  }

  lemma ItIsApart(at: Tree, it: Tree)
    requires Cells(at) !! Cells(it)
    ensures at.addr != it.addr && Own(at) !! Cells(it)
  {
    assert at.addr in Cells(at) && it.addr in Cells(it);
  }

  /** `suffix_object` */
  method SuffixObject(h: Heap, prev: Ptr, item: Ptr)
    requires prev in h.mem.nodes && item in h.mem.nodes && prev != item
    modifies h`mem
    ensures h.mem == old(h.mem).(nodes := old(h.mem).nodes[prev := old(h.mem).nodes[prev].(next := item)]
                                                          [item := old(h.mem).nodes[item].(prev := prev)])
  {
    var nodes := h.mem.nodes;
    nodes := nodes[prev := nodes[prev].(next := item)];
    nodes := nodes[item := nodes[item].(prev := prev)];
    h.mem := h.mem.(nodes := nodes);
  }

  /** The last of the children. */
  method LastChild(h: Heap, parent: Ptr, ghost at: Tree) returns (c: Ptr)
    requires WellFormed(h.mem) && Held(h.mem, at) && at.addr == parent
    ensures c == AddrAt(at.kids, |at.kids| - 1)
  {
    hide Held, WellFormed;
    Walkable(h.mem, at);
    c := h.mem.nodes[parent].child;
    ghost var i := 0;
    while c != 0 && h.mem.nodes[c].next != 0
      invariant 0 <= i <= |at.kids| && c == AddrAt(at.kids, i)
      invariant i < |at.kids| || |at.kids| == 0
      decreases |at.kids| - i
    {
      c, i := h.mem.nodes[c].next, i + 1;
    }
  }

  lemma RootIn(ts: seq<Tree>, k: nat)
    requires k < |ts|
    ensures ts[k].addr in Roots(ts)
  {
  }

  /** How the pointers run after an append. */
  predicate Appended(m: Mem, n: Mem, at: Tree, it: Tree) {
    var last := AddrAt(at.kids, |at.kids| - 1);
    && at.addr in m.nodes && it.addr in m.nodes
    && if at.kids == [] then n == m.(nodes := m.nodes[at.addr := m.nodes[at.addr].(child := it.addr)])
       else last in m.nodes && n == m.(nodes := m.nodes[last := m.nodes[last].(next := it.addr)]
                                                       [it.addr := m.nodes[it.addr].(prev := last)])
  }

  lemma AppendLinked(m: Mem, n: Mem, at: Tree, it: Tree)
    requires Linked(m, at.kids) && Distinct(at.kids + [it], at.addr) && Appended(m, n, at, it)
    requires m.nodes[it.addr].next == 0 && m.nodes[it.addr].prev == 0
    ensures Linked(n, at.kids + [it])
  {
    hide Roots;
    var ts, count := at.kids + [it], |at.kids|;
    assert ts[count] == it && it.addr != at.addr;
    forall k | 0 <= k < count
      ensures ts[k] == at.kids[k] && ts[k].addr in n.nodes
      ensures n.nodes[ts[k].addr].prev == AddrAt(ts, k - 1)
      ensures n.nodes[ts[k].addr].next == AddrAt(ts, k + 1)
    {
      assert ts[k].addr != ts[count].addr && ts[k].addr != at.addr;
      assert k < count - 1 ==> ts[k].addr != ts[count - 1].addr;
    }
  }

  lemma AppendRelinks(m: Mem, n: Mem, at: Tree, it: Tree)
    requires Distinct(at.kids + [it], at.addr) && Appended(m, n, at, it)
    ensures Relinked(m, n, at.addr, at.kids + [it])
    ensures at.kids != [] ==> n.nodes[at.addr] == m.nodes[at.addr]
  {
    hide Roots;
    var ts := at.kids + [it];
    RootIn(ts, |at.kids|);
    if at.kids != [] {
      RootIn(ts, |at.kids| - 1);
    }
  }

  lemma AppendPointers(m: Mem, n: Mem, at: Tree, it: Tree)
    requires at.addr in m.nodes && m.nodes[at.addr].child == AddrAt(at.kids, 0)
    requires Linked(m, at.kids) && Distinct(at.kids + [it], at.addr) && Appended(m, n, at, it)
    requires m.nodes[it.addr].next == 0 && m.nodes[it.addr].prev == 0
    ensures Linked(n, at.kids + [it]) && Relinked(m, n, at.addr, at.kids + [it])
    ensures n.nodes[at.addr].child == AddrAt(at.kids + [it], 0)
  {
    hide Linked, Relinked, Distinct;
    AppendLinked(m, n, at, it);
    AppendRelinks(m, n, at, it);
  }

  /** `cJSON_AddItemToArray` appends. */
  method AddItemToArray(h: Heap, parent: Ptr, item: Ptr, ghost at: Tree, ghost it: Tree)
    requires WellFormed(h.mem) && Held(h.mem, at) && Proper(at) && at.addr == parent
    requires item != 0 ==> Loose(h.mem, it, item) && Cells(at) !! Cells(it)
    modifies h`mem
    ensures item == 0 ==> h.mem == old(h.mem)
    ensures item != 0 ==> HasKids(old(h.mem), h.mem, at, at.kids + [it], at.kids + [it])
  {
    hide Held, Proper, Cells, CellsOf, Linked, Distinct, Relinked, ProperAll, HeldAll;
    if item == 0 {
      return;
    }
    ghost var m := h.mem;
    Walkable(m, at);
    WithLoose(m, at, it);
    LooseFacts(m, it, item);
    ghost var ts := at.kids + [it];
    var c := LastChild(h, parent, at);
    if h.mem.nodes[parent].child == 0 {
      h.mem := h.mem.(nodes := h.mem.nodes[parent := h.mem.nodes[parent].(child := item)]);
    } else {
      LastInNodes(m, at, it);
      SuffixObject(h, c, item);
    }
    AppendPointers(m, h.mem, at, it);
    MakeKids(m, h.mem, at, ts, ts);
  }

  lemma LooseFacts(m: Mem, it: Tree, item: Ptr)
    requires Loose(m, it, item)
    ensures Held(m, it) && Proper(it) && it.addr == item
    ensures item in m.nodes && m.nodes[item].next == 0 && m.nodes[item].prev == 0
  {
  }

  lemma LastInNodes(m: Mem, at: Tree, it: Tree)
    requires Linked(m, at.kids) && at.kids != [] && Distinct(at.kids + [it], at.addr)
    ensures AddrAt(at.kids, |at.kids| - 1) in m.nodes && AddrAt(at.kids, |at.kids| - 1) != it.addr
  {
    var ts := at.kids + [it];
    assert ts[|at.kids| - 1].addr != ts[|at.kids|].addr;
  }

  // ----- in front -----

  predicate Prepended(m: Mem, n: Mem, at: Tree, it: Tree) {
    var c := AddrAt(at.kids, 0);
    && at.addr in m.nodes && it.addr in m.nodes && it.addr != at.addr && it.addr != c && c != at.addr
    && if at.kids == [] then n == m.(nodes := m.nodes[at.addr := m.nodes[at.addr].(child := it.addr)])
       else c in m.nodes && n == m.(nodes := m.nodes[it.addr := m.nodes[it.addr].(prev := m.nodes[c].prev, next := c)]
                                                    [c := m.nodes[c].(prev := it.addr)]
                                                    [at.addr := m.nodes[at.addr].(child := it.addr)])
  }

  lemma PrependWrites(m: Mem, n: Mem, at: Tree, it: Tree)
    requires Prepended(m, n, at, it)
    ensures var c := AddrAt(at.kids, 0);
            && at.addr in m.nodes && it.addr in m.nodes && n.blocks == m.blocks && n.nodes.Keys == m.nodes.Keys
            && it.addr != at.addr && it.addr != c && c != at.addr
            && n.nodes[at.addr] == m.nodes[at.addr].(child := it.addr)
            && (forall a :: a in m.nodes && a != at.addr && a != it.addr && (a != c || at.kids == []) ==> n.nodes[a] == m.nodes[a])
            && (at.kids == [] ==> n.nodes[it.addr] == m.nodes[it.addr])
            && (at.kids != [] ==> c in m.nodes && n.nodes[it.addr] == m.nodes[it.addr].(prev := m.nodes[c].prev, next := c)
                                  && n.nodes[c] == m.nodes[c].(prev := it.addr))
  {
  }

  lemma PrependPointers(m: Mem, n: Mem, at: Tree, it: Tree)
    requires Linked(m, at.kids) && Distinct(at.kids + [it], at.addr) && Prepended(m, n, at, it)
    requires m.nodes[it.addr].next == 0 && m.nodes[it.addr].prev == 0
    ensures Linked(n, [it] + at.kids) && Relinked(m, n, at.addr, at.kids + [it])
    ensures n.nodes[at.addr].child == it.addr
  {
    hide Roots, Linked, Prepended;
    var ts, now := at.kids + [it], [it] + at.kids;
    PrependWrites(m, n, at, it);
    RootIn(ts, |at.kids|);
    if at.kids != [] {
      RootIn(ts, 0);
      LinkedKid(m, at, 0);
    }
    assert ts[|at.kids|] == it;
    forall k | 0 < k < |now|
      ensures now[k] == at.kids[k - 1] && now[k].addr in n.nodes
      ensures n.nodes[now[k].addr].prev == AddrAt(now, k - 1) && n.nodes[now[k].addr].next == AddrAt(now, k + 1)
    {
      LinkedKid(m, at, k - 1);
      assert ts[k - 1].addr != it.addr && ts[k - 1].addr != at.addr;
      assert 0 < k - 1 ==> ts[0].addr != ts[k - 1].addr;
    }
    LinkedByIndex(n, now);
  }

  lemma PrependedProper(kids: seq<Tree>, it: Tree)
    requires ProperAll(kids + [it])
    ensures ProperAll([it] + kids) && forall j :: 0 <= j < |kids| + 1 ==> ([it] + kids)[j] in kids + [it]
  {
    var pick: seq<nat> := [|kids|] + seq(|kids|, k requires 0 <= k < |kids| => k);
    PartProper(kids + [it], [it] + kids, pick);
  }

  /** `cJSON_AddItemToArrayHead` puts the item in front. */
  method AddItemToArrayHead(h: Heap, parent: Ptr, item: Ptr, ghost at: Tree, ghost it: Tree)
    requires WellFormed(h.mem) && Held(h.mem, at) && Proper(at) && at.addr == parent
    requires item != 0 ==> Loose(h.mem, it, item) && Cells(at) !! Cells(it)
    modifies h`mem
    ensures item == 0 ==> h.mem == old(h.mem)
    ensures item != 0 ==> HasKids(old(h.mem), h.mem, at, [it] + at.kids, at.kids + [it])
  {
    hide Held, Proper, Cells, CellsOf, Linked, Relinked, ProperAll, HeldAll, Distinct;
    if item == 0 {
      return;
    }
    ghost var m := h.mem;
    Walkable(m, at);
    WithLoose(m, at, it);
    LooseFacts(m, it, item);
    ItIsApart(at, it);
    ghost var ts := at.kids + [it];
    var c := h.mem.nodes[parent].child;
    var nodes := h.mem.nodes;
    if c == 0 {
      nodes := nodes[parent := nodes[parent].(child := item)];
    } else {
      FirstInNodes(m, at, it);
      nodes := nodes[item := nodes[item].(prev := nodes[c].prev, next := c)];
      nodes := nodes[c := nodes[c].(prev := item)];
      nodes := nodes[parent := nodes[parent].(child := item)];
    }
    h.mem := h.mem.(nodes := nodes);
    PrependPointers(m, h.mem, at, it);
    PrependedProper(at.kids, it);
    MakeKids(m, h.mem, at, [it] + at.kids, ts);
  }

  lemma FirstInNodes(m: Mem, at: Tree, it: Tree)
    requires Linked(m, at.kids) && at.kids != [] && Distinct(at.kids + [it], at.addr)
    ensures AddrAt(at.kids, 0) in m.nodes && AddrAt(at.kids, 0) != it.addr && AddrAt(at.kids, 0) != at.addr
  {
    var ts := at.kids + [it];
    assert ts[0].addr != ts[|at.kids|].addr;
  }

  // ----- taking out -----

  function RemoveAt<T>(s: seq<T>, k: nat): seq<T>
    requires k < |s|
  {
    s[..k] + s[k + 1..]
  }

  /** The map of nodes after `cJSON_DetachItemFromArray` has unlinked `c`. */
  function Unlink(nodes: map<Ptr, Node>, parent: Ptr, c: Ptr): map<Ptr, Node>
    requires c in nodes && parent in nodes
    requires nodes[c].prev != 0 ==> nodes[c].prev in nodes
    requires nodes[c].next != 0 ==> nodes[c].next in nodes
  {
    var prev, next := nodes[c].prev, nodes[c].next;
    var n1 := if prev != 0 then nodes[prev := nodes[prev].(next := next)] else nodes;
    var n2 := if next != 0 then n1[next := n1[next].(prev := prev)] else n1;
    var n3 := if c == n2[parent].child then n2[parent := n2[parent].(child := next)] else n2;
    n3[c := n3[c].(prev := 0, next := 0)]
  }

  /** Where the unlinking writes: at the child, its neighbours, and the parent. */
  lemma UnlinkWrites(m: Mem, at: Tree, k: nat)
    requires at.addr in m.nodes && m.nodes[at.addr].child == AddrAt(at.kids, 0)
    requires Linked(m, at.kids) && Distinct(at.kids, at.addr) && k < |at.kids|
    ensures at.kids[k].addr in m.nodes
    ensures m.nodes[at.kids[k].addr].prev == AddrAt(at.kids, k - 1) && m.nodes[at.kids[k].addr].next == AddrAt(at.kids, k + 1)
    ensures k > 0 ==> AddrAt(at.kids, k - 1) in m.nodes
    ensures k + 1 < |at.kids| ==> AddrAt(at.kids, k + 1) in m.nodes
    ensures var nodes := Unlink(m.nodes, at.addr, at.kids[k].addr);
            && nodes.Keys == m.nodes.Keys
            && nodes[at.kids[k].addr] == m.nodes[at.kids[k].addr].(prev := 0, next := 0)
            && (k > 0 ==> nodes[at.kids[k - 1].addr] == m.nodes[at.kids[k - 1].addr].(next := AddrAt(at.kids, k + 1)))
            && (k + 1 < |at.kids| ==> nodes[at.kids[k + 1].addr] == m.nodes[at.kids[k + 1].addr].(prev := AddrAt(at.kids, k - 1)))
            && nodes[at.addr] == m.nodes[at.addr].(child := if k == 0 then AddrAt(at.kids, 1) else AddrAt(at.kids, 0))
            && forall a :: (a in m.nodes && a != at.addr && a != at.kids[k].addr
                            && a != AddrAt(at.kids, k - 1) && a != AddrAt(at.kids, k + 1)) ==> nodes[a] == m.nodes[a]
  {
    hide Linked, Distinct;
    LinkedKid(m, at, k);
    LinkedKid(m, at, 0);
    if k > 0 {
      LinkedKid(m, at, k - 1);
      RemainingDiffer(at.kids, at.addr, k - 1, k);
      RemainingDiffer(at.kids, at.addr, 0, k);
    }
    if k + 1 < |at.kids| {
      LinkedKid(m, at, k + 1);
      RemainingDiffer(at.kids, at.addr, k + 1, k);
    }
    RemainingDiffer(at.kids, at.addr, k, if k == 0 then |at.kids| - 1 else 0);
  }

  lemma UnlinkRelinks(m: Mem, n: Mem, at: Tree, k: nat)
    requires WellFormed(m)
    requires at.addr in m.nodes && m.nodes[at.addr].child == AddrAt(at.kids, 0)
    requires Linked(m, at.kids) && Distinct(at.kids, at.addr) && k < |at.kids| && at.kids[k].addr in m.nodes
    requires m.nodes[at.kids[k].addr].prev != 0 ==> m.nodes[at.kids[k].addr].prev in m.nodes
    requires m.nodes[at.kids[k].addr].next != 0 ==> m.nodes[at.kids[k].addr].next in m.nodes
    requires n == m.(nodes := Unlink(m.nodes, at.addr, at.kids[k].addr))
    ensures Relinked(m, n, at.addr, at.kids)
  {
    hide Roots, Linked, Distinct, Unlink;
    UnlinkWrites(m, at, k);
    RootIn(at.kids, k);
    if k > 0 {
      RootIn(at.kids, k - 1);
    }
    if k + 1 < |at.kids| {
      RootIn(at.kids, k + 1);
    }
  }

  lemma UnlinkPointers(m: Mem, n: Mem, at: Tree, k: nat)
    requires at.addr in m.nodes && m.nodes[at.addr].child == AddrAt(at.kids, 0)
    requires Linked(m, at.kids) && Distinct(at.kids, at.addr) && k < |at.kids| && at.kids[k].addr in m.nodes
    requires m.nodes[at.kids[k].addr].prev != 0 ==> m.nodes[at.kids[k].addr].prev in m.nodes
    requires m.nodes[at.kids[k].addr].next != 0 ==> m.nodes[at.kids[k].addr].next in m.nodes
    requires n == m.(nodes := Unlink(m.nodes, at.addr, at.kids[k].addr))
    ensures Linked(n, RemoveAt(at.kids, k))
    ensures n.nodes[at.addr].child == AddrAt(RemoveAt(at.kids, k), 0)
    ensures n.nodes[at.kids[k].addr].next == 0 && n.nodes[at.kids[k].addr].prev == 0
  {
    hide Unlink, Linked, Distinct;
    UnlinkWrites(m, at, k);
    var now := RemoveAt(at.kids, k);
    forall j | 0 <= j < |now|
      ensures now[j].addr in n.nodes
      ensures n.nodes[now[j].addr].prev == AddrAt(now, j - 1) && n.nodes[now[j].addr].next == AddrAt(now, j + 1)
    {
      var i := if j < k then j else j + 1;
      LinkedKid(m, at, i);
      RemainingDiffer(at.kids, at.addr, i, k);
      RemovedAddr(at.kids, k, j);
    }
    LinkedByIndex(n, now);
    RemovedAddr(at.kids, k, -1);
  }

  lemma RemovedAddr(kids: seq<Tree>, k: nat, j: int)
    requires k < |kids| && -1 <= j < |kids|
    ensures var now := RemoveAt(kids, k);
            && AddrAt(now, j - 1) == (if j - 1 < k then AddrAt(kids, j - 1) else AddrAt(kids, j))
            && AddrAt(now, j + 1) == (if j + 1 < k then AddrAt(kids, j + 1) else AddrAt(kids, j + 2))
  {
  }

  lemma RemainingDiffer(kids: seq<Tree>, parent: Ptr, j: nat, k: nat)
    requires Distinct(kids, parent) && j < |kids| && k < |kids|
    ensures kids[k].addr != parent && kids[k].addr != 0 && kids[j].addr != parent && kids[j].addr != 0
    ensures j != k ==> kids[j].addr != kids[k].addr
    ensures j != k - 1 ==> kids[j].addr != AddrAt(kids, k - 1)
    ensures j != k + 1 ==> kids[j].addr != AddrAt(kids, k + 1)
  {
  }

  /** `cJSON_DetachItemFromArray` takes the child at the index out, whole; past the end it does nothing. */
  method DetachItemFromArray(h: Heap, parent: Ptr, which: int, ghost at: Tree) returns (c: Ptr)
    requires WellFormed(h.mem) && Held(h.mem, at) && Proper(at) && at.addr == parent
    modifies h`mem
    ensures c == AddrAt(at.kids, Index(which)) && (c == 0 <==> Index(which) >= |at.kids|)
    ensures c == 0 ==> h.mem == old(h.mem)
    ensures c != 0 ==> HasKids(old(h.mem), h.mem, at, RemoveAt(at.kids, Index(which)), at.kids)
    ensures c != 0 ==> Loose(h.mem, at.kids[Index(which)], c)
  {
    hide Held, Proper, Cells, CellsOf, Relinked, ProperAll, HeldAll, Linked, Distinct, RemoveAt, Loose;
    ghost var m, k := h.mem, Index(which);
    Walkable(m, at);
    KidsDistinct(m, at);
    c := GetArrayItem(h, parent, which, at);
    if c == 0 {
      return;
    }
    NeighboursLive(m, at, k);
    var nodes := h.mem.nodes;
    var prev, next := nodes[c].prev, nodes[c].next;
    if prev != 0 {
      nodes := nodes[prev := nodes[prev].(next := next)];
    }
    if next != 0 {
      nodes := nodes[next := nodes[next].(prev := prev)];
    }
    if c == nodes[parent].child {
      nodes := nodes[parent := nodes[parent].(child := next)];
    }
    nodes := nodes[c := nodes[c].(prev := 0, next := 0)];
    h.mem := h.mem.(nodes := nodes);
    UnlinkPointers(m, h.mem, at, k);
    UnlinkRelinks(m, h.mem, at, k);
    RemovedProper(at.kids, k);
    MakeKids(m, h.mem, at, RemoveAt(at.kids, k), at.kids);
    LooseKid(m, h.mem, at, k);
  }

  lemma NeighboursLive(m: Mem, at: Tree, k: nat)
    requires Linked(m, at.kids) && Distinct(at.kids, at.addr) && k < |at.kids|
    ensures var c := at.kids[k].addr;
            && c in m.nodes && m.nodes[c].prev == AddrAt(at.kids, k - 1) && m.nodes[c].next == AddrAt(at.kids, k + 1)
            && (m.nodes[c].prev != 0 ==> m.nodes[c].prev in m.nodes)
            && (m.nodes[c].next != 0 ==> m.nodes[c].next in m.nodes)
  {
  }

  lemma RemovedProper(ts: seq<Tree>, k: nat)
    requires ProperAll(ts) && k < |ts|
    ensures ProperAll(RemoveAt(ts, k)) && forall j :: 0 <= j < |RemoveAt(ts, k)| ==> RemoveAt(ts, k)[j] in ts
  {
    PartProper(ts, RemoveAt(ts, k), seq(|ts| - 1, j requires 0 <= j < |ts| - 1 => if j < k then j else j + 1));
  }

  lemma LooseKid(m: Mem, n: Mem, at: Tree, k: nat)
    requires Proper(at) && k < |at.kids| && HeldAll(n, at.kids) && at.kids[k].addr in n.nodes
    requires n.nodes[at.kids[k].addr].next == 0 && n.nodes[at.kids[k].addr].prev == 0
    ensures Loose(n, at.kids[k], at.kids[k].addr)
  {
  }

  /** `cJSON_DeleteItemFromArray` frees the child with all it owns, and nothing else. */
  method DeleteItemFromArray(h: Heap, parent: Ptr, which: int, ghost at: Tree)
    requires WellFormed(h.mem) && Held(h.mem, at) && Proper(at) && at.addr == parent
    modifies h`mem
    ensures Index(which) >= |at.kids| ==> h.mem == old(h.mem)
    ensures Index(which) < |at.kids| ==>
              var now := at.(kids := RemoveAt(at.kids, Index(which)));
              && WellFormed(h.mem) && Held(h.mem, now) && Proper(now)
              && Live(h.mem) == Live(old(h.mem)) - Cells(at.kids[Index(which)])
              && OnlyBelow(old(h.mem), h.mem, at, {})
              && ValuesOf(h.mem, now.kids) == RemoveAt(ValuesOf(old(h.mem), at.kids), Index(which))
              && MembersOf(h.mem, now.kids) == RemoveAt(MembersOf(old(h.mem), at.kids), Index(which))
  {
    hide Held, Proper, Cells, CellsOf, Relinked, ProperAll, ValuesOf, MembersOf, Loose, HasKids, Without;
    ghost var m, k := h.mem, Index(which);
    var c := DetachItemFromArray(h, parent, which, at);
    if c == 0 {
      NoCells();
      h.Delete(c, []);
    } else {
      HasKidsFacts(m, h.mem, at, RemoveAt(at.kids, k), at.kids);
      DetachedFreed(m, h.mem, at, k);
      DeleteLoose(h, c, at.kids[k]);
    }
  }

  lemma HasKidsFacts(m: Mem, n: Mem, at: Tree, kids: seq<Tree>, ts: seq<Tree>)
    requires HasKids(m, n, at, kids, ts)
    ensures WellFormed(n) && Live(n) == Live(m) && Held(n, at.(kids := kids)) && Proper(at.(kids := kids))
    ensures ValuesOf(n, ts) == ValuesOf(m, ts) && MembersOf(n, ts) == MembersOf(m, ts)
  {
  }

  lemma HasKidsRelinked(m: Mem, n: Mem, at: Tree, kids: seq<Tree>, ts: seq<Tree>)
    requires HasKids(m, n, at, kids, ts)
    ensures Relinked(m, n, at.addr, ts)
  {
  }

  /** What is left when the child that was taken out is freed. */
  lemma DetachedFreed(m: Mem, n: Mem, at: Tree, k: nat)
    requires Proper(at) && k < |at.kids| && HasKids(m, n, at, RemoveAt(at.kids, k), at.kids)
    requires Loose(n, at.kids[k], at.kids[k].addr)
    ensures var left, now := Without(n, Cells(at.kids[k])), at.(kids := RemoveAt(at.kids, k));
            && WellFormed(left) && Held(left, now) && Proper(now)
            && Live(left) == Live(m) - Cells(at.kids[k])
            && OnlyBelow(m, left, at, {})
            && ValuesOf(left, now.kids) == RemoveAt(ValuesOf(m, at.kids), k)
            && MembersOf(left, now.kids) == RemoveAt(MembersOf(m, at.kids), k)
  {
    hide Held, Proper, Cells, CellsOf, Relinked, ProperAll, ValueOf, TextAt, HasKids, HeldAll;
    var t, now := at.kids[k], at.(kids := RemoveAt(at.kids, k));
    HasKidsFacts(m, n, at, now.kids, at.kids);
    RestApart(at, k);
    AfterRemoval(n, now, Cells(t));
    KidCells(at, k);
    HasKidsRelinked(m, n, at, now.kids, at.kids);
    RelinkedBelow(m, n, at, at.kids, {}, Cells(t));
    PickedValues(n, at.kids, now.kids, seq(|at.kids| - 1, j requires 0 <= j < |at.kids| - 1 => if j < k then j else j + 1));
  }

  /** `cJSON_Delete` of a tree of its own. */
  method DeleteLoose(h: Heap, c: Ptr, ghost t: Tree)
    requires WellFormed(h.mem) && Loose(h.mem, t, c)
    modifies h`mem
    ensures h.mem == Without(old(h.mem), Cells(t))
  {
    NoCells();
    assert CellsOf([t]) == Cells(t) by {
      CellsOfSnoc([], t);
      assert [] + [t] == [t];
    }
    h.Delete(c, [t]);
  }

  lemma RestApart(at: Tree, k: nat)
    requires Proper(at) && k < |at.kids|
    ensures Cells(at.(kids := RemoveAt(at.kids, k))) !! Cells(at.kids[k])
  {
    hide Cells, Proper;
    var now := RemoveAt(at.kids, k);
    OwnApart(at, k);
    forall j | 0 <= j < |now|
      ensures Cells(now[j]) !! Cells(at.kids[k])
    {
      KidsApart(at, if j < k then j else j + 1, k);
    }
    CellsApart(at, now, Cells(at.kids[k]));
  }

  /** The cells of a node whose child at `k` is out, or exchanged for the item. */
  lemma RestCells(at: Tree, k: nat, it: Tree)
    requires Proper(at) && k < |at.kids|
    ensures Cells(at.(kids := RemoveAt(at.kids, k))) == Cells(at) - Cells(at.kids[k])
    ensures Cells(at.(kids := at.kids[k := it])) == Cells(at) - Cells(at.kids[k]) + Cells(it)
  {
    hide Cells, CellsOf, Proper;
    var front, t, back := at.kids[..k], at.kids[k], at.kids[k + 1..];
    RestApart(at, k);
    CellsParts(at);
    CellsParts(at.(kids := RemoveAt(at.kids, k)));
    CellsParts(at.(kids := at.kids[k := it]));
    CellsOfBoth(front, back);
    CellsOfBoth(front + [t], back);
    CellsOfBoth(front, [t]);
    CellsOfBoth(front + [it], back);
    CellsOfBoth(front, [it]);
    CellsOfOne(t);
    CellsOfOne(it);
    assert at.kids == front + [t] + back && at.kids[k := it] == front + [it] + back;
  }

  /** Freeing cells elsewhere leaves the tree and its children as they are. */
  lemma AfterRemoval(m: Mem, t: Tree, s: set<Ptr>)
    requires WellFormed(m) && Held(m, t) && Proper(t) && s !! Cells(t)
    ensures WellFormed(Without(m, s)) && Held(Without(m, s), t)
    ensures ValuesOf(Without(m, s), t.kids) == ValuesOf(m, t.kids)
    ensures MembersOf(Without(m, s), t.kids) == MembersOf(m, t.kids)
  {
    hide Held, Proper, Cells, ValueOf, TextAt;
    HeldAfter(m, s, t);
    KidCellsOf(t);
    KidsFrame(m, Without(m, s), t);
  }

  lemma PickedValues(m: Mem, ts: seq<Tree>, kids: seq<Tree>, pick: seq<nat>)
    requires |pick| == |kids| && forall k :: 0 <= k < |pick| ==> pick[k] < |ts| && kids[k] == ts[pick[k]]
    ensures forall k :: 0 <= k < |kids| ==> ValuesOf(m, kids)[k] == ValuesOf(m, ts)[pick[k]]
    ensures forall k :: 0 <= k < |kids| ==> MembersOf(m, kids)[k] == MembersOf(m, ts)[pick[k]]
  {
  }

  // ----- putting another in place -----

  /** The map of nodes after `cJSON_ReplaceItemInArray` has put `item` where `c` was. */
  function Exchange(nodes: map<Ptr, Node>, parent: Ptr, c: Ptr, item: Ptr): map<Ptr, Node>
    requires c in nodes && parent in nodes && item in nodes
    requires nodes[c].next != 0 ==> nodes[c].next in nodes
    requires c == nodes[parent].child || nodes[c].prev in nodes
  {
    var prev, next := nodes[c].prev, nodes[c].next;
    var n1 := nodes[item := nodes[item].(next := next, prev := prev)];
    var n2 := if next != 0 then n1[next := n1[next].(prev := item)] else n1;
    var n3 := if c == n2[parent].child then n2[parent := n2[parent].(child := item)]
              else n2[prev := n2[prev].(next := item)];
    n3[c := n3[c].(prev := 0, next := 0)]
  }

  /** The state in which the exchange runs. */
  ghost predicate Exchangeable(m: Mem, at: Tree, it: Tree, k: nat) {
    && at.addr in m.nodes && m.nodes[at.addr].child == AddrAt(at.kids, 0)
    && Linked(m, at.kids) && Distinct(at.kids + [it], at.addr) && k < |at.kids|
    && at.kids[k].addr in m.nodes && it.addr in m.nodes && 0 !in m.nodes
    && m.nodes[at.kids[k].addr].prev == AddrAt(at.kids, k - 1)
    && m.nodes[at.kids[k].addr].next == AddrAt(at.kids, k + 1)
    && (k > 0 ==> AddrAt(at.kids, k - 1) in m.nodes && at.kids[k].addr != AddrAt(at.kids, 0))
    && (k + 1 < |at.kids| ==> AddrAt(at.kids, k + 1) in m.nodes)
  }

  lemma MakeExchangeable(m: Mem, at: Tree, it: Tree, k: nat)
    requires WellFormed(m) && Held(m, at) && Proper(at) && k < |at.kids|
    requires Loose(m, it, it.addr) && Cells(at) !! Cells(it)
    ensures Exchangeable(m, at, it, k)
  {
    hide Held, Proper, Cells, CellsOf, ProperAll, HeldAll;
    Walkable(m, at);
    WithLoose(m, at, it);
    KidsDistinct(m, at);
    NeighboursLive(m, at, k);
    LooseFacts(m, it, it.addr);
    if k > 0 {
      assert at.kids[0].addr != at.kids[k].addr;
    }
  }

  lemma ExchangeWrites(m: Mem, at: Tree, it: Tree, k: nat)
    requires Exchangeable(m, at, it, k)
    ensures var nodes := Exchange(m.nodes, at.addr, at.kids[k].addr, it.addr);
            && nodes.Keys == m.nodes.Keys
            && nodes[at.kids[k].addr] == m.nodes[at.kids[k].addr].(prev := 0, next := 0)
            && nodes[it.addr] == m.nodes[it.addr].(prev := AddrAt(at.kids, k - 1), next := AddrAt(at.kids, k + 1))
            && (k > 0 ==> nodes[at.kids[k - 1].addr] == m.nodes[at.kids[k - 1].addr].(next := it.addr))
            && (k + 1 < |at.kids| ==> nodes[at.kids[k + 1].addr] == m.nodes[at.kids[k + 1].addr].(prev := it.addr))
            && nodes[at.addr] == m.nodes[at.addr].(child := if k == 0 then it.addr else AddrAt(at.kids, 0))
            && forall a :: (a in m.nodes && a != at.addr && a != at.kids[k].addr && a != it.addr
                            && a != AddrAt(at.kids, k - 1) && a != AddrAt(at.kids, k + 1)) ==> nodes[a] == m.nodes[a]
  {
    hide Linked, Distinct;
    ExchangeApart(at, it, k);
    LinkedKid(m, at, k);
    if k > 0 {
      LinkedKid(m, at, k - 1);
      KidsDiffer(at, it, k - 1, k);
      KidsDiffer(at, it, 0, k);
    }
    if k + 1 < |at.kids| {
      LinkedKid(m, at, k + 1);
      KidsDiffer(at, it, k + 1, k);
    }
  }

  lemma ExchangeRelinks(m: Mem, n: Mem, at: Tree, it: Tree, k: nat)
    requires Exchangeable(m, at, it, k)
    requires n == m.(nodes := Exchange(m.nodes, at.addr, at.kids[k].addr, it.addr))
    ensures Relinked(m, n, at.addr, at.kids + [it])
  {
    hide Roots, Linked, Distinct, Exchange;
    ExchangeWrites(m, at, it, k);
    var ts := at.kids + [it];
    RootIn(ts, |at.kids|);
    RootIn(ts, k);
    if k > 0 {
      RootIn(ts, k - 1);
    }
    if k + 1 < |at.kids| {
      RootIn(ts, k + 1);
    }
  }

  lemma ExchangePointers(m: Mem, n: Mem, at: Tree, it: Tree, k: nat)
    requires Exchangeable(m, at, it, k)
    requires n == m.(nodes := Exchange(m.nodes, at.addr, at.kids[k].addr, it.addr))
    ensures Linked(n, at.kids[k := it]) && n.nodes[at.addr].child == AddrAt(at.kids[k := it], 0)
    ensures n.nodes[at.kids[k].addr].next == 0 && n.nodes[at.kids[k].addr].prev == 0
  {
    hide Exchange, Linked, Distinct;
    ExchangeWrites(m, at, it, k);
    var now := at.kids[k := it];
    forall j | 0 <= j < |now|
      ensures now[j].addr in n.nodes
      ensures n.nodes[now[j].addr].prev == AddrAt(now, j - 1) && n.nodes[now[j].addr].next == AddrAt(now, j + 1)
    {
      ExchangePointer(m, n, at, it, k, j);
    }
    LinkedByIndex(n, now);
    ExchangeWrites(m, at, it, k);
    ExchangeFirst(at, it, k);
  }

  lemma ExchangeFirst(at: Tree, it: Tree, k: nat)
    requires k < |at.kids|
    ensures AddrAt(at.kids[k := it], 0) == if k == 0 then it.addr else AddrAt(at.kids, 0)
  {
  }

  lemma ExchangePointer(m: Mem, n: Mem, at: Tree, it: Tree, k: nat, j: nat)
    requires Exchangeable(m, at, it, k) && j < |at.kids|
    requires n == m.(nodes := Exchange(m.nodes, at.addr, at.kids[k].addr, it.addr))
    ensures var now := at.kids[k := it];
            && now[j].addr in n.nodes
            && n.nodes[now[j].addr].prev == AddrAt(now, j - 1) && n.nodes[now[j].addr].next == AddrAt(now, j + 1)
  {
    hide Exchange, Distinct, Linked;
    ExchangeWrites(m, at, it, k);
    if j != k {
      LinkedKid(m, at, j);
      KidsDiffer(at, it, j, k);
    }
  }

  lemma KidsDiffer(at: Tree, it: Tree, j: nat, k: nat)
    requires Distinct(at.kids + [it], at.addr) && j < |at.kids| && k < |at.kids| && j != k
    ensures at.kids[j].addr != it.addr && at.kids[j].addr != at.addr && at.kids[j].addr != at.kids[k].addr
    ensures j != k - 1 && k > 0 ==> at.kids[j].addr != AddrAt(at.kids, k - 1)
    ensures j != k + 1 ==> at.kids[j].addr != AddrAt(at.kids, k + 1)
  {
    var ts := at.kids + [it];
    assert ts[|at.kids|] == it && ts[j] == at.kids[j] && ts[k] == at.kids[k];
    assert k > 0 ==> ts[k - 1] == at.kids[k - 1];
    assert k + 1 < |at.kids| ==> ts[k + 1] == at.kids[k + 1];
  }

  lemma ReplacedProper(kids: seq<Tree>, it: Tree, k: nat)
    requires ProperAll(kids + [it]) && k < |kids|
    ensures ProperAll(kids[k := it]) && forall x :: x in kids[k := it] ==> x in kids + [it]
    ensures CellsOf(kids[k := it]) !! Cells(kids[k])
  {
    var ts, now := kids + [it], kids[k := it];
    PartProper(ts, now, seq(|kids|, j requires 0 <= j < |kids| => if j == k then |kids| else j));
    forall j | 0 <= j < |now|
      ensures Cells(now[j]) !! Cells(kids[k])
    {
      assert ts[k] == kids[k] && now[j] == ts[if j == k then |kids| else j];
    }
  }

  /** Exchange the child at `k` for the item, keeping the child loose. */
  method ExchangeItem(h: Heap, parent: Ptr, c: Ptr, item: Ptr, ghost at: Tree, ghost it: Tree, ghost k: nat)
    requires WellFormed(h.mem) && Held(h.mem, at) && Proper(at) && at.addr == parent
    requires Loose(h.mem, it, item) && Cells(at) !! Cells(it)
    requires k < |at.kids| && c == at.kids[k].addr
    modifies h`mem
    ensures HasKids(old(h.mem), h.mem, at, at.kids[k := it], at.kids + [it])
    ensures Loose(h.mem, at.kids[k], c)
  {
    hide Held, Proper, Cells, CellsOf, Relinked, ProperAll, HeldAll, Linked, Distinct;
    ghost var m := h.mem;
    LooseFacts(m, it, item);
    MakeExchangeable(m, at, it, k);
    WithLoose(m, at, it);
    var nodes := h.mem.nodes;
    nodes := nodes[item := nodes[item].(next := nodes[c].next, prev := nodes[c].prev)];
    ExchangeApart(at, it, k);
    if nodes[item].next != 0 {
      nodes := nodes[nodes[item].next := nodes[nodes[item].next].(prev := item)];
    }
    if c == nodes[parent].child {
      nodes := nodes[parent := nodes[parent].(child := item)];
    } else {
      nodes := nodes[nodes[item].prev := nodes[nodes[item].prev].(next := item)];
    }
    nodes := nodes[c := nodes[c].(prev := 0, next := 0)];
    h.mem := h.mem.(nodes := nodes);
    ExchangePointers(m, h.mem, at, it, k);
    ExchangeRelinks(m, h.mem, at, it, k);
    ReplacedProper(at.kids, it, k);
    MakeKids(m, h.mem, at, at.kids[k := it], at.kids + [it]);
    LooseExchanged(h.mem, at, it, k);
  }

  lemma ExchangeApart(at: Tree, it: Tree, k: nat)
    requires Distinct(at.kids + [it], at.addr) && k < |at.kids|
    ensures at.kids[k].addr != it.addr && at.addr != it.addr && at.addr != at.kids[k].addr
    ensures k + 1 < |at.kids| ==> AddrAt(at.kids, k + 1) != it.addr && AddrAt(at.kids, k + 1) != at.addr
    ensures k + 1 < |at.kids| ==> AddrAt(at.kids, k + 1) != at.kids[k].addr
    ensures k > 0 ==> AddrAt(at.kids, k - 1) != it.addr
  {
    var ts := at.kids + [it];
    assert ts[|at.kids|] == it && ts[k] == at.kids[k];
    assert k + 1 < |at.kids| ==> ts[k + 1] == at.kids[k + 1];
    assert k > 0 ==> ts[k - 1] == at.kids[k - 1];
  }

  lemma LooseExchanged(n: Mem, at: Tree, it: Tree, k: nat)
    requires Proper(at) && k < |at.kids| && HeldAll(n, at.kids + [it]) && at.kids[k].addr in n.nodes
    requires n.nodes[at.kids[k].addr].next == 0 && n.nodes[at.kids[k].addr].prev == 0
    ensures Loose(n, at.kids[k], at.kids[k].addr)
  {
    assert (at.kids + [it])[k] == at.kids[k];
  }

  /** `cJSON_ReplaceItemInArray` puts the item at the index and frees what was there; past the end it does nothing. */
  method ReplaceItemInArray(h: Heap, parent: Ptr, which: int, item: Ptr, ghost at: Tree, ghost it: Tree)
    requires WellFormed(h.mem) && Held(h.mem, at) && Proper(at) && at.addr == parent
    requires Loose(h.mem, it, item) && Cells(at) !! Cells(it)
    modifies h`mem
    ensures Index(which) >= |at.kids| ==> h.mem == old(h.mem)
    ensures Index(which) < |at.kids| ==>
              var now := at.(kids := at.kids[Index(which) := it]);
              && WellFormed(h.mem) && Held(h.mem, now) && Proper(now)
              && Live(h.mem) == Live(old(h.mem)) - Cells(at.kids[Index(which)])
              && OnlyBelow(old(h.mem), h.mem, at, Cells(it))
              && ValuesOf(h.mem, now.kids) == ValuesOf(old(h.mem), at.kids)[Index(which) := ValueOf(old(h.mem), it)]
              && MembersOf(h.mem, now.kids)
                 == MembersOf(old(h.mem), at.kids)[Index(which) := Member(TextAt(old(h.mem), it.name), ValueOf(old(h.mem), it))]
  {
    hide Held, Proper, Cells, CellsOf, ProperAll, HeldAll, ValuesOf, MembersOf, Loose, HasKids, Without, ValueOf;
    ghost var m, k := h.mem, Index(which);
    var c := GetArrayItem(h, parent, which, at);
    if c == 0 {
      return;
    }
    LooseFacts(m, it, item);
    ExchangeItem(h, parent, c, item, at, it, k);
    ExchangedFreed(m, h.mem, at, it, k);
    HasKidsFacts(m, h.mem, at, at.kids[k := it], at.kids + [it]);
    DeleteLoose(h, c, at.kids[k]);
  }

  lemma ExchangedFreed(m: Mem, n: Mem, at: Tree, it: Tree, k: nat)
    requires k < |at.kids| && HasKids(m, n, at, at.kids[k := it], at.kids + [it])
    requires Loose(n, at.kids[k], at.kids[k].addr)
    requires Proper(at) && Cells(at) !! Cells(it) && Proper(it)
    ensures var left, now := Without(n, Cells(at.kids[k])), at.(kids := at.kids[k := it]);
            && WellFormed(left) && Held(left, now) && Proper(now)
            && Live(left) == Live(m) - Cells(at.kids[k])
            && OnlyBelow(m, left, at, Cells(it))
            && ValuesOf(left, now.kids) == ValuesOf(m, at.kids)[k := ValueOf(m, it)]
            && MembersOf(left, now.kids) == MembersOf(m, at.kids)[k := Member(TextAt(m, it.name), ValueOf(m, it))]
  {
    hide Held, Proper, Cells, CellsOf, Relinked, ProperAll, ValueOf, TextAt, HasKids, HeldAll;
    var t, now, ts := at.kids[k], at.(kids := at.kids[k := it]), at.kids + [it];
    HasKidsFacts(m, n, at, now.kids, ts);
    ExchangedApart(at, it, k);
    AfterRemoval(n, now, Cells(t));
    KidCells(at, k);
    CellsOfSnoc(at.kids, it);
    HasKidsRelinked(m, n, at, now.kids, ts);
    RelinkedBelow(m, n, at, ts, Cells(it), Cells(t));
    PickedValues(n, ts, now.kids, seq(|at.kids|, j requires 0 <= j < |at.kids| => if j == k then |at.kids| else j));
    assert ts[|at.kids|] == it && forall j :: 0 <= j < |at.kids| ==> ts[j] == at.kids[j];
  }

  lemma ExchangedApart(at: Tree, it: Tree, k: nat)
    requires Proper(at) && k < |at.kids| && Cells(at) !! Cells(it) && Proper(it)
    ensures Cells(at.(kids := at.kids[k := it])) !! Cells(at.kids[k])
  {
    hide Cells, Proper;
    var now := at.kids[k := it];
    KidCells(at, k);
    OwnApart(at, k);
    forall j | 0 <= j < |now|
      ensures Cells(now[j]) !! Cells(at.kids[k])
    {
      if j != k {
        KidsApart(at, j, k);
      }
    }
    CellsApart(at, now, Cells(at.kids[k]));
  }

  lemma MembersSnoc(m: Mem, ts: seq<Tree>, t: Tree)
    ensures MembersOf(m, ts + [t]) == MembersOf(m, ts) + [Member(TextAt(m, t.name), ValueOf(m, t))]
    ensures ValuesOf(m, ts + [t]) == ValuesOf(m, ts) + [ValueOf(m, t)]
  {
    hide ValueOf, TextAt;
    var all := ts + [t];
    assert all[|ts|] == t && forall k :: 0 <= k < |ts| ==> all[k] == ts[k];
  }
}
