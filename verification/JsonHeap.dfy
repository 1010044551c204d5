/** The heap of cJSON nodes and strings, its ownership trees, and `cJSON_Delete` (cJSON.c:61-114, cJSON.h).

A pointer is a number, 0 the null pointer. Nodes and strings are separate
allocations. A `Tree` is the shape of what a node owns: it is how the contracts
talk about the memory, the code itself follows the pointers only.
 */
module JsonHeap {
  import opened Bytes
  import opened ByteBlocks
  import opened JsonInteger
  import opened JsonText

  type Ptr = nat

  /** The `type` field; a zeroed node has the first of them. */
  datatype Kind = KFalse | KTrue | KNull | KInt | KDouble | KString | KArray | KObject

  /** `number` stands for `valueint`, `sign` and `valuedouble`; `name` is the field `string`. */
  datatype Node = Node(next: Ptr, prev: Ptr, child: Ptr, kind: Kind, valuestring: Ptr, number: Number, name: Ptr)

  const BLANK := Node(0, 0, 0, KFalse, 0, Int(0, 0), 0)

  datatype Mem = Mem(nodes: map<Ptr, Node>, blocks: map<Ptr, seq<byte>>)

  function Live(m: Mem): set<Ptr> {
    m.nodes.Keys + m.blocks.Keys
  }

  predicate WellFormed(m: Mem) {
    0 !in Live(m) && m.nodes.Keys !! m.blocks.Keys
  }

  function Without(m: Mem, s: set<Ptr>): Mem {
    Mem(m.nodes - s, m.blocks - s)
  }

  // ----- ownership -----

  datatype Tree = Tree(addr: Ptr, valuestring: Ptr, name: Ptr, kids: seq<Tree>)

  function Cell(p: Ptr): set<Ptr> {
    if p == 0 then {} else {p}
  }

  function Own(t: Tree): set<Ptr> {
    {t.addr} + Cell(t.valuestring) + Cell(t.name)
  }

  /** Every allocation in a tree. */
  ghost function Cells(t: Tree): set<Ptr>
    decreases t, 1
  {
    Own(t) + CellsOf(t.kids)
  }

  ghost function CellsOf(ts: seq<Tree>): set<Ptr>
    decreases ts, 0
  {
    set k, a | 0 <= k < |ts| && a in Cells(ts[k]) :: a
  }

  /** No allocation occurs twice. */
  ghost predicate Proper(t: Tree)
    decreases t, 1
  {
    && t.addr != t.valuestring && t.addr != t.name && (t.valuestring != 0 ==> t.valuestring != t.name)
    && Own(t) !! CellsOf(t.kids)
    && ProperAll(t.kids)
  }

  ghost predicate ProperAll(ts: seq<Tree>)
    decreases ts, 0
  {
    && (forall k :: 0 <= k < |ts| ==> Proper(ts[k]))
    && (forall j, k :: 0 <= j < k < |ts| ==> Cells(ts[j]) !! Cells(ts[k]))
  }

  /** The address of the tree at `k`, null at the end. */
  function AddrAt(ts: seq<Tree>, k: int): Ptr {
    if 0 <= k < |ts| then ts[k].addr else 0
  }

  /** The siblings are chained in both directions, with null at both ends. */
  ghost predicate Linked(m: Mem, ts: seq<Tree>) {
    forall k :: 0 <= k < |ts| ==>
      && ts[k].addr in m.nodes
      && m.nodes[ts[k].addr].next == AddrAt(ts, k + 1)
      && m.nodes[ts[k].addr].prev == AddrAt(ts, k - 1)
  }

  /** The `next` pointers alone. */
  ghost predicate Chained(m: Mem, ts: seq<Tree>) {
    forall k :: 0 <= k < |ts| ==> ts[k].addr in m.nodes && m.nodes[ts[k].addr].next == AddrAt(ts, k + 1)
  }

  /** The tree is in memory. */
  ghost predicate Held(m: Mem, t: Tree)
    decreases t, 1
  {
    && t.addr in m.nodes
    && m.nodes[t.addr].valuestring == t.valuestring
    && m.nodes[t.addr].name == t.name
    && (t.valuestring != 0 ==> t.valuestring in m.blocks)
    && (t.name != 0 ==> t.name in m.blocks)
    && m.nodes[t.addr].child == AddrAt(t.kids, 0)
    && Linked(m, t.kids)
    && HeldAll(m, t.kids)
  }

  ghost predicate HeldAll(m: Mem, ts: seq<Tree>)
    decreases ts, 0
  {
    forall k :: 0 <= k < |ts| ==> Held(m, ts[k])
  }

  // ----- contents -----

  /** The string at `p`; the null pointer is none, which no C string reads as. */
  function TextAt(m: Mem, p: Ptr): seq<byte> {
    if p != 0 && p in m.blocks then m.blocks[p] else [NUL]
  }

  /** The value a node and what it owns stand for. */
  ghost function ValueOf(m: Mem, t: Tree): Value
    decreases t, 1
  {
    if t.addr !in m.nodes then Null
    else match m.nodes[t.addr].kind
      case KFalse => False
      case KTrue => True
      case KNull => Null
      case KInt => Num(m.nodes[t.addr].number)
      case KDouble => Num(AsDouble(m.nodes[t.addr].number))
      case KString => Str(TextAt(m, t.valuestring))
      case KArray => Arr(ValuesOf(m, t.kids))
      case KObject => Obj(MembersOf(m, t.kids))
  }

  ghost function ValuesOf(m: Mem, ts: seq<Tree>): (vs: seq<Value>)
    ensures |vs| == |ts|
    decreases ts, 0
  {
    seq(|ts|, k requires 0 <= k < |ts| => ValueOf(m, ts[k]))
  }

  ghost function MembersOf(m: Mem, ts: seq<Tree>): (ms: seq<Member>)
    ensures |ms| == |ts|
    decreases ts, 0
  {
    seq(|ts|, k requires 0 <= k < |ts| => Member(TextAt(m, ts[k].name), ValueOf(m, ts[k])))
  }

  lemma ArrayValue(m: Mem, t: Tree)
    requires t.addr in m.nodes && m.nodes[t.addr].kind == KArray
    ensures ValueOf(m, t) == Arr(ValuesOf(m, t.kids))
  {
  }

  lemma ObjectValue(m: Mem, t: Tree)
    requires t.addr in m.nodes && m.nodes[t.addr].kind == KObject
    ensures ValueOf(m, t) == Obj(MembersOf(m, t.kids))
  {
  }

  // ----- frames -----

  /** What `m` holds at these addresses, `n` holds too. */
  ghost predicate Agree(m: Mem, n: Mem, s: set<Ptr>) {
    forall a :: a in s ==>
      && (a in m.nodes ==> a in n.nodes && n.nodes[a] == m.nodes[a])
      && (a in m.blocks ==> a in n.blocks && n.blocks[a] == m.blocks[a])
  }

  /** Equal but for the sibling links. */
  predicate SameButLinks(a: Node, b: Node) {
    a.(next := b.next, prev := b.prev) == b
  }

  /** A tree depends on its own cells only, and not on the links of its root. */
  lemma {:induction false} HeldFrame(m: Mem, n: Mem, t: Tree)
    requires WellFormed(m) && Held(m, t) && Proper(t)
    requires Agree(m, n, Cells(t) - {t.addr})
    requires t.addr in n.nodes && SameButLinks(m.nodes[t.addr], n.nodes[t.addr])
    ensures Held(n, t) && ValueOf(n, t) == ValueOf(m, t) && TextAt(n, t.name) == TextAt(m, t.name)
    decreases t, 1
  {
    hide Cells, Proper, Agree, TextAt, ValuesOf, MembersOf, Linked, HeldAll, WellFormed;
    OwnFrame(m, n, t);
    KidCellsOf(t);
    AgreePart(m, n, Cells(t) - {t.addr}, CellsOf(t.kids));
    KidsFrame(m, n, t);
  }

  lemma KidCellsOf(t: Tree)
    requires Proper(t)
    ensures CellsOf(t.kids) <= Cells(t) - {t.addr}
  {
  }

  lemma AgreePart(m: Mem, n: Mem, s: set<Ptr>, part: set<Ptr>)
    requires Agree(m, n, s) && part <= s
    ensures Agree(m, n, part)
  {
  }

  lemma AgreeSmaller(m: Mem, n: Mem, n2: Mem, s: set<Ptr>, s2: set<Ptr>)
    requires Agree(m, n, s) && Agree(n, n2, s2)
    requires forall a :: a in s && a in Live(n) ==> a in s2
    ensures Agree(m, n2, s)
  {
  }

  lemma OwnFrame(m: Mem, n: Mem, t: Tree)
    requires WellFormed(m) && Held(m, t) && Proper(t)
    requires Agree(m, n, Cells(t) - {t.addr})
    ensures t.valuestring != 0 ==> t.valuestring in n.blocks
    ensures t.name != 0 ==> t.name in n.blocks
    ensures TextAt(n, t.valuestring) == TextAt(m, t.valuestring)
    ensures TextAt(n, t.name) == TextAt(m, t.name)
  {
  }

  lemma {:induction false} KidsFrame(m: Mem, n: Mem, t: Tree)
    requires WellFormed(m) && Held(m, t) && Proper(t)
    requires Agree(m, n, CellsOf(t.kids))
    ensures Linked(n, t.kids) && HeldAll(n, t.kids)
    ensures ValuesOf(n, t.kids) == ValuesOf(m, t.kids) && MembersOf(n, t.kids) == MembersOf(m, t.kids)
    decreases t, 0
  {
    hide Held, Proper, Cells, ValueOf, TextAt, CellsOf, WellFormed;
    RootFacts(m, t);
    forall k | 0 <= k < |t.kids|
      ensures t.kids[k].addr in n.nodes && n.nodes[t.kids[k].addr] == m.nodes[t.kids[k].addr]
      ensures Held(n, t.kids[k]) && ValueOf(n, t.kids[k]) == ValueOf(m, t.kids[k])
      ensures TextAt(n, t.kids[k].name) == TextAt(m, t.kids[k].name)
    {
      KidCells(t, k);
      KidHeld(m, t, k);
      HeldFrame(m, n, t.kids[k]);
    }
  }

  /** What a node in memory says of itself. */
  lemma RootFacts(m: Mem, t: Tree)
    requires Held(m, t)
    ensures t.addr in m.nodes && m.nodes[t.addr].child == AddrAt(t.kids, 0)
    ensures m.nodes[t.addr].valuestring == t.valuestring && m.nodes[t.addr].name == t.name
    ensures t.name != 0 ==> t.name in m.blocks
    ensures t.valuestring != 0 ==> t.valuestring in m.blocks
    ensures Linked(m, t.kids)
  {
  }

  lemma MakeHeld(m: Mem, t: Tree)
    requires t.addr in m.nodes && m.nodes[t.addr].child == AddrAt(t.kids, 0)
    requires m.nodes[t.addr].valuestring == t.valuestring && m.nodes[t.addr].name == t.name
    requires t.name != 0 ==> t.name in m.blocks
    requires t.valuestring != 0 ==> t.valuestring in m.blocks
    requires Linked(m, t.kids) && HeldAll(m, t.kids)
    ensures Held(m, t)
  {
  }

  lemma KidHeld(m: Mem, t: Tree, k: nat)
    requires Held(m, t) && k < |t.kids|
    ensures t.kids[k].addr in m.nodes && Held(m, t.kids[k])
  {
  }

  lemma KidCells(t: Tree, k: nat)
    requires k < |t.kids| && Proper(t)
    ensures Cells(t.kids[k]) <= Cells(t) - {t.addr} && Cells(t.kids[k]) <= CellsOf(t.kids) && Proper(t.kids[k])
    ensures t.kids[k].addr in Cells(t.kids[k])
  {
    forall a | a in Cells(t.kids[k])
      ensures a in CellsOf(t.kids)
    {
    }
  }

  lemma LinkedByIndex(m: Mem, ts: seq<Tree>)
    requires forall k :: 0 <= k < |ts| ==> ts[k].addr in m.nodes && m.nodes[ts[k].addr].prev == AddrAt(ts, k - 1)
                                           && m.nodes[ts[k].addr].next == AddrAt(ts, k + 1)
    ensures Linked(m, ts)
  {
  }

  lemma LinkedKid(m: Mem, at: Tree, j: nat)
    requires Linked(m, at.kids) && j < |at.kids|
    ensures at.kids[j].addr in m.nodes && m.nodes[at.kids[j].addr].prev == AddrAt(at.kids, j - 1)
    ensures m.nodes[at.kids[j].addr].next == AddrAt(at.kids, j + 1)
  {
  }

  /** The root of another child is no cell of this one. */
  lemma KidApart(t: Tree, j: nat, k: nat)
    requires Proper(t) && j < |t.kids| && k < |t.kids| && j != k
    ensures t.kids[j].addr !in Cells(t.kids[k])
  {
    assert t.kids[j].addr in Cells(t.kids[j]);
    assert Cells(t.kids[j]) !! Cells(t.kids[k]);
  }

  lemma KidsApart(t: Tree, j: nat, k: nat)
    requires Proper(t) && j < |t.kids| && k < |t.kids| && j != k
    ensures Cells(t.kids[j]) !! Cells(t.kids[k])
  {
  }

  lemma OwnApart(t: Tree, k: nat)
    requires Proper(t) && k < |t.kids|
    ensures Own(t) !! Cells(t.kids[k])
  {
    KidCells(t, k);
  }

  /** Apart from the node's own cells and from each child's is apart from the tree. */
  lemma CellsApart(t: Tree, kids: seq<Tree>, s: set<Ptr>)
    requires Own(t) !! s && forall k :: 0 <= k < |kids| ==> Cells(kids[k]) !! s
    ensures Cells(t.(kids := kids)) !! s
  {
  }

  lemma {:induction false} HeldLive(m: Mem, t: Tree)
    requires Held(m, t)
    ensures Cells(t) <= Live(m)
    decreases t
  {
    forall k | 0 <= k < |t.kids|
      ensures Cells(t.kids[k]) <= Live(m)
    {
      HeldLive(m, t.kids[k]);
    }
  }

  lemma CellsOfSnoc(ts: seq<Tree>, t: Tree)
    ensures CellsOf(ts + [t]) == CellsOf(ts) + Cells(t)
  {
    var all := ts + [t];
    forall a | a in CellsOf(ts) + Cells(t)
      ensures a in CellsOf(all)
    {
      if a in Cells(t) {
        assert all[|ts|] == t;
      } else {
        var k :| 0 <= k < |ts| && a in Cells(ts[k]);
        assert all[k] == ts[k];
      }
    }
  }

  lemma CellsOfBoth(a: seq<Tree>, b: seq<Tree>)
    ensures CellsOf(a + b) == CellsOf(a) + CellsOf(b)
    decreases |b|
  {
    hide Cells;
    if b == [] {
      assert a + b == a;
    } else {
      var rest, t := b[..|b| - 1], b[|b| - 1];
      CellsOfBoth(a, rest);
      CellsOfSnoc(a + rest, t);
      CellsOfSnoc(rest, t);
      assert a + b == (a + rest) + [t] && b == rest + [t];
    }
  }

  lemma CellsOfOne(t: Tree)
    ensures CellsOf([t]) == Cells(t)
  {
    CellsOfSnoc([], t);
    assert [] + [t] == [t];
  }

  lemma CellsParts(t: Tree)
    ensures Cells(t) == Own(t) + CellsOf(t.kids)
  {
  }

  lemma NoCells()
    ensures CellsOf([]) == {} && ProperAll([])
    ensures forall m :: Without(m, {}) == m
  {
  }

  lemma WithoutTwice(m: Mem, a: set<Ptr>, b: set<Ptr>)
    ensures Without(Without(m, a), b) == Without(m, a + b)
  {
  }

  // ----- allocation -----

  lemma FreshExists(s: set<Ptr>)
    ensures exists p: Ptr :: p != 0 && p !in s
  {
    var top := Bound(s);
    assert top + 1 !in s;
  }

  lemma {:induction false} Bound(s: set<Ptr>) returns (top: Ptr)
    ensures forall p :: p in s ==> p <= top
  {
    if s == {} {
      top := 0;
    } else {
      var p :| p in s;
      var below := Bound(s - {p});
      top := if below < p then p else below;
      assert forall q :: q in s ==> q == p || q in s - {p};
    }
  }

  /** `ep`: null, or a position in the text parsed last. */
  datatype ErrorPtr = NoError | ErrorAt(pos: nat)

  class Heap {
    var mem: Mem

    /** The error pointer. */
    var ep: ErrorPtr

    /** Where the printer allocates. */
    const texts: Blocks

    constructor ()
      ensures mem == Mem(map[], map[]) && fresh(texts) && texts.live == {}
    {
      texts := new Blocks();
      mem := Mem(map[], map[]);
      ep := NoError;
    }

    /** `malloc` returns any address that is not live. */
    method Malloc() returns (p: Ptr)
      ensures p != 0 && p !in Live(mem)
    {
      FreshExists(Live(mem));
      p :| p != 0 && p !in mem.nodes && p !in mem.blocks;
    }

    /** `cJSON_New_Item` */
    method NewItem() returns (p: Ptr)
      requires WellFormed(mem)
      modifies `mem
      ensures p != 0 && p !in Live(old(mem)) && WellFormed(mem)
      ensures mem == old(mem).(nodes := old(mem).nodes[p := BLANK])
    {
      p := Malloc();
      mem := mem.(nodes := mem.nodes[p := BLANK]);
    }

    /** A string of its own, as `cJSON_strdup` and `parse_string` allocate it. */
    method NewString(s: seq<byte>) returns (p: Ptr)
      requires WellFormed(mem)
      modifies `mem
      ensures p != 0 && p !in Live(old(mem)) && WellFormed(mem)
      ensures mem == old(mem).(blocks := old(mem).blocks[p := s])
    {
      p := Malloc();
      mem := mem.(blocks := mem.blocks[p := s]);
    }

    /** `free` may be called on a live address only. */
    method Free(p: Ptr)
      requires p in Live(mem)
      modifies `mem
      ensures mem == Without(old(mem), {p})
    {
      mem := Without(mem, {p});
    }

    /** `cJSON_Delete`: the chain and all below it is freed, each allocation once, and nothing else. */
    method Delete(first: Ptr, ghost ts: seq<Tree>)
      requires WellFormed(mem) && HeldAll(mem, ts) && ProperAll(ts) && Chained(mem, ts)
      requires first == AddrAt(ts, 0)
      modifies `mem
      ensures mem == Without(old(mem), CellsOf(ts))
      decreases ts, 1
    {
      hide Cells, CellsOf, Proper, Held, Without;
      var c := first;
      ghost var i := 0;
      NoCells();
      while c != 0
        invariant 0 <= i <= |ts| && c == AddrAt(ts, i)
        invariant mem == Without(old(mem), CellsOf(ts[..i]))
        decreases |ts| - i
      {
        ghost var t := ts[i];
        ApartFromRest(ts, i);
        assert Held(old(mem), t);
        HeldAfter(old(mem), CellsOf(ts[..i]), t);
        var next := mem.nodes[c].next;
        FreeTree(c, t);
        WithoutTwice(old(mem), CellsOf(ts[..i]), Cells(t));
        assert ts[..i + 1] == ts[..i] + [t];
        CellsOfSnoc(ts[..i], t);
        c, i := next, i + 1;
      }
      assert ts[..i] == ts;
    }

    /** One turn of the loop: the children, the strings, and the node itself. */
    method FreeTree(c: Ptr, ghost t: Tree)
      requires WellFormed(mem) && Held(mem, t) && Proper(t) && c == t.addr
      modifies `mem
      ensures mem == Without(old(mem), Cells(t))
      decreases t, 0
    {
      var node := mem.nodes[c];
      if node.child != 0 {
        Delete(node.child, t.kids);
      } else {
        assert t.kids == [];
        assert CellsOf(t.kids) == {};
      }
      assert mem == Without(old(mem), CellsOf(t.kids));
      HeldLive(old(mem), t);
      FreeOwn(c, t);
      WithoutTwice(old(mem), CellsOf(t.kids), Own(t));
      assert CellsOf(t.kids) + Own(t) == Cells(t);
    }

    /** The strings of a node, then the node. */
    method FreeOwn(c: Ptr, ghost t: Tree)
      requires c == t.addr && c in mem.nodes && Own(t) <= Live(mem)
      requires mem.nodes[c].valuestring == t.valuestring && mem.nodes[c].name == t.name
      requires c != t.valuestring && c != t.name && (t.valuestring != 0 ==> t.valuestring != t.name)
      modifies `mem
      ensures mem == Without(old(mem), Own(t))
    {
      var node := mem.nodes[c];
      if node.valuestring != 0 {
        Free(node.valuestring);
      }
      if node.name != 0 {
        Free(node.name);
      }
      Free(c);
    }
  }

  lemma ApartFromRest(ts: seq<Tree>, i: nat)
    requires i < |ts| && ProperAll(ts)
    ensures CellsOf(ts[..i]) !! Cells(ts[i]) && Proper(ts[i])
  {
  }

  lemma RootCell(t: Tree)
    ensures t.addr in Cells(t)
  {
  }

  lemma HeldAfter(m: Mem, s: set<Ptr>, t: Tree)
    requires WellFormed(m) && Held(m, t) && Proper(t) && s !! Cells(t)
    ensures Held(Without(m, s), t) && ValueOf(Without(m, s), t) == ValueOf(m, t)
    ensures WellFormed(Without(m, s))
    ensures t.addr in m.nodes && t.addr in Without(m, s).nodes && Without(m, s).nodes[t.addr] == m.nodes[t.addr]
  {
    hide Cells, Proper, Held, ValueOf;
    RootFacts(m, t);
    assert t.addr in Cells(t) by { RootCell(t); }
    HeldFrame(m, Without(m, s), t);
  }
}
