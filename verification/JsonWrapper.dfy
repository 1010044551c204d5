/** The array side of `CJsonObject`: a wrapper around a tree with a cache of element wrappers
    (CJsonObject.cpp:225-263, 427-456, 2104-2163, 2543-2594, 2974-3059).

A cached wrapper is modelled by the node it refers to; a wrapper made for an index
without an element refers to none and is called a placeholder.
 */
module JsonWrapper {
  import opened Bytes
  import opened JsonText
  import opened JsonHeap
  import opened JsonSiblings
  import JsonParser
  import JsonPrinter

  const INT_MAX: nat := 0x7FFF_FFFF
  const TWO_32: nat := 0x1_0000_0000

  /** An `unsigned int` passed as an `int`, and the way back. */
  function ToInt(u: nat): int
    requires u < TWO_32
  {
    if u <= INT_MAX then u else u - TWO_32
  }

  function ToUnsigned(i: int): nat
    requires -0x8000_0000 <= i <= INT_MAX
  {
    if i < 0 then i + TWO_32 else i
  }

  // ----- what the operations do to the elements and to the cache -----

  /** The nodes of the array in order, and the cached wrappers by index. */
  datatype View = View(nodes: seq<Ptr>, cache: map<nat, Ptr>)

  /** Every cached wrapper refers to the node at its index now, or is a placeholder past the end. */
  ghost predicate Coherent(v: View) {
    forall k :: k in v.cache ==> v.cache[k] == NodeAt(v.nodes, k)
  }

  function NodeAt(nodes: seq<Ptr>, k: int): Ptr {
    if 0 <= k < |nodes| then nodes[k] else 0
  }

  /** `operator[]` with an index that is not cached makes a wrapper for what the walk finds. */
  function AfterIndex(v: View, u: nat): View
    requires u < TWO_32
  {
    if u in v.cache then v else v.(cache := v.cache[u := NodeAt(v.nodes, Index(ToInt(u)))])
  }

  function Below(cache: map<nat, Ptr>, bound: nat): map<nat, Ptr> {
    map k | k in cache && k < bound :: cache[k]
  }

  function AfterAdd(v: View, p: Ptr): View {
    View(v.nodes + [p], Below(v.cache, |v.nodes|))
  }

  function AfterAddAsFirst(v: View, p: Ptr): View {
    View([p] + v.nodes, map[])
  }

  function Removed<T>(s: seq<T>, k: nat): seq<T> {
    if k < |s| then RemoveAt(s, k) else s
  }

  function AfterDelete(v: View, which: int): View
    requires -0x8000_0000 <= which <= INT_MAX
  {
    View(Removed(v.nodes, Index(which)), Below(v.cache, ToUnsigned(which)))
  }

  function AfterReplace(v: View, which: int, p: Ptr): View
    requires -0x8000_0000 <= which <= INT_MAX
  {
    if Index(which) < |v.nodes| then View(v.nodes[Index(which) := p], v.cache - {ToUnsigned(which)}) else v
  }

  /** With an index in 0..INT_MAX, and only then, `operator[]` keeps every coherent cache coherent. */
  lemma IndexKeepsCoherence(u: nat)
    requires u < TWO_32
    ensures (forall v :: Coherent(v) ==> Coherent(AfterIndex(v, u))) <==> u <= INT_MAX
  {
    if u > INT_MAX {
      var v := View([1], map[]);
      assert Coherent(v) && u in AfterIndex(v, u).cache && AfterIndex(v, u).cache[u] == 1;
      assert !Coherent(AfterIndex(v, u));
    }
  }

  /** The same for `Delete`: a negative index removes the first element but drops no cached wrapper of it. */
  lemma DeleteKeepsCoherence(which: int)
    requires -0x8000_0000 <= which <= INT_MAX
    ensures (forall v :: Coherent(v) ==> Coherent(AfterDelete(v, which))) <==> which >= 0
  {
    if which < 0 {
      var v := View([1, 2], map[0 := 1]);
      assert Coherent(v) && 0 in AfterDelete(v, which).cache && AfterDelete(v, which).cache[0] == 1;
      assert AfterDelete(v, which).nodes == [2];
      assert !Coherent(AfterDelete(v, which));
    }
  }

  /** And for `Replace`. */
  lemma ReplaceKeepsCoherence(which: int)
    requires -0x8000_0000 <= which <= INT_MAX
    ensures (forall v, p :: Coherent(v) ==> Coherent(AfterReplace(v, which, p))) <==> which >= 0
  {
    if which < 0 {
      var v := View([1], map[0 := 1]);
      assert Coherent(v) && 0 in AfterReplace(v, which, 2).cache && AfterReplace(v, which, 2).cache[0] == 1;
      assert AfterReplace(v, which, 2).nodes == [2];
      assert !Coherent(AfterReplace(v, which, 2));
    }
  }

  /** The operations on one wrapper. */
  datatype Op = AtIndex(u: nat) | Add(p: Ptr) | AddAsFirst(p: Ptr) | Delete(which: int) | Replace(which: int, p: Ptr) | Clear

  predicate InRange(op: Op) {
    match op
    case AtIndex(u) => u <= INT_MAX
    case Delete(which) => 0 <= which <= INT_MAX
    case Replace(which, _) => 0 <= which <= INT_MAX
    case _ => true
  }

  function Step(v: View, op: Op): View
    requires InRange(op)
  {
    match op
    case AtIndex(u) => AfterIndex(v, u)
    case Add(p) => AfterAdd(v, p)
    case AddAsFirst(p) => AfterAddAsFirst(v, p)
    case Delete(which) => AfterDelete(v, which)
    case Replace(which, p) => AfterReplace(v, which, p)
    case Clear => View([], map[])
  }

  function RunOps(v: View, ops: seq<Op>): View
    requires forall k :: 0 <= k < |ops| ==> InRange(ops[k])
    decreases |ops|
  {
    if ops == [] then v else RunOps(Step(v, ops[0]), ops[1..])
  }

  /** In every run of the operations with indices in 0..INT_MAX the cache stays coherent. */
  lemma {:induction false} RunsKeepCoherence(v: View, ops: seq<Op>)
    requires Coherent(v) && forall k :: 0 <= k < |ops| ==> InRange(ops[k])
    ensures Coherent(RunOps(v, ops))
    decreases |ops|
  {
    if ops != [] {
      StepKeepsCoherence(v, ops[0]);
      RunsKeepCoherence(Step(v, ops[0]), ops[1..]);
    }
  }

  lemma StepKeepsCoherence(v: View, op: Op)
    requires Coherent(v) && InRange(op)
    ensures Coherent(Step(v, op))
  {
    match op
    case AtIndex(u) => IndexKeepsCoherence(u);
    case Delete(which) => DeleteKeepsCoherence(which);
    case Replace(which, p) => ReplaceKeepsCoherence(which);
    case _ =>
  }

  /** Which cached wrappers stay: none is dropped that an operation cannot have moved, apart from placeholders, and
      those that stay refer to what they did. */
  lemma KeptWrappers(v: View, op: Op, k: nat)
    requires InRange(op) && k in v.cache
    ensures k in Step(v, op).cache <==>
              match op
              case AtIndex(_) => true
              case Add(_) => k < |v.nodes|
              case AddAsFirst(_) => false
              case Delete(which) => k < which
              case Replace(which, _) => k != which || which >= |v.nodes|
              case Clear => false
    ensures k in Step(v, op).cache ==> Step(v, op).cache[k] == v.cache[k]
  {
  }

  // ----- the wrapper -----

  function NodesOf(ts: seq<Tree>): (ns: seq<Ptr>)
    ensures |ns| == |ts|
  {
    seq(|ts|, k requires 0 <= k < |ts| => ts[k].addr)
  }

  /** What an operation on a wrapper does to memory: of the cells `before` that were in use it frees `freed`, and
      the cells now in use are the others and new ones; nothing else is allocated, freed or changed. */
  ghost predicate OnlyOwn(m: Mem, n: Mem, before: set<Ptr>, after: set<Ptr>, freed: set<Ptr>) {
    && freed <= before
    && Live(n) == Live(m) - freed + after
    && after * Live(m) == before - freed
    && Agree(m, n, Live(m) - before)
  }

  /** The cells of the child at the index, if there is one. */
  ghost function CellsAt(t: Tree, k: nat): set<Ptr> {
    if k < |t.kids| then Cells(t.kids[k]) else {}
  }

  class CJsonObject {
    const heap: Heap

    /** `m_pJsonData`, which the wrapper owns, and `m_pExternJsonDataRef`, which it does not. */
    var data: Ptr
    var extern: Ptr

    /** `m_mapJsonArrayRef` */
    var arrayRef: map<nat, Ptr>

    /** The tree under the node in use. */
    ghost var tree: Tree

    /** The node in use: the wrapper's own, or else the referenced one. */
    function Focus(): Ptr
      reads this
    {
      if data != 0 then data else extern
    }

    ghost predicate Valid()
      reads this, heap
    {
      && WellFormed(heap.mem)
      && (Focus() != 0 ==> Held(heap.mem, tree) && Proper(tree) && tree.addr == Focus())
      && (data != 0 ==> Loose(heap.mem, tree, data))
      && (data == 0 || extern == 0)
    }

    /** Every allocation in the tree in use. */
    ghost function CellsInUse(): set<Ptr>
      reads this
    {
      if Focus() != 0 then Cells(tree) else {}
    }

    /** The elements, if the node in use is an array, and the cache. */
    ghost function ViewOf(): View
      reads this, heap
    {
      View(if IsArrayNode() then NodesOf(tree.kids) else [], arrayRef)
    }

    /** The values of the elements. */
    ghost function ElementsOf(): (vs: seq<Value>)
      reads this, heap
      ensures |vs| == |tree.kids|
    {
      ValuesOf(heap.mem, tree.kids)
    }

    predicate IsArrayNode()
      reads this, heap
    {
      Focus() != 0 && Focus() in heap.mem.nodes && heap.mem.nodes[Focus()].kind == KArray
    }

    constructor (heap: Heap)
      requires WellFormed(heap.mem)
      ensures Valid() && this.heap == heap && data == 0 && ViewOf() == View([], map[])
    {
      this.heap := heap;
      data, extern, arrayRef := 0, 0, map[];
      tree := Tree(0, 0, 0, []);
    }

    /** `operator[](unsigned int)`; the result is the node the returned wrapper refers to. */
    method At(which: nat) returns (node: Ptr)
      requires Valid() && which < TWO_32
      modifies this`arrayRef
      ensures Valid() && ViewOf() == AfterIndex(old(ViewOf()), which)
      ensures which in arrayRef && node == arrayRef[which]
    {
      if which !in arrayRef {
        var found := 0;
        if data != 0 {
          if heap.mem.nodes[data].kind == KArray {
            found := GetArrayItem(heap, data, ToInt(which), tree);
          }
        } else if extern != 0 {
          if heap.mem.nodes[extern].kind == KArray {
            found := GetArrayItem(heap, extern, ToInt(which), tree);
          }
        }
        arrayRef := arrayRef[which := found];
      }
      node := arrayRef[which];
    }

    /** The loops that erase the cached wrappers from an index on. */
    method EraseFrom(bound: nat)
      modifies this`arrayRef
      ensures arrayRef == Below(old(arrayRef), bound)
    {
      var keys := arrayRef.Keys;
      while keys != {}
        invariant keys <= old(arrayRef).Keys
        invariant arrayRef == map k | k in old(arrayRef) && (k in keys || k < bound) :: old(arrayRef)[k]
        decreases |keys|
      {
        var key :| key in keys;
        keys := keys - {key};
        if key >= bound {
          arrayRef := arrayRef - {key};
        }
      }
    }

    /** The node in use, made on first use: an empty array of the wrapper's own. */
    method FocusForAdd() returns (focus: Ptr)
      requires Valid()
      modifies this`data, this`tree, heap`mem
      ensures Valid() && focus == Focus() != 0 && focus in heap.mem.nodes && ViewOf() == old(ViewOf())
      ensures old(Focus()) != 0 ==> heap.mem == old(heap.mem) && data == old(data) && tree == old(tree)
      ensures old(Focus()) == 0 ==> IsArrayNode() && tree.kids == [] && ElementsOf() == []
      ensures OnlyOwn(old(heap.mem), heap.mem, old(CellsInUse()), CellsInUse(), {})
    {
      if Focus() != 0 {
        HeldLive(heap.mem, tree);
        NothingOwn(heap.mem, Cells(tree));
      }
      if data != 0 {
        RootFacts(heap.mem, tree);
        return data;
      }
      if extern != 0 {
        RootFacts(heap.mem, tree);
        return extern;
      }
      data := heap.NewItem();
      heap.mem := heap.mem.(nodes := heap.mem.nodes[data := heap.mem.nodes[data].(kind := KArray)]);
      tree := Tree(data, 0, 0, []);
      NoCells();
      focus := data;
    }

    /** `Add(const CJsonObject&)`; `text` is what the other object prints as. */
    method Add(text: seq<byte>) returns (ok: bool)
      requires Valid() && !ParseText(text).Undefined?
      modifies this`data, this`tree, this`arrayRef, heap
      ensures Valid()
      ensures ok <==> (old(Focus()) == 0 || old(IsArrayNode())) && ParseText(text).Got?
      ensures !ok ==> ViewOf() == old(ViewOf())
      ensures ok ==> |tree.kids| == |old(ViewOf()).nodes| + 1
      ensures ok ==> ViewOf() == AfterAdd(old(ViewOf()), tree.kids[|tree.kids| - 1].addr)
      ensures ok && old(Focus()) != 0 ==> ElementsOf() == old(ElementsOf()) + [ParseText(text).value]
      ensures ok && old(Focus()) == 0 ==> ElementsOf() == [ParseText(text).value]
      ensures OnlyOwn(old(heap.mem), heap.mem, old(CellsInUse()), CellsInUse(), {})
    {
      hide Held, Proper, Cells, ValueOf, ValuesOf, Loose, HasKids, Relinked, HeldAll, ProperAll, WellFormed, Live, Without, Agree,
        ParseText, Below, NodesOf, OnlyOwn, CellsOf;
      ghost var m0, before := heap.mem, CellsInUse();
      var focus := FocusForAdd();
      if heap.mem.nodes[focus].kind != KArray {
        return false;
      }
      ghost var m, at := heap.mem, tree;
      var parsed;
      ghost var it;
      parsed, it := JsonParser.Parse(heap, text);
      if !parsed.Got? {
        return false;
      }
      ghost var n := heap.mem;
      ParsedBeside(m, n, at, it);
      MakeLoose(n, it);
      var sizeBefore := GetArraySize(heap, focus, at);
      AddItemToArray(heap, focus, parsed.value, at, it);
      AfterAdding(n, heap.mem, at, it, at.kids + [it]);
      CellsOfBoth(at.kids, [it]);
      CellsOfOne(it);
      AddedOwn(m, n, heap.mem, at, it, at.kids + [it]);
      OwnThen(m0, m, heap.mem, before, Cells(at), Cells(at.(kids := at.kids + [it])));
      tree := at.(kids := at.kids + [it]);
      KeepLoose(m, n, heap.mem, at, tree, data);
      var sizeAfter := GetArraySize(heap, focus, tree);
      if sizeAfter == sizeBefore {
        return false;
      }
      EraseFrom(sizeAfter - 1);
      NodesJoined(at.kids, [it]);
      ok := true;
    }

    /** `AddAsFirst(const CJsonObject&)` */
    method AddAsFirst(text: seq<byte>) returns (ok: bool)
      requires Valid() && !ParseText(text).Undefined?
      modifies this`data, this`tree, this`arrayRef, heap
      ensures Valid()
      ensures ok <==> (old(Focus()) == 0 || old(IsArrayNode())) && ParseText(text).Got?
      ensures !ok ==> ViewOf() == old(ViewOf())
      ensures ok ==> |tree.kids| == |old(ViewOf()).nodes| + 1
      ensures ok ==> ViewOf() == AfterAddAsFirst(old(ViewOf()), tree.kids[0].addr)
      ensures ok && old(Focus()) != 0 ==> ElementsOf() == [ParseText(text).value] + old(ElementsOf())
      ensures ok && old(Focus()) == 0 ==> ElementsOf() == [ParseText(text).value]
      ensures OnlyOwn(old(heap.mem), heap.mem, old(CellsInUse()), CellsInUse(), {})
    {
      hide Held, Proper, Cells, ValueOf, ValuesOf, Loose, HasKids, Relinked, HeldAll, ProperAll, WellFormed, Live, Without, Agree,
        ParseText, Below, NodesOf, OnlyOwn, CellsOf;
      ghost var m0, before := heap.mem, CellsInUse();
      var focus := FocusForAdd();
      if heap.mem.nodes[focus].kind != KArray {
        return false;
      }
      ghost var m, at := heap.mem, tree;
      var parsed;
      ghost var it;
      parsed, it := JsonParser.Parse(heap, text);
      if !parsed.Got? {
        return false;
      }
      ghost var n := heap.mem;
      ParsedBeside(m, n, at, it);
      MakeLoose(n, it);
      var sizeBefore := GetArraySize(heap, focus, at);
      AddItemToArrayHead(heap, focus, parsed.value, at, it);
      AfterAdding(n, heap.mem, at, it, [it] + at.kids);
      CellsOfBoth([it], at.kids);
      CellsOfOne(it);
      AddedOwn(m, n, heap.mem, at, it, [it] + at.kids);
      OwnThen(m0, m, heap.mem, before, Cells(at), Cells(at.(kids := [it] + at.kids)));
      tree := at.(kids := [it] + at.kids);
      KeepLoose(m, n, heap.mem, at, tree, data);
      var sizeAfter := GetArraySize(heap, focus, tree);
      if sizeAfter == sizeBefore {
        return false;
      }
      EraseFrom(0);
      NodesJoined([it], at.kids);
      NothingBelow(old(arrayRef));
      ok := true;
    }

    /** `Delete(int)` */
    method Delete(which: int) returns (ok: bool)
      requires Valid() && -0x8000_0000 <= which <= INT_MAX
      modifies this`tree, this`arrayRef, heap
      ensures Valid() && ok == old(IsArrayNode())
      ensures ViewOf() == if ok then AfterDelete(old(ViewOf()), which) else old(ViewOf())
      ensures ok ==> ElementsOf() == Removed(old(ElementsOf()), Index(which))
      ensures !ok ==> heap.mem == old(heap.mem)
      ensures ok ==> OnlyOwn(old(heap.mem), heap.mem, old(CellsInUse()), CellsInUse(), CellsAt(old(tree), Index(which)))
      ensures ok ==> CellsInUse() == old(CellsInUse()) - CellsAt(old(tree), Index(which))
    {
      hide Held, Proper, Cells, ValueOf, Loose, ValuesOf, MembersOf, WellFormed, OnlyOwn, Live, OnlyBelow;
      var focus := if data == 0 then extern else data;
      if focus == 0 {
        return false;
      }
      RootFacts(heap.mem, tree);
      if heap.mem.nodes[focus].kind != KArray {
        return false;
      }
      ghost var m, at := heap.mem, tree;
      assert |ValuesOf(m, at.kids)| == |at.kids|;
      DeleteItemFromArray(heap, focus, which, at);
      HeldLive(m, at);
      NothingOwn(m, Cells(at));
      if Index(which) < |at.kids| {
        DeletedOwn(m, heap.mem, at, Index(which));
        tree := at.(kids := RemoveAt(at.kids, Index(which)));
        KeepLooseBelow(m, heap.mem, at, tree, {}, data);
        RemovedNodes(at.kids, Index(which));
      }
      EraseFrom(ToUnsigned(which));
      ok := true;
    }

    /** `Replace(int, const CJsonObject&)`. Past the end it answers false; the parsed copy then stays
        allocated, owned by nothing: the source does not free it. `lost` is what has been lost so. */
    method Replace(which: int, text: seq<byte>) returns (ok: bool, ghost lost: set<Ptr>)
      requires Valid() && -0x8000_0000 <= which <= INT_MAX && !ParseText(text).Undefined?
      modifies this`tree, this`arrayRef, heap
      ensures Valid()
      ensures ok <==> old(IsArrayNode()) && ParseText(text).Got? && Index(which) < |old(ViewOf()).nodes|
      ensures !ok ==> ViewOf() == old(ViewOf())
      ensures ok ==> |tree.kids| == |old(ViewOf()).nodes|
      ensures ok ==> ViewOf() == AfterReplace(old(ViewOf()), which, tree.kids[Index(which)].addr)
      ensures ok ==> ElementsOf() == old(ElementsOf())[Index(which) := ParseText(text).value]
      ensures ok ==> OnlyOwn(old(heap.mem), heap.mem, old(CellsInUse()), CellsInUse(), CellsAt(old(tree), Index(which)))
      ensures !ok ==> Without(heap.mem, lost) == old(heap.mem) && lost !! Live(old(heap.mem))
      ensures lost <= Live(heap.mem) - CellsInUse()
      ensures lost != {} <==> old(IsArrayNode()) && ParseText(text).Got? && Index(which) >= |old(ViewOf()).nodes|
    {
      hide Held, Proper, Cells, ValueOf, Loose, ValuesOf, MembersOf, WellFormed, Live, Without, Agree, ParseText, NodesOf;
      lost := {};
      NothingLost(heap.mem);
      var focus := if data == 0 then extern else data;
      if focus == 0 {
        return false, {};
      }
      RootFacts(heap.mem, tree);
      if heap.mem.nodes[focus].kind != KArray {
        return false, {};
      }
      ghost var m, at := heap.mem, tree;
      var parsed;
      ghost var it;
      parsed, it := JsonParser.Parse(heap, text);
      if !parsed.Got? {
        return false, {};
      }
      ghost var n := heap.mem;
      ParsedBeside(m, n, at, it);
      MakeLoose(n, it);
      KeepLooseOther(m, n, at, data);
      RootCell(it);
      HeldLive(n, it);
      ok := PutAt(focus, which, parsed.value, it);
      if ok {
        ReplacedOwn(m, n, heap.mem, at, Index(which), it);
      } else {
        lost := Cells(it);
      }
    }

    /** The second half of `Replace`: the parsed item is there. */
    method PutAt(focus: Ptr, which: int, item: Ptr, ghost it: Tree) returns (ok: bool)
      requires Valid() && IsArrayNode() && focus == Focus() && -0x8000_0000 <= which <= INT_MAX
      requires Loose(heap.mem, it, item) && Cells(tree) !! Cells(it)
      modifies this`tree, this`arrayRef, heap`mem
      ensures Valid() && (ok <==> Index(which) < |old(ViewOf()).nodes|)
      ensures !ok ==> ViewOf() == old(ViewOf()) && heap.mem == old(heap.mem) && tree == old(tree)
      ensures ok ==>
                && tree == old(tree).(kids := old(tree).kids[Index(which) := it])
                && Live(heap.mem) == Live(old(heap.mem)) - Cells(old(tree).kids[Index(which)])
                && OnlyBelow(old(heap.mem), heap.mem, old(tree), Cells(it))
      ensures ok ==> |tree.kids| == |old(ViewOf()).nodes|
      ensures ok ==> ViewOf() == AfterReplace(old(ViewOf()), which, tree.kids[Index(which)].addr)
      ensures ok ==> ElementsOf() == old(ElementsOf())[Index(which) := old(ValueOf(heap.mem, it))]
    {
      hide Held, Proper, Cells, ValueOf, Loose, ValuesOf, MembersOf, WellFormed;
      ghost var n, at := heap.mem, tree;
      LooseFacts(n, it, item);
      ReplaceItemInArray(heap, focus, which, item, at, it);
      if Index(which) < |at.kids| {
        tree := at.(kids := at.kids[Index(which) := it]);
        KeepLooseBelow(n, heap.mem, at, tree, Cells(it), data);
        assert NodesOf(tree.kids) == NodesOf(at.kids)[Index(which) := it.addr];
      }
      var found := GetArrayItem(heap, focus, which, tree);
      if found == 0 {
        return false;
      }
      if ToUnsigned(which) in arrayRef {
        arrayRef := arrayRef - {ToUnsigned(which)};
      }
      ok := true;
    }

    /** `Parse` drops what the wrapper had and takes what the text says. */
    method Parse(text: seq<byte>) returns (ok: bool)
      requires Valid() && !ParseText(text).Undefined?
      modifies this, heap
      ensures Valid() && arrayRef == map[] && extern == 0
      ensures ok == ParseText(text).Got? == (data != 0)
      ensures ok ==> ValueOf(heap.mem, tree) == ParseText(text).value
      ensures var left := if old(data) == 0 then old(heap.mem) else Without(old(heap.mem), Cells(old(tree)));
              if ok then Cells(tree) !! Live(left) && Without(heap.mem, Cells(tree)) == left else heap.mem == left
    {
      Clear();
      ghost var left := heap.mem;
      var parsed;
      ghost var t;
      parsed, t := JsonParser.Parse(heap, text);
      ok := parsed.Got?;
      if ok {
        data, tree := parsed.value, t;
      }
    }

    /** `ToString` */
    method ToString() returns (text: seq<byte>)
      requires Valid() && (Focus() != 0 ==> Printable(ValueOf(heap.mem, tree)))
      modifies heap.texts
      ensures heap.texts.live == old(heap.texts.live)
      ensures text == if Focus() == 0 then [] else Render(ValueOf(heap.mem, tree), 0, false)
    {
      hide Held, Proper, Cells, ValueOf, Printable, Render, WellFormed, Loose;
      text := [];
      if data != 0 {
        var out := JsonPrinter.Print(heap, data, false, tree);
        var n := JsonPrinter.Strlen(out, Render(ValueOf(heap.mem, tree), 0, false));
        text := out[..n];
        heap.texts.Free(out);
      } else if extern != 0 {
        var out := JsonPrinter.Print(heap, extern, false, tree);
        var n := JsonPrinter.Strlen(out, Render(ValueOf(heap.mem, tree), 0, false));
        text := out[..n];
        heap.texts.Free(out);
      }
    }

    /** `operator=` and the copying constructors: the value goes through its text.
        The other wrapper may be this one, or refer to a node inside this one's tree. */
    method Assign(other: CJsonObject)
      requires Valid() && other.Valid() && other.heap == heap
      requires other.Focus() != 0 ==> Printable(ValueOf(heap.mem, other.tree))
      modifies this, heap, heap.texts
      ensures heap.texts.live == old(heap.texts.live)
      ensures Valid() && arrayRef == map[] && extern == 0
      ensures data != 0 <==> old(other.Focus()) != 0
      ensures data != 0 ==> ValueOf(heap.mem, tree) == Canon(old(ValueOf(heap.mem, other.tree)))
      ensures var left := if old(data) == 0 then old(heap.mem) else Without(old(heap.mem), Cells(old(tree)));
              if data != 0 then Cells(tree) !! Live(left) && Without(heap.mem, Cells(tree)) == left else heap.mem == left
    {
      hide Held, Proper, Cells, ValueOf, Printable, Render, WellFormed, Loose, ParseText;
      var text := other.ToString();
      if other.Focus() != 0 {
        ModesAgree(ValueOf(heap.mem, other.tree), [], false);
        assert text + [] == text;
      } else {
        NoTextNoValue();
      }
      var ok := Parse(text);
    }

    /** `Clear` frees the wrapper's own tree and forgets the rest. */
    method Clear()
      requires Valid()
      modifies this, heap
      ensures Valid() && data == 0 && extern == 0 && ViewOf() == View([], map[])
      ensures heap.mem == if old(data) == 0 then old(heap.mem) else Without(old(heap.mem), Cells(old(tree)))
    {
      extern := 0;
      if data != 0 {
        DeleteLoose(heap, data, tree);
        StillWellFormed(old(heap.mem), Cells(tree));
        data := 0;
      }
      arrayRef := map[];
    }
  }

  lemma NodesJoined(a: seq<Tree>, b: seq<Tree>)
    ensures NodesOf(a + b) == NodesOf(a) + NodesOf(b)
    ensures |a| == 1 ==> NodesOf(a) == [a[0].addr]
    ensures |b| == 1 ==> NodesOf(b) == [b[0].addr]
  {
  }

  lemma NothingBelow(cache: map<nat, Ptr>)
    ensures Below(cache, 0) == map[]
  {
  }

  /** Another wrapper on the same heap, whose cells are apart from those that an operation may change, does not
      notice the operation. */
  twostate lemma OthersStay(other: CJsonObject, cells: set<Ptr>)
    requires old(other.Valid()) && unchanged(other) && WellFormed(other.heap.mem)
    requires Agree(old(other.heap.mem), other.heap.mem, Live(old(other.heap.mem)) - cells)
    requires other.CellsInUse() !! cells
    ensures other.Valid() && other.ViewOf() == old(other.ViewOf())
    ensures other.Focus() != 0 ==> ValueOf(other.heap.mem, other.tree) == old(ValueOf(other.heap.mem, other.tree))
  {
    hide Held, Proper, Cells, ValueOf, Agree;
    if other.Focus() != 0 {
      TreeElsewhere(old(other.heap.mem), other.heap.mem, other.tree, cells);
    }
  }

  lemma TreeElsewhere(m: Mem, n: Mem, t: Tree, cells: set<Ptr>)
    requires WellFormed(m) && Held(m, t) && Proper(t) && Agree(m, n, Live(m) - cells) && Cells(t) !! cells
    ensures Held(n, t) && ValueOf(n, t) == ValueOf(m, t)
    ensures t.addr in m.nodes && t.addr in n.nodes && n.nodes[t.addr] == m.nodes[t.addr]
  {
    hide Held, Proper, Cells, ValueOf;
    HeldLive(m, t);
    RootCell(t);
    RootFacts(m, t);
    AgreePart(m, n, Live(m) - cells, Cells(t) - {t.addr});
    HeldFrame(m, n, t);
  }

  lemma NothingOwn(m: Mem, cells: set<Ptr>)
    requires cells <= Live(m)
    ensures OnlyOwn(m, m, cells, cells, {})
  {
  }

  lemma OwnThen(m: Mem, n: Mem, n2: Mem, a: set<Ptr>, b: set<Ptr>, c: set<Ptr>)
    requires OnlyOwn(m, n, a, b, {}) && OnlyOwn(n, n2, b, c, {})
    ensures OnlyOwn(m, n2, a, c, {})
  {
    hide Agree, Live;
    OwnSets(Live(m), Live(n), Live(n2), a, b, c);
    AgreeSmaller(m, n, n2, Live(m) - a, Live(n) - b);
  }

  lemma OwnSets(l: set<Ptr>, l1: set<Ptr>, l2: set<Ptr>, a: set<Ptr>, b: set<Ptr>, c: set<Ptr>)
    requires l1 == l - {} + b && b * l == a - {} && l2 == l1 - {} + c && c * l1 == b - {}
    ensures l2 == l - {} + c && c * l == a - {}
    ensures forall p :: p in l - a ==> p in l1 - b
  {
    assert forall p :: p in b ==> (p in b * l <==> p in l);
    assert forall p :: p in c * l1 <==> p in b;
    forall p | p in c * l
      ensures p in a
    {
      assert p in c * l1;
      assert p in b * l;
    }
    forall p | p in a
      ensures p in c * l
    {
      assert p in b * l;
      assert p in c * l1;
    }
  }

  /** Parsing an item beside the tree and then adding it. */
  lemma AddedOwn(m: Mem, n: Mem, n2: Mem, at: Tree, it: Tree, kids: seq<Tree>)
    requires WellFormed(m) && Held(m, at) && Proper(at) && Held(n, it)
    requires Cells(it) !! Live(m) && Without(n, Cells(it)) == m
    requires HasKids(n, n2, at, kids, at.kids + [it]) && CellsOf(kids) == CellsOf(at.kids) + Cells(it)
    ensures OnlyOwn(m, n2, Cells(at), Cells(at.(kids := kids)), {})
  {
    hide Held, Proper, Cells, CellsOf, HasKids;
    HeldLive(m, at);
    HeldLive(n, it);
    HasKidsFacts(n, n2, at, kids, at.kids + [it]);
    HasKidsRelinked(n, n2, at, kids, at.kids + [it]);
    CellsParts(at);
    CellsParts(at.(kids := kids));
    CellsOfSnoc(at.kids, it);
    RelinkedBelow(n, n2, at, at.kids + [it], Cells(it), {});
    NoCells();
    ParsedLive(m, n, Cells(it));
    AgreeSmaller(m, n, n2, Live(m) - Cells(at), Live(n) - {at.addr} - CellsOf(at.kids) - Cells(it));
  }

  lemma ParsedLive(m: Mem, n: Mem, cells: set<Ptr>)
    requires Without(n, cells) == m && cells <= Live(n)
    ensures Live(n) == Live(m) + cells && Agree(m, n, Live(m))
  {
  }

  lemma DeletedOwn(m: Mem, n: Mem, at: Tree, k: nat)
    requires Held(m, at) && Proper(at) && k < |at.kids|
    requires Live(n) == Live(m) - Cells(at.kids[k]) && OnlyBelow(m, n, at, {})
    ensures OnlyOwn(m, n, Cells(at), Cells(at.(kids := RemoveAt(at.kids, k))), Cells(at.kids[k]))
    ensures Cells(at.(kids := RemoveAt(at.kids, k))) == Cells(at) - Cells(at.kids[k])
  {
    hide Held, Proper, Cells, CellsOf;
    HeldLive(m, at);
    RestCells(at, k, at.kids[k]);
    KidCells(at, k);
    CellsParts(at);
    AgreePart(m, n, Live(m) - {at.addr} - CellsOf(at.kids) - {}, Live(m) - Cells(at));
  }

  /** Parsing an item beside the tree and then exchanging a child for it. */
  lemma ReplacedOwn(m: Mem, n: Mem, n2: Mem, at: Tree, k: nat, it: Tree)
    requires WellFormed(m) && Held(m, at) && Proper(at) && Held(n, it) && k < |at.kids|
    requires Cells(it) !! Live(m) && Without(n, Cells(it)) == m
    requires Live(n2) == Live(n) - Cells(at.kids[k]) && OnlyBelow(n, n2, at, Cells(it))
    ensures OnlyOwn(m, n2, Cells(at), Cells(at.(kids := at.kids[k := it])), Cells(at.kids[k]))
  {
    hide Held, Proper, Cells, CellsOf;
    HeldLive(m, at);
    HeldLive(n, it);
    RestCells(at, k, it);
    KidCells(at, k);
    CellsParts(at);
    ParsedLive(m, n, Cells(it));
    AgreeSmaller(m, n, n2, Live(m) - Cells(at), Live(n) - {at.addr} - CellsOf(at.kids) - Cells(it));
  }

  lemma RemovedNodes(ts: seq<Tree>, k: nat)
    requires k < |ts|
    ensures NodesOf(RemoveAt(ts, k)) == RemoveAt(NodesOf(ts), k)
  {
  }

  lemma NothingLost(m: Mem)
    ensures Without(m, {}) == m && {} !! Live(m)
  {
  }

  lemma NoTextNoValue()
    ensures ParseText([]).Failed?
  {
  }

  lemma StillWellFormed(m: Mem, s: set<Ptr>)
    requires WellFormed(m)
    ensures WellFormed(Without(m, s))
  {
  }

  lemma KeepLooseBelow(m: Mem, n: Mem, at: Tree, now: Tree, extra: set<Ptr>, data: Ptr)
    requires data != 0 ==> Loose(m, at, data)
    requires OnlyBelow(m, n, at, extra) && Held(n, now) && Proper(now) && now.addr == at.addr
    ensures data != 0 ==> Loose(n, now, data)
    ensures at.addr in n.nodes && at.addr in m.nodes && n.nodes[at.addr].kind == m.nodes[at.addr].kind
  {
  }

  lemma KeepLooseOther(m: Mem, n: Mem, at: Tree, data: Ptr)
    requires data != 0 ==> Loose(m, at, data)
    requires Held(n, at) && Proper(at) && at.addr in m.nodes && at.addr in n.nodes && n.nodes[at.addr] == m.nodes[at.addr]
    ensures data != 0 ==> Loose(n, at, data)
  {
  }

  /** The parsed copy of another object hangs beside the tree in use; nothing else has changed. */
  lemma ParsedBeside(m: Mem, n: Mem, at: Tree, t: Tree)
    requires WellFormed(m) && Held(m, at) && Proper(at) && WellFormed(n)
    requires Cells(t) !! Live(m) && Without(n, Cells(t)) == m
    ensures Held(n, at) && Cells(at) !! Cells(t) && at.addr in m.nodes && at.addr in n.nodes
    ensures n.nodes[at.addr] == m.nodes[at.addr] && ValuesOf(n, at.kids) == ValuesOf(m, at.kids)
  {
    hide Held, Proper, Cells, ValuesOf, MembersOf;
    RootFacts(m, at);
    HeldLive(m, at);
    RootCell(at);
    assert Agree(m, n, Live(m));
    AgreePart(m, n, Live(m), Cells(at) - {at.addr});
    HeldFrame(m, n, at);
    KidCellsOf(at);
    AgreePart(m, n, Live(m), CellsOf(at.kids));
    KidsFrame(m, n, at);
  }

  lemma MakeLoose(n: Mem, it: Tree)
    requires Held(n, it) && Proper(it) && it.addr in n.nodes && n.nodes[it.addr].next == 0 && n.nodes[it.addr].prev == 0
    ensures Loose(n, it, it.addr)
  {
  }

  /** What adding a child leaves: the node with its children, of the same kind. */
  lemma AfterAdding(n: Mem, n2: Mem, at: Tree, it: Tree, kids: seq<Tree>)
    requires HasKids(n, n2, at, kids, at.kids + [it])
    ensures WellFormed(n2) && Held(n2, at.(kids := kids)) && Proper(at.(kids := kids))
    ensures at.addr in n.nodes && at.addr in n2.nodes
    ensures n2.nodes[at.addr] == n.nodes[at.addr].(child := n2.nodes[at.addr].child)
    ensures ValuesOf(n2, at.kids + [it]) == ValuesOf(n, at.kids) + [ValueOf(n, it)]
    ensures ValuesOf(n2, [it] + at.kids) == [ValueOf(n, it)] + ValuesOf(n, at.kids)
  {
    hide ValueOf;
    MembersSnoc(n, at.kids, it);
    PickedValues(n2, at.kids + [it], [it] + at.kids, [|at.kids|] + seq(|at.kids|, k requires 0 <= k < |at.kids| => k));
  }

  lemma KeepLoose(m: Mem, n: Mem, n2: Mem, at: Tree, now: Tree, data: Ptr)
    requires data != 0 ==> Loose(m, at, data)
    requires at.addr in m.nodes && at.addr in n.nodes && n.nodes[at.addr] == m.nodes[at.addr]
    requires at.addr in n2.nodes && n2.nodes[at.addr] == n.nodes[at.addr].(child := n2.nodes[at.addr].child)
    requires Held(n2, now) && Proper(now) && now.addr == at.addr
    ensures data != 0 ==> Loose(n2, now, data)
  {
  }
}
