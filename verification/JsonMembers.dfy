/** Objects: the operations that pick a child by its name, up to case (cJSON.c:802-808, 865-873, 904-917, 938-950). */
module JsonMembers {
  import opened Bytes
  import opened JsonText
  import opened JsonHeap
  import opened JsonSiblings

  /** The name of a child, if it has one. */
  datatype Key = NoKey | Key(name: seq<byte>)

  predicate Matches(key: Key, name: seq<byte>) {
    key.Key? && CaseEqual(key.name, name)
  }

  function KeyOf(m: Mem, t: Tree): Key {
    if t.name == 0 then NoKey else Key(TextAt(m, t.name))
  }

  function KeysOf(m: Mem, ts: seq<Tree>): (ks: seq<Key>)
    ensures |ks| == |ts|
  {
    seq(|ts|, k requires 0 <= k < |ts| => KeyOf(m, ts[k]))
  }

  /** The index of the first key that matches, or the length. */
  function Find(keys: seq<Key>, name: seq<byte>): (k: nat)
    ensures k <= |keys|
    ensures k < |keys| ==> Matches(keys[k], name)
    ensures forall j :: 0 <= j < k ==> !Matches(keys[j], name)
  {
    if keys == [] || Matches(keys[0], name) then 0 else 1 + Find(keys[1..], name)
  }

  lemma FindIs(keys: seq<Key>, name: seq<byte>, k: nat)
    requires k <= |keys| && (k < |keys| ==> Matches(keys[k], name))
    requires forall j :: 0 <= j < k ==> !Matches(keys[j], name)
    ensures Find(keys, name) == k
  {
  }

  /** A name not case-equal to the one touched cannot match what that one matches. */
  lemma OtherName(key: Key, touched: seq<byte>, name: seq<byte>)
    requires !CaseEqual(touched, name) && Matches(key, touched)
    ensures !Matches(key, name)
  {
    if Matches(key, name) {
      CaseEqualIsEquivalence(key.name, touched, name);
      CaseEqualIsEquivalence(touched, key.name, name);
    }
  }

  /** Appending leaves every lookup that succeeded alone: the older of two equal names wins. */
  lemma FindAfterAppend(keys: seq<Key>, key: Key, name: seq<byte>)
    ensures Find(keys, name) < |keys| ==> Find(keys + [key], name) == Find(keys, name)
    ensures Find(keys, name) == |keys| ==>
              Find(keys + [key], name) == if Matches(key, name) then |keys| else |keys| + 1
  {
    var f, all := Find(keys, name), keys + [key];
    if f == |keys| && !Matches(key, name) {
      FindIs(all, name, |keys| + 1);
    } else {
      FindIs(all, name, f);
    }
  }

  /** Taking the first match of a name out moves no lookup of another name to another child. */
  lemma FindAfterRemove(keys: seq<Key>, touched: seq<byte>, name: seq<byte>)
    requires !CaseEqual(touched, name) && Find(keys, touched) < |keys|
    ensures var k, f, left := Find(keys, touched), Find(keys, name), RemoveAt(keys, Find(keys, touched));
            f != k && Find(left, name) == if f < k then f else f - 1
  {
    hide CaseEqual, Matches;
    var k, f := Find(keys, touched), Find(keys, name);
    var left := RemoveAt(keys, k);
    OtherName(keys[k], touched, name);
    var g := if f < k then f else f - 1;
    forall j | 0 <= j < g
      ensures !Matches(left[j], name)
    {
      assert left[j] == keys[if j < k then j else j + 1];
    }
    if g < |left| {
      assert left[g] == keys[f];
    }
    FindIs(left, name, g);
  }

  /** Putting a child under the same name in its place changes no lookup, not even of that name. */
  lemma FindAfterReplace(keys: seq<Key>, touched: seq<byte>, name: seq<byte>)
    requires Find(keys, touched) < |keys|
    ensures Find(keys[Find(keys, touched) := Key(touched)], name) == Find(keys, name)
  {
    var k, f := Find(keys, touched), Find(keys, name);
    var now := keys[k := Key(touched)];
    if CaseEqual(touched, name) {
      SameName(keys, touched, name);
      FindIs(now, name, k);
    } else {
      OtherName(keys[k], touched, name);
      FindIs(now, name, f);
    }
  }

  lemma SameName(keys: seq<Key>, touched: seq<byte>, name: seq<byte>)
    requires CaseEqual(touched, name)
    ensures Find(keys, name) == Find(keys, touched)
  {
    var f := Find(keys, touched);
    forall j | 0 <= j < |keys|
      ensures Matches(keys[j], touched) <==> Matches(keys[j], name)
    {
      if keys[j].Key? {
        CaseEqualIsEquivalence(keys[j].name, touched, name);
        CaseEqualIsEquivalence(touched, name, touched);
        CaseEqualIsEquivalence(keys[j].name, name, touched);
      }
    }
    FindIs(keys, name, f);
  }

  /** The names of the children are C strings. */
  ghost predicate NamesAreStrings(m: Mem, ts: seq<Tree>) {
    forall k :: 0 <= k < |ts| && ts[k].name != 0 ==> NulFree(TextAt(m, ts[k].name))
  }

  /** The child a lookup finds, null when there is none. */
  function Lookup(m: Mem, at: Tree, name: seq<byte>): Ptr {
    AddrAt(at.kids, Find(KeysOf(m, at.kids), name))
  }

  /** The child has the name, up to the case of its letters. */
  predicate Named(m: Mem, t: Tree, name: seq<byte>) {
    t.name != 0 && Recased(TextAt(m, t.name), name)
  }

  /** The first key that is the name up to the case of its letters, if there is one. */
  lemma FindMeans(keys: seq<Key>, name: seq<byte>)
    ensures var k := Find(keys, name);
            && (k < |keys| ==> keys[k].Key? && Recased(keys[k].name, name))
            && forall j :: 0 <= j < k ==> !(keys[j].Key? && Recased(keys[j].name, name))
  {
    forall j | 0 <= j < |keys| && keys[j].Key?
      ensures Matches(keys[j], name) <==> Recased(keys[j].name, name)
    {
      CaseEqualMeans(keys[j].name, name);
    }
  }

  lemma KeyOfMember(m: Mem, ts: seq<Tree>, k: nat)
    requires k < |ts|
    ensures MembersOf(m, ts)[k].name == TextAt(m, ts[k].name)
    ensures KeysOf(m, ts)[k] == if ts[k].name == 0 then NoKey else Key(MembersOf(m, ts)[k].name)
  {
  }

  lemma KeysRemoved(m: Mem, n: Mem, ts: seq<Tree>, k: nat)
    requires k < |ts| && MembersOf(n, RemoveAt(ts, k)) == RemoveAt(MembersOf(m, ts), k)
    ensures KeysOf(n, RemoveAt(ts, k)) == RemoveAt(KeysOf(m, ts), k)
    ensures NamesAreStrings(m, ts) ==> NamesAreStrings(n, RemoveAt(ts, k))
  {
    hide KeysOf, MembersOf, TextAt, NulFree;
    var now := RemoveAt(ts, k);
    forall j | 0 <= j < |now|
      ensures var i := if j < k then j else j + 1;
              now[j] == ts[i] && KeysOf(n, now)[j] == KeysOf(m, ts)[i] && TextAt(n, now[j].name) == TextAt(m, ts[i].name)
    {
      KeyOfMember(n, now, j);
      KeyOfMember(m, ts, if j < k then j else j + 1);
    }
  }

  lemma KeysAppended(m: Mem, n: Mem, ts: seq<Tree>, t: Tree, name: seq<byte>, v: Value)
    requires t.name != 0 && MembersOf(n, ts + [t]) == MembersOf(m, ts) + [Member(name, v)]
    ensures KeysOf(n, ts + [t]) == KeysOf(m, ts) + [Key(name)]
    ensures NulFree(name) && NamesAreStrings(m, ts) ==> NamesAreStrings(n, ts + [t])
  {
    hide KeysOf, MembersOf, TextAt, NulFree;
    var now := ts + [t];
    forall j | 0 <= j < |ts|
      ensures now[j] == ts[j] && KeysOf(n, now)[j] == KeysOf(m, ts)[j] && TextAt(n, now[j].name) == TextAt(m, ts[j].name)
    {
      KeyOfMember(n, now, j);
      KeyOfMember(m, ts, j);
    }
    KeyOfMember(n, now, |ts|);
  }

  lemma KeysReplaced(m: Mem, n: Mem, ts: seq<Tree>, k: nat, t: Tree, name: seq<byte>, v: Value)
    requires k < |ts| && t.name != 0 && MembersOf(n, ts[k := t]) == MembersOf(m, ts)[k := Member(name, v)]
    ensures KeysOf(n, ts[k := t]) == KeysOf(m, ts)[k := Key(name)]
    ensures NulFree(name) && NamesAreStrings(m, ts) ==> NamesAreStrings(n, ts[k := t])
  {
    hide KeysOf, MembersOf, TextAt, NulFree;
    var now := ts[k := t];
    forall j | 0 <= j < |ts| && j != k
      ensures now[j] == ts[j] && KeysOf(n, now)[j] == KeysOf(m, ts)[j] && TextAt(n, now[j].name) == TextAt(m, ts[j].name)
    {
      KeyOfMember(n, now, j);
      KeyOfMember(m, ts, j);
    }
    KeyOfMember(n, now, k);
  }

  /** After an append, lookups that found a child find the same one; of the others those of the new name find the item. */
  lemma LookupAfterAppend(m: Mem, n: Mem, at: Tree, t: Tree, name: seq<byte>)
    requires KeysOf(n, at.kids + [t]) == KeysOf(m, at.kids) + [Key(name)]
    ensures forall other :: Lookup(n, at.(kids := at.kids + [t]), other)
                         == if Find(KeysOf(m, at.kids), other) < |at.kids| then Lookup(m, at, other)
                            else if CaseEqual(name, other) then t.addr else 0
  {
    hide KeysOf, Find, CaseEqual;
    forall other
      ensures Lookup(n, at.(kids := at.kids + [t]), other)
           == if Find(KeysOf(m, at.kids), other) < |at.kids| then Lookup(m, at, other)
              else if CaseEqual(name, other) then t.addr else 0
    {
      FindAfterAppend(KeysOf(m, at.kids), Key(name), other);
    }
  }

  /** After the first match of a name is out, lookups of every other name find what they found. */
  lemma LookupAfterRemove(m: Mem, n: Mem, at: Tree, name: seq<byte>)
    requires var k := Find(KeysOf(m, at.kids), name);
             k < |at.kids| && KeysOf(n, RemoveAt(at.kids, k)) == RemoveAt(KeysOf(m, at.kids), k)
    ensures var now := at.(kids := RemoveAt(at.kids, Find(KeysOf(m, at.kids), name)));
            forall other :: !CaseEqual(name, other) ==> Lookup(n, now, other) == Lookup(m, at, other)
  {
    hide KeysOf, Find, CaseEqual;
    var now := at.(kids := RemoveAt(at.kids, Find(KeysOf(m, at.kids), name)));
    forall other | !CaseEqual(name, other)
      ensures Lookup(n, now, other) == Lookup(m, at, other)
    {
      FindAfterRemove(KeysOf(m, at.kids), name, other);
    }
  }

  /** After a replacement, lookups of the name find the item, and those of every other name what they found. */
  lemma LookupAfterReplace(m: Mem, n: Mem, at: Tree, t: Tree, name: seq<byte>)
    requires var k := Find(KeysOf(m, at.kids), name);
             k < |at.kids| && KeysOf(n, at.kids[k := t]) == KeysOf(m, at.kids)[k := Key(name)]
    ensures var now := at.(kids := at.kids[Find(KeysOf(m, at.kids), name) := t]);
            forall other :: Lookup(n, now, other) == if CaseEqual(name, other) then t.addr else Lookup(m, at, other)
  {
    hide KeysOf, Find, CaseEqual;
    var k := Find(KeysOf(m, at.kids), name);
    var now := at.(kids := at.kids[k := t]);
    forall other
      ensures Lookup(n, now, other) == if CaseEqual(name, other) then t.addr else Lookup(m, at, other)
    {
      FindAfterReplace(KeysOf(m, at.kids), name, other);
      if CaseEqual(name, other) {
        SameName(KeysOf(m, at.kids), name, other);
      } else {
        OtherName(KeysOf(m, at.kids)[k], name, other);
      }
    }
  }

  /** The walk to the first child whose name matches; `i` counts along. */
  method FindItem(h: Heap, parent: Ptr, name: seq<byte>, ghost at: Tree) returns (c: Ptr, i: nat)
    requires WellFormed(h.mem) && Held(h.mem, at) && at.addr == parent
    requires NulFree(name) && NamesAreStrings(h.mem, at.kids)
    ensures i == Find(KeysOf(h.mem, at.kids), name) && c == AddrAt(at.kids, i)
    ensures c == 0 <==> i == |at.kids|
  {
    hide Held, WellFormed, Linked, Find, KeysOf, CaseEqual, TextAt, NulFree, NamesAreStrings, KeyOf, Matches;
    Walkable(h.mem, at);
    ghost var keys := KeysOf(h.mem, at.kids);
    var hit := false;
    c, i := h.mem.nodes[parent].child, 0;
    while c != 0 && !hit
      invariant i <= |at.kids| && c == AddrAt(at.kids, i)
      invariant forall j :: 0 <= j < i ==> !Matches(keys[j], name)
      invariant hit ==> i < |at.kids| && Matches(keys[i], name)
      decreases |at.kids| - i, !hit
    {
      hit := NameMatches(h, c, name, at, i);
      if !hit {
        LinkedKid(h.mem, at, i);
        c, i := h.mem.nodes[c].next, i + 1;
      }
    }
    FindIs(keys, name, i);
  }

  /** The test of the walk: a child without a name matches nothing. */
  method NameMatches(h: Heap, c: Ptr, name: seq<byte>, ghost at: Tree, ghost k: nat) returns (hit: bool)
    requires Held(h.mem, at) && k < |at.kids| && c == at.kids[k].addr
    requires NulFree(name) && NamesAreStrings(h.mem, at.kids)
    ensures hit == Matches(KeysOf(h.mem, at.kids)[k], name)
  {
    hide Held, KeysOf, CaseEqual, TextAt, NulFree, NamesAreStrings;
    KidKey(h.mem, at, k);
    hit := false;
    if h.mem.nodes[c].name != 0 {
      var r := StrCaseCmp(TextAt(h.mem, h.mem.nodes[c].name), name);
      hit := r == 0;
    }
  }

  lemma KidKey(m: Mem, at: Tree, k: nat)
    requires Held(m, at) && k < |at.kids| && NamesAreStrings(m, at.kids)
    ensures at.kids[k].name != 0 ==> NulFree(TextAt(m, at.kids[k].name))
    ensures at.kids[k].addr in m.nodes
    ensures KeysOf(m, at.kids)[k]
         == if m.nodes[at.kids[k].addr].name == 0 then NoKey else Key(TextAt(m, m.nodes[at.kids[k].addr].name))
    ensures m.nodes[at.kids[k].addr].name == at.kids[k].name
  {
    KidHeld(m, at, k);
  }

  /** `cJSON_GetObjectItem` */
  method GetObjectItem(h: Heap, parent: Ptr, name: seq<byte>, ghost at: Tree) returns (c: Ptr)
    requires WellFormed(h.mem) && Held(h.mem, at) && at.addr == parent
    requires NulFree(name) && NamesAreStrings(h.mem, at.kids)
    ensures c == Lookup(h.mem, at, name)
    ensures c == 0 <==> forall k :: 0 <= k < |at.kids| ==> !Named(h.mem, at.kids[k], name)
    ensures c != 0 ==> exists k :: 0 <= k < |at.kids| && c == at.kids[k].addr && Named(h.mem, at.kids[k], name)
                                   && forall j :: 0 <= j < k ==> !Named(h.mem, at.kids[j], name)
  {
    hide Held, Find, NamesAreStrings, CaseEqual, Recased;
    var i;
    c, i := FindItem(h, parent, name, at);
    FindMeans(KeysOf(h.mem, at.kids), name);
    forall k | 0 <= k < |at.kids|
      ensures Named(h.mem, at.kids[k], name)
           <==> KeysOf(h.mem, at.kids)[k].Key? && Recased(KeysOf(h.mem, at.kids)[k].name, name)
    {
    }
  }

  /** `cJSON_DeleteItemFromObject` frees the first child of that name. */
  method DeleteItemFromObject(h: Heap, parent: Ptr, name: seq<byte>, ghost at: Tree)
    requires WellFormed(h.mem) && Held(h.mem, at) && Proper(at) && at.addr == parent
    requires NulFree(name) && NamesAreStrings(h.mem, at.kids)
    modifies h`mem
    ensures var k := Find(KeysOf(old(h.mem), at.kids), name);
            if k == |at.kids| then h.mem == old(h.mem)
            else
              var now := at.(kids := RemoveAt(at.kids, k));
              && WellFormed(h.mem) && Held(h.mem, now) && Proper(now)
              && Live(h.mem) == Live(old(h.mem)) - Cells(at.kids[k])
              && OnlyBelow(old(h.mem), h.mem, at, {})
              && MembersOf(h.mem, now.kids) == RemoveAt(MembersOf(old(h.mem), at.kids), k)
              && KeysOf(h.mem, now.kids) == RemoveAt(KeysOf(old(h.mem), at.kids), k) && NamesAreStrings(h.mem, now.kids)
              && forall other :: !CaseEqual(name, other) ==> Lookup(h.mem, now, other) == Lookup(old(h.mem), at, other)
  {
    hide Held, Proper, Cells, NamesAreStrings, Find, Lookup, KeysOf, CaseEqual, MembersOf, ValuesOf;
    ghost var m := h.mem;
    var c, i := FindItem(h, parent, name, at);
    if c != 0 {
      DeleteItemFromArray(h, parent, i, at);
      KeysRemoved(m, h.mem, at.kids, i);
      LookupAfterRemove(m, h.mem, at, name);
    }
  }

  /** The item under a new name: `freed` is empty, or the cell of the old one. */
  lemma NamedFacts(m: Mem, n: Mem, it: Tree, freed: set<Ptr>, p: Ptr, name: seq<byte>)
    requires WellFormed(m) && Loose(m, it, it.addr) && p != 0 && p !in Live(m) - freed && freed <= Cell(it.name)
    requires n == Mem(m.nodes[it.addr := m.nodes[it.addr].(name := p)], (m.blocks - freed)[p := name])
    ensures WellFormed(n) && Loose(n, it.(name := p), it.addr) && TextAt(n, p) == name
    ensures ValueOf(n, it.(name := p)) == ValueOf(m, it)
    ensures Live(n) == Live(m) - freed + {p}
    ensures Agree(m, n, Live(m) - {it.addr} - freed)
    ensures Cells(it.(name := p)) <= Cells(it) - Cell(it.name) + {p}
  {
    hide ValuesOf, MembersOf, Cells, CellsOf, Held, HeldAll, Linked;
    var named := it.(name := p);
    HeldLive(m, it);
    RootFacts(m, it);
    NameApart(m, it);
    KidCellsOf(it);
    KidsFrame(m, n, it);
    MakeHeld(n, named);
    NamedProper(it, freed, p);
  }

  lemma NameApart(m: Mem, it: Tree)
    requires WellFormed(m) && Held(m, it) && Proper(it)
    ensures it.addr !in Cell(it.name) && Cell(it.valuestring) !! Cell(it.name) && CellsOf(it.kids) !! Cell(it.name)
    ensures it.name != 0 ==> it.name in m.blocks
  {
  }

  lemma NamedProper(it: Tree, freed: set<Ptr>, p: Ptr)
    requires Proper(it) && p !in Cells(it) - freed && p != 0 && freed <= Cell(it.name)
    ensures Proper(it.(name := p)) && Cells(it.(name := p)) <= Cells(it) - Cell(it.name) + {p}
  {
    hide CellsOf;
  }

  /** A tree elsewhere does not notice that the item is renamed. */
  lemma OtherTreeKept(m: Mem, n: Mem, at: Tree, item: Ptr, freed: set<Ptr>, it: Tree)
    requires WellFormed(m) && Held(m, at) && Proper(at) && Agree(m, n, Live(m) - {item} - freed)
    requires Cells(at) !! Cells(it) && freed <= Cell(it.name) && item == it.addr
    ensures Held(n, at) && ValueOf(n, at) == ValueOf(m, at)
    ensures ValuesOf(n, at.kids) == ValuesOf(m, at.kids) && MembersOf(n, at.kids) == MembersOf(m, at.kids)
  {
    hide Cells, Held, Proper, ValueOf, TextAt, ValuesOf, MembersOf;
    HeldLive(m, at);
    RootFacts(m, at);
    RootCell(at);
    OwnCells(it);
    KidCellsOf(at);
    AgreePart(m, n, Live(m) - {item} - freed, Cells(at));
    HeldFrame(m, n, at);
    KidsFrame(m, n, at);
  }

  lemma OwnCells(it: Tree)
    ensures Cell(it.name) <= Cells(it) && it.addr in Cells(it)
  {
  }

  /** `item->string = cJSON_strdup(string)`, with the old name freed first or not. */
  method SetName(h: Heap, item: Ptr, name: seq<byte>, free: bool, ghost it: Tree) returns (ghost named: Tree)
    requires WellFormed(h.mem) && Loose(h.mem, it, item)
    modifies h`mem
    ensures var freed := if free then Cell(it.name) else {};
            && WellFormed(h.mem) && named == it.(name := named.name) && named.name != 0
            && named.name !in Live(old(h.mem)) - freed
            && Live(h.mem) == Live(old(h.mem)) - freed + {named.name}
            && Agree(old(h.mem), h.mem, Live(old(h.mem)) - {item} - freed)
            && Loose(h.mem, named, item) && TextAt(h.mem, named.name) == name
            && ValueOf(h.mem, named) == ValueOf(old(h.mem), it)
            && Cells(named) <= Cells(it) - Cell(it.name) + {named.name}
  {
    hide Held, Proper, Cells, ValueOf;
    ghost var m, freed := h.mem, if free then Cell(it.name) else {};
    LooseFacts(m, it, item);
    RootFacts(m, it);
    NameApart(m, it);
    if free && h.mem.nodes[item].name != 0 {
      h.Free(h.mem.nodes[item].name);
    }
    assert h.mem == Mem(m.nodes, m.blocks - freed);
    var p := h.NewString(name);
    h.mem := h.mem.(nodes := h.mem.nodes[item := h.mem.nodes[item].(name := p)]);
    named := it.(name := p);
    NamedFacts(m, h.mem, it, freed, p, name);
  }

  /** `cJSON_AddItemToObject` frees the item's old name, gives it the new one, and appends it. */
  method AddItemToObject(h: Heap, parent: Ptr, name: seq<byte>, item: Ptr, ghost at: Tree, ghost it: Tree)
    returns (ghost named: Tree)
    requires WellFormed(h.mem) && Held(h.mem, at) && Proper(at) && at.addr == parent
    requires item != 0 ==> Loose(h.mem, it, item) && Cells(at) !! Cells(it)
    modifies h`mem
    ensures item == 0 ==> h.mem == old(h.mem)
    ensures item != 0 ==>
              var now := at.(kids := at.kids + [named]);
              && WellFormed(h.mem) && Held(h.mem, now) && Proper(now)
              && named == it.(name := named.name)
              && Live(h.mem) == Live(old(h.mem)) - Cell(it.name) + {named.name}
              && OnlyBelow(old(h.mem), h.mem, at, Cells(it))
              && MembersOf(h.mem, now.kids) == MembersOf(old(h.mem), at.kids) + [Member(name, ValueOf(old(h.mem), it))]
              && KeysOf(h.mem, now.kids) == KeysOf(old(h.mem), at.kids) + [Key(name)]
              && (NulFree(name) && NamesAreStrings(old(h.mem), at.kids) ==> NamesAreStrings(h.mem, now.kids))
              && forall other :: Lookup(h.mem, now, other)
                              == if Find(KeysOf(old(h.mem), at.kids), other) < |at.kids| then Lookup(old(h.mem), at, other)
                                 else if CaseEqual(name, other) then item else 0
  {
    hide Held, Proper, Cells, Loose, HasKids, ValueOf, TextAt, ProperAll, HeldAll, Relinked, KeysOf, Find, Lookup, CaseEqual,
         NamesAreStrings, NulFree;
    named := it;
    if item == 0 {
      return;
    }
    ghost var m := h.mem;
    LooseFacts(m, it, item);
    HeldLive(m, at);
    OwnCells(it);
    named := SetName(h, item, name, true, it);
    ghost var n := h.mem;
    OtherTreeKept(m, n, at, item, Cell(it.name), it);
    AddItemToArray(h, parent, item, at, named);
    HasKidsFacts(n, h.mem, at, at.kids + [named], at.kids + [named]);
    HasKidsRelinked(n, h.mem, at, at.kids + [named], at.kids + [named]);
    CellsOfSnoc(at.kids, named);
    RelinkedBelow(n, h.mem, at, at.kids + [named], Cells(named), {});
    NoCells();
    RootFacts(m, at);
    RootCell(at);
    BelowTwice(m, n, h.mem, at, it, Cells(named), named.name);
    MembersSnoc(n, at.kids, named);
    KeysAppended(m, h.mem, at.kids, named, name, ValueOf(m, it));
    LookupAfterAppend(m, h.mem, at, named, name);
  }

  /** Renaming the item, then relinking. */
  lemma BelowTwice(m: Mem, n: Mem, n2: Mem, at: Tree, it: Tree, named: set<Ptr>, p: Ptr)
    requires Agree(m, n, Live(m) - Cells(it)) && OnlyBelow(n, n2, at, named)
    requires named <= Cells(it) + {p} && (p in Live(m) ==> p in Cells(it)) && at.addr in m.nodes && at.addr !in Cells(it)
    ensures OnlyBelow(m, n2, at, Cells(it))
  {
    hide Cells, CellsOf;
    AgreeSmaller(m, n, n2, Live(m) - {at.addr} - CellsOf(at.kids) - Cells(it), Live(n) - {at.addr} - CellsOf(at.kids) - named);
  }

  /** `cJSON_DetachItemFromObject` */
  method DetachItemFromObject(h: Heap, parent: Ptr, name: seq<byte>, ghost at: Tree) returns (c: Ptr)
    requires WellFormed(h.mem) && Held(h.mem, at) && Proper(at) && at.addr == parent
    requires NulFree(name) && NamesAreStrings(h.mem, at.kids)
    modifies h`mem
    ensures var k := Find(KeysOf(old(h.mem), at.kids), name);
            && c == AddrAt(at.kids, k) && (c == 0 <==> k == |at.kids|)
            && if c == 0 then h.mem == old(h.mem)
               else
                 var now := at.(kids := RemoveAt(at.kids, k));
                 && HasKids(old(h.mem), h.mem, at, now.kids, at.kids) && Loose(h.mem, at.kids[k], c)
                 && KeysOf(h.mem, now.kids) == RemoveAt(KeysOf(old(h.mem), at.kids), k) && NamesAreStrings(h.mem, now.kids)
                 && forall other :: !CaseEqual(name, other) ==> Lookup(h.mem, now, other) == Lookup(old(h.mem), at, other)
  {
    hide Held, Proper, Cells, NamesAreStrings, Find, HasKids, Loose, Lookup, KeysOf, CaseEqual, MembersOf, ValuesOf;
    ghost var m := h.mem;
    var i;
    c, i := FindItem(h, parent, name, at);
    if c != 0 {
      c := DetachItemFromArray(h, parent, i, at);
      DetachedMembers(m, h.mem, at, i);
      KeysRemoved(m, h.mem, at.kids, i);
      LookupAfterRemove(m, h.mem, at, name);
    }
  }

  lemma DetachedMembers(m: Mem, n: Mem, at: Tree, k: nat)
    requires k < |at.kids| && HasKids(m, n, at, RemoveAt(at.kids, k), at.kids)
    ensures MembersOf(n, RemoveAt(at.kids, k)) == RemoveAt(MembersOf(m, at.kids), k)
  {
    hide Held, Proper, Cells, HeldAll, Relinked, TextAt, ValueOf;
    PickedValues(n, at.kids, RemoveAt(at.kids, k),
                 seq(|at.kids| - 1, j requires 0 <= j < |at.kids| - 1 => if j < k then j else j + 1));
  }

  /** `cJSON_ReplaceItemInObject` names the item and puts it where the first match was. A name the item
      had before stays allocated, owned by nothing: the source does not free it. `lost` is what has been lost so. */
  method ReplaceItemInObject(h: Heap, parent: Ptr, name: seq<byte>, item: Ptr, ghost at: Tree, ghost it: Tree)
    returns (ghost named: Tree, ghost lost: set<Ptr>)
    requires WellFormed(h.mem) && Held(h.mem, at) && Proper(at) && at.addr == parent
    requires Loose(h.mem, it, item) && Cells(at) !! Cells(it)
    requires NulFree(name) && NamesAreStrings(h.mem, at.kids)
    modifies h`mem
    ensures var k := Find(KeysOf(old(h.mem), at.kids), name);
            if k == |at.kids| then h.mem == old(h.mem) && lost == {}
            else
              var now := at.(kids := at.kids[k := named]);
              && named.name !in Live(old(h.mem))
              && lost == Cell(it.name) && lost <= Live(h.mem) && lost !! Cells(now)
              && WellFormed(h.mem) && Held(h.mem, now) && Proper(now) && named == it.(name := named.name)
              && Live(h.mem) == Live(old(h.mem)) + {named.name} - Cells(at.kids[k])
              && OnlyBelow(old(h.mem), h.mem, at, Cells(it))
              && MembersOf(h.mem, now.kids)
                 == MembersOf(old(h.mem), at.kids)[k := Member(name, ValueOf(old(h.mem), it))]
              && KeysOf(h.mem, now.kids) == KeysOf(old(h.mem), at.kids)[k := Key(name)] && NamesAreStrings(h.mem, now.kids)
              && forall other :: Lookup(h.mem, now, other)
                              == if CaseEqual(name, other) then item else Lookup(old(h.mem), at, other)
  {
    hide Held, Proper, Cells, Loose, ValueOf, TextAt, NamesAreStrings, Find, KeysOf, Lookup, CaseEqual, NulFree, MembersOf, ValuesOf;
    named, lost := it, {};
    var c, i := FindItem(h, parent, name, at);
    if c != 0 {
      ghost var m := h.mem;
      LooseFacts(m, it, item);
      HeldLive(m, at);
      OwnCells(it);
      named := SetName(h, item, name, false, it);
      ghost var n := h.mem;
      OtherTreeKept(m, n, at, item, {}, it);
      RootFacts(m, at);
      RootCell(at);
      NameLost(m, n, at, i, it, named);
      ReplaceItemInArray(h, parent, i, item, at, named);
      BelowTwice(m, n, h.mem, at, it, Cells(named), named.name);
      KeysReplaced(m, h.mem, at.kids, i, named, name, ValueOf(m, it));
      LookupAfterReplace(m, h.mem, at, named, name);
      lost := Cell(it.name);
    }
  }

  /** The item's former name is live, and neither the other children nor the renamed item own it. */
  lemma NameLost(m: Mem, n: Mem, at: Tree, k: nat, it: Tree, named: Tree)
    requires WellFormed(m) && Held(m, it) && Proper(it) && Proper(at) && k < |at.kids| && Cells(at) !! Cells(it)
    requires Live(n) == Live(m) + {named.name} && named.name !in Live(m)
    requires Cells(named) <= Cells(it) - Cell(it.name) + {named.name}
    ensures Cell(it.name) <= Live(n) - Cells(at.kids[k]) && Cell(it.name) !! Cells(at.(kids := at.kids[k := named]))
  {
    hide Cells, Held, Proper, CellsOf;
    HeldLive(m, it);
    OwnCells(it);
    KidCells(at, k);
    var kids := at.kids[k := named];
    forall j | 0 <= j < |kids|
      ensures Cells(kids[j]) !! Cell(it.name)
    {
      KidCells(at, j);
    }
    OwnInCells(at);
    CellsApart(at, kids, Cell(it.name));
  }

  lemma OwnInCells(t: Tree)
    ensures Own(t) <= Cells(t)
  {
  }
}
