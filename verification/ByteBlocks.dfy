/** The memory of the printer: the buffers and tables that printing allocates and frees (cJSON.c:61-74, 558-784). */
module ByteBlocks {
  import opened Bytes

  /** An allocated table of pointers; what it holds is kept as a sequence. */
  class Table {
    constructor () {
    }
  }

  class Blocks {
    /** What is allocated and not yet freed. */
    ghost var live: set<object>

    constructor ()
      ensures live == {}
    {
      live := {};
    }

    /** `malloc` of bytes. */
    method New(size: nat) returns (a: array<byte>)
      modifies this
      ensures fresh(a) && a.Length == size && a !in old(live) && live == old(live) + {a}
    {
      a := new byte[size](_ => 0);
      live := live + {a};
    }

    /** `malloc` of a table. */
    method NewTable() returns (t: Table)
      modifies this
      ensures fresh(t) && t !in old(live) && live == old(live) + {t}
    {
      t := new Table();
      live := live + {t};
    }

    /** `free` may be called on what is live only. */
    method Free(a: object)
      requires a in live
      modifies this
      ensures live == old(live) - {a}
    {
      live := live - {a};
    }
  }

  ghost function BlocksOf(es: seq<array<byte>>): set<object> {
    set k | 0 <= k < |es| :: es[k] as object
  }

  /** Different blocks, none of them in the set. */
  ghost predicate Apart(base: set<object>, es: seq<array<byte>>) {
    && (forall k :: 0 <= k < |es| ==> es[k] !in base)
    && (forall j, k :: 0 <= j < k < |es| ==> es[j] != es[k])
  }

  /** Live are those of the set and, each once, the blocks of two tables. */
  ghost predicate Holds(live: set<object>, base: set<object>, names: seq<array<byte>>, entries: seq<array<byte>>) {
    && live == base + BlocksOf(names) + BlocksOf(entries)
    && Apart(base, names) && Apart(base + BlocksOf(names), entries)
  }

  lemma HoldsNone(base: set<object>)
    ensures Holds(base, base, [], [])
  {
  }

  lemma HoldsEnd(live: set<object>, base: set<object>)
    requires Holds(live, base, [], [])
    ensures live == base
  {
  }

  lemma BlocksSnoc(base: set<object>, es: seq<array<byte>>, e: array<byte>)
    requires Apart(base, es) && e !in base + BlocksOf(es)
    ensures Apart(base, es + [e]) && BlocksOf(es + [e]) == BlocksOf(es) + {e as object}
  {
    var all := es + [e];
    assert all[|es|] == e && forall k :: 0 <= k < |es| ==> all[k] == es[k];
    forall x | x in BlocksOf(es)
      ensures x in BlocksOf(all)
    {
      var k :| 0 <= k < |es| && es[k] as object == x;
      assert all[k] as object == x;
    }
  }

  lemma HoldsMoreNames(live: set<object>, base: set<object>, names: seq<array<byte>>, entries: seq<array<byte>>, a: array<byte>)
    requires Holds(live, base, names, entries) && a !in live
    ensures Holds(live + {a}, base, names + [a], entries)
  {
    BlocksSnoc(base, names, a);
    forall k | 0 <= k < |entries|
      ensures entries[k] != a
    {
      assert entries[k] as object in BlocksOf(entries);
    }
  }

  lemma HoldsMoreEntries(live: set<object>, base: set<object>, names: seq<array<byte>>, entries: seq<array<byte>>, a: array<byte>)
    requires Holds(live, base, names, entries) && a !in live
    ensures Holds(live + {a}, base, names, entries + [a])
  {
    BlocksSnoc(base + BlocksOf(names), entries, a);
  }

  /** Another block outside the tables. */
  lemma HoldsBeside(live: set<object>, base: set<object>, names: seq<array<byte>>, entries: seq<array<byte>>, a: object)
    requires Holds(live, base, names, entries) && a !in live
    ensures Holds(live + {a}, base + {a}, names, entries)
  {
    forall k | 0 <= k < |entries|
      ensures entries[k] as object != a
    {
      assert entries[k] as object in BlocksOf(entries);
    }
    forall k | 0 <= k < |names|
      ensures names[k] as object != a
    {
      assert names[k] as object in BlocksOf(names);
    }
  }

  lemma BlocksFirst(base: set<object>, es: seq<array<byte>>)
    requires Apart(base, es) && es != []
    ensures BlocksOf(es) == {es[0] as object} + BlocksOf(es[1..]) && es[0] !in base + BlocksOf(es[1..])
    ensures Apart(base, es[1..]) && BlocksOf(es) !! base
  {
    forall x | x in BlocksOf(es[1..])
      ensures x in BlocksOf(es)
    {
      var k :| 0 <= k < |es[1..]| && es[1..][k] as object == x;
      assert es[k + 1] as object == x;
    }
    forall x | x in BlocksOf(es)
      ensures x == es[0] || x in BlocksOf(es[1..])
    {
      var k :| 0 <= k < |es| && es[k] as object == x;
      if k > 0 {
        assert es[1..][k - 1] as object == x;
      }
    }
  }

  /** The first blocks of both tables are freed. */
  lemma HoldsNameLess(live: set<object>, base: set<object>, names: seq<array<byte>>, entries: seq<array<byte>>)
    requires Holds(live, base, names, entries) && names != []
    ensures names[0] in live && Holds(live - {names[0]}, base, names[1..], entries)
  {
    BlocksFirst(base, names);
    forall k | 0 <= k < |entries|
      ensures entries[k] as object != names[0]
    {
      assert entries[k] as object in BlocksOf(entries);
    }
  }

  lemma HoldsEntryLess(live: set<object>, base: set<object>, names: seq<array<byte>>, entries: seq<array<byte>>)
    requires Holds(live, base, names, entries) && entries != []
    ensures entries[0] in live && Holds(live - {entries[0]}, base, names, entries[1..])
  {
    BlocksFirst(base + BlocksOf(names), entries);
  }
}
