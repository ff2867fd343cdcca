/**
 The allocator over its two databases, which every call updates in place. Each method follows
 the steps of its original and is tied to the function of ExtentTable that says what it does.
 */
module Allocator {
  import opened Basics
  import opened FileExtents
  import opened ExtentTable

  class ExtentStore {
    var table: Table
    var heap: Heap

    ghost function Value(): Alloc reads this { Alloc(table, heap) }

    constructor (blocks: nat)
      ensures Value() == Initial(blocks)
    {
      table, heap := map[0 := Extent(blocks, Free, Node(blocks, 0))], map[Node(blocks, 0) := 0];
    }

    // ---- The heap of free extents ---------------------------------------------------------

    method HeapInsert(key: nat, value: nat) returns (node: Node)
      modifies `heap
      ensures node == Node(key, value) && heap == old(heap)[node := value]
    {
      node := Node(key, value);
      heap := heap[node := value];
    }

    method HeapDelete(node: Node) returns (found: bool)
      modifies `heap
      ensures found <==> node in old(heap)
      ensures heap == old(heap) - {node}
    {
      found := node in heap;
      heap := heap - {node};
    }

    /** The node taken is any node: nothing below depends on the key order of the database. */
    method HeapExtractMax() returns (value: Option<nat>)
      modifies `heap
      ensures value.None? <==> old(heap) == map[]
      ensures value.None? ==> heap == old(heap)
      ensures value.Some? ==> exists x :: x in old(heap) && value.value == old(heap)[x] && heap == old(heap) - {x}
    {
      if heap == map[] { return None; }
      assert exists x :: x in heap.Keys;
      var x :| x in heap;
      value := Some(heap[x]);
      var _ := HeapDelete(x);
    }

    method HeapIncreaseKey(node: Node, key: nat, value: nat) returns (updated: Node)
      modifies `heap
      ensures updated == Node(key, value) && heap == (old(heap) - {node})[updated := value]
    {
      var _ := HeapDelete(node);
      updated := HeapInsert(key, value);
    }

    // ---- Cursors --------------------------------------------------------------------------

    /** The smallest key above k (MDB_SET on k, then MDB_NEXT). */
    method CursorNext(k: nat, ghost n: nat) returns (next: Option<nat>)
      requires Tiled(table, n) && k in table
      ensures next == if End(table, k) < n then Some(End(table, k)) else None
    {
      assert Linked(table, n, k);
      var above := set o | o in table && o > k;
      next := None;
      ghost var seen: set<nat> := {};
      while above != {}
        invariant forall o :: o in table && o > k <==> o in above || o in seen
        invariant next.None? ==> seen == {}
        invariant next.Some? ==> next.value in seen && forall o :: o in seen ==> next.value <= o
        decreases above
      {
        var o :| o in above;
        above, seen := above - {o}, seen + {o};
        if next.None? || o < next.value { next := Some(o); }
      }
      if next.Some? { assert Before(table, k, next.value) && Linked(table, n, next.value); }
      assert End(table, k) < n ==> End(table, k) in seen;
    }

    /** The largest key below k, if there is one (MDB_SET on k, then MDB_PREV). */
    method CursorPrevious(k: nat) returns (prev: Option<nat>)
      ensures prev.None? ==> forall o :: o in table ==> o >= k
      ensures prev.Some? ==>
        prev.value in table && prev.value < k && forall o :: o in table && o < k ==> o <= prev.value
    {
      var below := set o | o in table && o < k;
      prev := None;
      ghost var seen: set<nat> := {};
      while below != {}
        invariant forall o :: o in table && o < k <==> o in below || o in seen
        invariant prev.None? ==> seen == {}
        invariant prev.Some? ==> prev.value in seen && forall o :: o in seen ==> o <= prev.value
        decreases below
      {
        var o :| o in below;
        below, seen := below - {o}, seen + {o};
        if prev.None? || o > prev.value { prev := Some(o); }
      }
    }

    // ---- Operations -----------------------------------------------------------------------

    method Reserve(size: nat, last: Option<FileExtent>, commit: bool, ghost n: nat) returns (offset: nat, r: nat)
      requires Inv(Value(), n) && size > 0 && LastOk(Value(), last)
      modifies this
      ensures Reserves(old(Value()), size, last, if commit then Committed else Reserved, Value(), offset, r)
    {
      var original, appended := 0, 0;
      var found := false;
      offset := 0;

      // grow the caller's last run if the one behind it is free
      if last.Some? {
        var next := last.value.offset + last.value.length;
        if next in table && table[next].status.Free? {
          var nextExtent := table[next];
          var _ := HeapDelete(nextExtent.pq);
          table := table - {next};
          found, offset := true, last.value.offset;
          original, appended := table[offset].length, nextExtent.length;
        }
      }

      if !found {
        var top := HeapExtractMax();
        if top.None? { return 0, 0; }
        offset := top.value;
        HeapGivesFreeRun(old(Value()), n, heap, offset);
      }

      var updated := table[offset];
      var length := updated.length + appended;
      var needed := original + size;
      if length > needed {
        var rest := length - needed;
        var node := HeapInsert(rest, offset + needed);
        table := table[offset + needed := Extent(rest, Free, node)];
        length := needed;
      }
      updated := updated.(length := length, status := if commit then Committed else Reserved);
      table := table[offset := updated];
      r := length - original;
      if !found {
        assert Node(old(table)[offset].length, offset) in old(heap);
      }
    }

    method Release(offset: nat, ghost n: nat)
      requires Inv(Value(), n) && offset in Held(table)
      modifies this
      ensures Value() == FreeRun(old(Value()), offset)
    {
      var at, size := offset, table[offset].length;
      var node := INVALID_NODE;
      assert Linked(table, n, offset) && (n in table ==> Linked(table, n, n));

      // swallow a free run behind this one
      var next := CursorNext(offset, n);
      if next.Some? && table[next.value].status.Free? {
        size := size + table[next.value].length;
        var _ := HeapDelete(table[next.value].pq);
        table := table - {next.value};
      }

      // become part of a free run in front of it
      var prev := CursorPrevious(offset);
      assert forall o :: o < offset ==> (o in old(table) <==> o in table);
      LargestBelowPrecedes(old(table), n, offset, prev);
      if prev.Some? && table[prev.value].status.Free? {
        at := prev.value;
        size := size + table[at].length;
        node := table[at].pq;
        assert Indexed(old(Value()), at) && Linked(old(table), n, at);
        table := table - {offset};
      }

      if node != INVALID_NODE {
        node := HeapIncreaseKey(node, size, at);
      } else {
        node := HeapInsert(size, at);
      }
      table := table[at := Extent(size, Free, node)];
    }

    method Truncate(offset: nat, len: nat, ghost n: nat)
      requires Inv(Value(), n) && offset in Held(table) && len <= Held(table)[offset]
      modifies this
      ensures Value() == TruncateRun(old(Value()), offset, len)
    {
      if len == 0 {
        Release(offset, n);
        return;
      }
      var extent := table[offset];
      table := table[offset := extent.(status := Committed, length := len)];
      if extent.length > len {
        // the tail becomes a run of its own, in use until it is released
        table := table[offset + len := Extent(extent.length - len, Reserved, INVALID_NODE)];
        CutKeeps(old(Value()), n, offset, len, table);
        Release(offset + len, n);
      }
    }
  }

  lemma {:induction false} LargestBelowPrecedes(t: Table, n: nat, k: nat, p: Option<nat>)
    requires Tiled(t, n) && k in t
    requires p.None? ==> forall o :: o in t ==> o >= k
    requires p.Some? ==> p.value in t && p.value < k && forall o :: o in t && o < k ==> o <= p.value
    ensures Previous(t, k) == p
  {
    if p.Some? {
      var q := p.value;
      var e := End(t, q);
      assert Linked(t, n, q) && Before(t, q, k) && Linked(t, n, k);
      assert e in t && e < k ==> e <= q;
      assert Precedes(t, q, k);
      PreviousIsUnique(t, n, q, Previous(t, k).value, k);
    } else {
      assert forall q :: Precedes(t, q, k) ==> Linked(t, n, q);
    }
  }

  lemma {:induction false} HeapGivesFreeRun(a: Alloc, n: nat, heap: Heap, offset: nat)
    requires Inv(a, n)
    requires exists x :: x in a.heap && offset == a.heap[x] && heap == a.heap - {x}
    ensures IsFree(a.table, offset)
    ensures heap == a.heap - {Node(a.table[offset].length, offset)}
    ensures Node(a.table[offset].length, offset) in a.heap
  {
    var x :| x in a.heap && offset == a.heap[x] && heap == a.heap - {x};
    assert Backed(a, x);
  }
}
