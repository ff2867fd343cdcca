/**
 The steps of the allocator as they are written, where they depart from the intent stated
 beside them: growing an extent over a whole free neighbour, and freeing next to a free
 predecessor. For each: what breaks, on a small table, and exactly when nothing breaks.
 */
module LiteralExtents {
  import opened Basics
  import opened FileExtents
  import opened ExtentTable

  // ---- Growing the last extent ------------------------------------------------------------

  /** The grown length is written only when the neighbour is split: exactly then a partition remains. */
  lemma {:induction false} LiteralGrowthIff(a: Alloc, n: nat, o: nat, size: nat, st: Status)
    requires Inv(a, n) && o in a.table && !IsFree(a.table, o) && size > 0 && !st.Free?
    requires a.table[o].length > 0 && IsFree(a.table, End(a.table, o))
    ensures Tiled(ExtendRunLiteral(a, o, size, st).table, n) <==> a.table[End(a.table, o)].length > size
    ensures Tiled(ExtendRunLiteral(a, o, size, st).table, n) ==>
      ExtendRunLiteral(a, o, size, st) == ExtendRun(a, o, size, st)
  {
    var p := End(a.table, o);
    assert Linked(a.table, n, p);
    if a.table[p].length > size {
      ExtendRunKeeps(a, n, o, size, st);
    } else {
      var u := ExtendRunLiteral(a, o, size, st).table;
      assert End(u, o) == p && p !in u && p < n;
      assert !Linked(u, n, o);
    }
  }

  /** Block 1 of a two-block store is swallowed by the run at 0 and then belongs to no run. */
  lemma {:induction false} LiteralGrowthLosesBlocks()
    ensures var a := Alloc(map[0 := Extent(1, Committed, Node(2, 0)), 1 := Extent(1, Free, Node(1, 1))],
                           map[Node(1, 1) := 1]);
      && Inv(a, 2)
      && ExtendRunLiteral(a, 0, 1, Committed).table == map[0 := Extent(1, Committed, Node(2, 0))]
      && !Tiled(ExtendRunLiteral(a, 0, 1, Committed).table, 2)
      && ExtendRun(a, 0, 1, Committed).table == map[0 := Extent(2, Committed, Node(2, 0))]
  {
    var a := Alloc(map[0 := Extent(1, Committed, Node(2, 0)), 1 := Extent(1, Free, Node(1, 1))],
                   map[Node(1, 1) := 1]);
    assert !IsFree(a.table, 0) && IsFree(a.table, 1) && End(a.table, 0) == 1;
    LiteralGrowthIff(a, 2, 0, 1, Committed);
  }

  // ---- Freeing ----------------------------------------------------------------------------

  ghost predicate IsNextKey(t: Table, k: nat, q: nat) {
    q in t && q > k && forall x :: x in t && x > k ==> q <= x
  }

  ghost function NextKey(t: Table, k: nat): (r: Option<nat>)
    ensures r.Some? ==> IsNextKey(t, k, r.value)
    ensures r.None? ==> forall q :: !IsNextKey(t, k, q)
  {
    if exists q :: IsNextKey(t, k, q) then var q :| IsNextKey(t, k, q); Some(q) else None
  }

  /**
   mtl_free_extent as written: the "previous" extent is looked up with MDB_NEXT as well, and
   the increased heap key comes back with offset 0.
   */
  ghost function FreeRunLiteral(a: Alloc, o: nat): Alloc
    requires o in a.table
  {
    var next := NextKey(a.table, o);
    var absorb := next.Some? && IsFree(a.table, next.value);
    var b := if absorb then Alloc(a.table - {next.value}, a.heap - {a.table[next.value].pq}) else a;
    var size := a.table[o].length + if absorb then a.table[next.value].length else 0;
    var previous := NextKey(b.table, o);
    if previous.Some? && IsFree(b.table, previous.value) then
      var p := previous.value;
      var total := size + b.table[p].length;
      Alloc((b.table - {o})[p := Extent(total, Free, Node(total, 0))],
            (b.heap - {b.table[p].pq})[Node(total, 0) := 0])
    else PutFree(b, o, size)
  }

  lemma {:induction false} NextKeyIs(t: Table, k: nat, q: nat)
    requires IsNextKey(t, k, q)
    ensures NextKey(t, k) == Some(q)
  {
  }

  lemma {:induction false} NextKeySameKeys(t: Table, u: Table, k: nat)
    requires t.Keys == u.Keys
    ensures NextKey(t, k) == NextKey(u, k)
  {
    assert forall x :: x in t <==> x in u;
    if q :| IsNextKey(t, k, q) {
      assert IsNextKey(u, k, q);
      NextKeyIs(t, k, q);
      NextKeyIs(u, k, q);
    } else if q :| IsNextKey(u, k, q) {
      assert IsNextKey(t, k, q);
    }
  }

  lemma {:induction false} NextKeyIsEnd(t: Table, n: nat, o: nat)
    requires Tiled(t, n) && o in t
    ensures NextKey(t, o) == if End(t, o) < n then Some(End(t, o)) else None
  {
    assert Linked(t, n, o);
    forall x | x in t && x > o ensures End(t, o) <= x < n { assert Before(t, o, x) && Linked(t, n, x); }
    assert End(t, o) < n ==> IsNextKey(t, o, End(t, o));
  }

  /** On a coalesced table the literal step only ever merges forwards. */
  lemma {:induction false} LiteralFreeMergesForward(a: Alloc, n: nat, o: nat)
    requires Inv(a, n) && o in a.table && !IsFree(a.table, o)
    ensures var (b, size) := AbsorbNext(a, o); FreeRunLiteral(a, o) == PutFree(b, o, size)
  {
    AbsorbNextKeeps(a, n, o);
    var (b, size) := AbsorbNext(a, o);
    assert Linked(a.table, n, o) && (n in a.table ==> Linked(a.table, n, n));
    NextKeyIsEnd(a.table, n, o);
    var whole := b.table[o := Extent(size, Reserved, INVALID_NODE)];
    NextKeyIsEnd(whole, n, o);
    NextKeySameKeys(whole, b.table, o);
  }

  /** The invariants survive a literal free exactly when the predecessor is not free. */
  lemma {:induction false} LiteralFreeIff(a: Alloc, n: nat, o: nat)
    requires Inv(a, n) && o in a.table && !IsFree(a.table, o)
    ensures var prev := Previous(a.table, o);
      && (Inv(FreeRunLiteral(a, o), n) <==> !(prev.Some? && IsFree(a.table, prev.value)))
      && (Inv(FreeRunLiteral(a, o), n) ==> FreeRunLiteral(a, o) == FreeRun(a, o))
  {
    LiteralFreeMergesForward(a, n, o);
    var prev := Previous(a.table, o);
    if prev.Some? && IsFree(a.table, prev.value) {
      var p, u := prev.value, FreeRunLiteral(a, o).table;
      assert Linked(a.table, n, p) && Linked(a.table, n, o);
      assert IsFree(u, p) && IsFree(u, o) && !Apart(u, p, o);
    } else {
      FreeRunKeeps(a, n, o);
    }
  }

  const USED := Extent(1, Committed, INVALID_NODE)
  function Unused(o: nat): Extent { Extent(1, Free, Node(1, o)) }

  // Three one-block files in a three-block store, after freeing none, block 1, and block 2 too.
  const ALL_USED := Alloc(map[0 := USED, 1 := USED, 2 := USED], map[])
  const ONE_FREED := Alloc(map[0 := USED, 1 := Unused(1), 2 := USED], map[Node(1, 1) := 1])
  const TWO_FREED :=
    Alloc(map[0 := USED, 1 := Unused(1), 2 := Unused(2)], map[Node(1, 1) := 1, Node(1, 2) := 2])

  lemma {:induction false} FirstFree()
    ensures Inv(ALL_USED, 3)
    ensures Inv(ONE_FREED, 3)
    ensures FreeRunLiteral(ALL_USED, 1) == ONE_FREED
  {
    assert !IsFree(ALL_USED.table, 1) && !IsFree(ALL_USED.table, 2);
    LiteralFreeMergesForward(ALL_USED, 3, 1);
  }

  lemma {:induction false} SecondFree()
    ensures FreeRunLiteral(ONE_FREED, 2) == TWO_FREED
    ensures !Coalesced(TWO_FREED.table)
  {
    FirstFree();
    assert !IsFree(ONE_FREED.table, 2) && !IsFree(ONE_FREED.table, 3);
    LiteralFreeMergesForward(ONE_FREED, 3, 2);
    assert IsFree(TWO_FREED.table, 1) && IsFree(TWO_FREED.table, 2) && !Apart(TWO_FREED.table, 1, 2);
  }

  lemma {:induction false} ThirdFree()
    ensures FreeRunLiteral(TWO_FREED, 0).table == map[2 := Extent(3, Free, Node(3, 0))]
  {
    var t := TWO_FREED.table;
    NextKeyIs(t, 0, 1);
    assert t - {1} == map[0 := USED, 2 := Unused(2)];
    NextKeyIs(t - {1}, 0, 2);
    assert IsFree(t, 1) && IsFree(t - {1}, 2);
  }

  /**
   Freeing 1, 2, 0 in this order: the second free leaves two neighbouring free runs; the third
   takes the run at 2 for its predecessor, and what remains is one entry that claims blocks 2,
   3 and 4 of a three-block store.
   */
  lemma {:induction false} LiteralFreeBreaksTheTable()
    ensures Inv(ALL_USED, 3)
    ensures FreeRunLiteral(ALL_USED, 1) == ONE_FREED
    ensures FreeRunLiteral(ONE_FREED, 2) == TWO_FREED
    ensures !Coalesced(TWO_FREED.table)
    ensures !Tiled(FreeRunLiteral(TWO_FREED, 0).table, 3)
  {
    FirstFree();
    SecondFree();
    ThirdFree();
  }
}
