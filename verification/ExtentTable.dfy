/**
 The extent table and the heap of free extents as values: one function per operation of the
 allocator, the invariants every operation keeps, and what each does to the held blocks.
 The two LMDB databases are maps with numeric key order.
 */
module ExtentTable {
  import opened Basics
  import opened FileExtents

  datatype Status = Free | Reserved | Committed
  /** A heap key: the length of a free extent and its offset. */
  datatype Node = Node(k: nat, v: nat)
  datatype Extent = Extent(length: nat, status: Status, pq: Node)
  type Table = map<nat, Extent>
  type Heap = map<Node, nat>
  datatype Alloc = Alloc(table: Table, heap: Heap)

  const INVALID_NODE := Node(0, 0)

  predicate IsFree(t: Table, o: nat) { o in t && t[o].status.Free? }
  function End(t: Table, o: nat): nat requires o in t { o + t[o].length }

  // ---- Invariants -------------------------------------------------------------------------

  /** The run at o is not empty and ends where the next one starts, or at n. */
  ghost predicate Linked(t: Table, n: nat, o: nat) {
    && o in t
    && t[o].length > 0
    && (End(t, o) == n || (End(t, o) < n && End(t, o) in t))
  }

  ghost predicate Before(t: Table, o: nat, p: nat) {
    o in t && End(t, o) <= p
  }

  /** The runs cut [0, n) into non-empty pieces without gap or overlap. */
  ghost predicate Tiled(t: Table, n: nat) {
    && 0 in t
    && (forall o {:trigger Linked(t, n, o)} :: o in t ==> Linked(t, n, o))
    && (forall o, p {:trigger Before(t, o, p)} ::
         o in t && p in t && o < p ==> Before(t, o, p))
  }

  ghost predicate Apart(t: Table, o: nat, p: nat) {
    o in t && End(t, o) != p
  }

  /** No free run is followed by another free run. */
  ghost predicate Coalesced(t: Table) {
    forall o, p {:trigger Apart(t, o, p)} ::
      IsFree(t, o) && IsFree(t, p) ==> Apart(t, o, p)
  }

  ghost predicate Indexed(a: Alloc, o: nat) {
    && o in a.table
    && a.table[o].pq == Node(a.table[o].length, o)
    && a.table[o].pq in a.heap
  }

  ghost predicate Backed(a: Alloc, x: Node) {
    && x in a.heap
    && a.heap[x] == x.v
    && IsFree(a.table, x.v)
    && a.table[x.v].length == x.k
  }

  /** One node (length, offset) per free run, recorded in the run, and no other node. */
  ghost predicate HeapMatches(a: Alloc) {
    && (forall o {:trigger Indexed(a, o)} ::
         IsFree(a.table, o) ==> Indexed(a, o))
    && (forall x {:trigger Backed(a, x)} :: x in a.heap ==> Backed(a, x))
  }

  ghost predicate Inv(a: Alloc, n: nat) {
    && Tiled(a.table, n)
    && Coalesced(a.table)
    && HeapMatches(a)
  }

  /** The runs in use: offset to length. */
  function Held(t: Table): map<nat, nat> {
    map o | o in t && !t[o].status.Free? :: t[o].length
  }

  predicate Covers(held: map<nat, nat>, o: nat, b: nat) { o in held && o <= b < o + held[o] }

  ghost predicate InUse(held: map<nat, nat>, b: nat) { exists o :: Covers(held, o, b) }

  /** Every block of [0, n) that no run in use covers. */
  ghost function FreeBlocks(held: map<nat, nat>, n: nat): set<nat> {
    set b: nat | b < n && !InUse(held, b)
  }

  // ---- Operations -------------------------------------------------------------------------

  /** mtl_initialize_extents on an empty table. */
  function Initial(n: nat): Alloc {
    Alloc(map[0 := Extent(n, Free, Node(n, 0))], map[Node(n, 0) := 0])
  }

  /** Shorten or keep a run of length `have` at o to `want`; the rest becomes a free run. */
  function Carve(a: Alloc, o: nat, have: nat, want: nat, e: Extent): Alloc {
    if have > want then
      var rest, at := have - want, o + want;
      Alloc(a.table[at := Extent(rest, Free, Node(rest, at))][o := e.(length := want)],
            a.heap[Node(rest, at) := at])
    else
      Alloc(a.table[o := e.(length := have)], a.heap)
  }

  /** Reserve from the free run at o, which the heap gave up. */
  function ReserveAt(a: Alloc, o: nat, size: nat, st: Status): Alloc
    requires o in a.table
  {
    var e := a.table[o];
    Carve(Alloc(a.table, a.heap - {Node(e.length, o)}), o, e.length, size, e.(status := st))
  }

  /** Grow the run at o into the free run that follows it. */
  function ExtendRun(a: Alloc, o: nat, size: nat, st: Status): Alloc
    requires o in a.table && End(a.table, o) in a.table && a.table[o].length > 0
  {
    var p := End(a.table, o);
    var e := a.table[o];
    Carve(Alloc(a.table - {p}, a.heap - {a.table[p].pq}),
          o, e.length + a.table[p].length, e.length + size, e.(status := st))
  }

  /** As ExtendRun, but a completely swallowed neighbour leaves the old length in place. */
  function ExtendRunLiteral(a: Alloc, o: nat, size: nat, st: Status): Alloc
    requires o in a.table && End(a.table, o) in a.table && a.table[o].length > 0
  {
    var p := End(a.table, o);
    var e := a.table[o];
    if a.table[p].length > size then ExtendRun(a, o, size, st)
    else Alloc((a.table - {p})[o := e.(status := st)], a.heap - {a.table[p].pq})
  }

  /** The run that ends where o begins. */
  ghost predicate Precedes(t: Table, p: nat, o: nat) { p in t && End(t, p) == o }

  ghost function Previous(t: Table, o: nat): (r: Option<nat>)
    ensures r.Some? ==> Precedes(t, r.value, o)
    ensures r.None? ==> forall p :: !Precedes(t, p, o)
  {
    if exists p :: Precedes(t, p, o) then var p :| Precedes(t, p, o); Some(p) else None
  }

  /** Take the free run after o, if there is one, out of the table and the heap. */
  function AbsorbNext(a: Alloc, o: nat): (Alloc, nat)
    requires o in a.table
  {
    var hi := End(a.table, o);
    if IsFree(a.table, hi)
    then (Alloc(a.table - {hi}, a.heap - {a.table[hi].pq}), a.table[o].length + a.table[hi].length)
    else (a, a.table[o].length)
  }

  function PutFree(a: Alloc, o: nat, size: nat): Alloc {
    Alloc(a.table[o := Extent(size, Free, Node(size, o))], a.heap[Node(size, o) := o])
  }

  ghost function FreeRun(a: Alloc, o: nat): Alloc
    requires o in a.table
  {
    var (b, size) := AbsorbNext(a, o);
    var prev := Previous(a.table, o);
    if prev.Some? && IsFree(a.table, prev.value) then
      var p := prev.value;
      PutFree(Alloc(b.table - {o}, b.heap - {a.table[p].pq}), p, size + a.table[p].length)
    else
      PutFree(b, o, size)
  }

  ghost function TruncateRun(a: Alloc, o: nat, len: nat): Alloc
    requires o in a.table
  {
    if len == 0 then FreeRun(a, o)
    else
      var e := a.table[o];
      var kept := a.table[o := e.(status := Committed, length := len)];
      if e.length > len then
        FreeRun(Alloc(kept[o + len := Extent(e.length - len, Reserved, INVALID_NODE)], a.heap), o + len)
      else Alloc(kept, a.heap)
  }

  // ---- Operations keep the invariants -----------------------------------------------------

  lemma {:induction false} InitialInv(n: nat)
    requires n > 0
    ensures Inv(Initial(n), n)
    ensures Held(Initial(n).table) == map[]
  {
  }

  // Cutting, joining and moving a boundary keep a tiling, whatever the runs' status.

  lemma {:induction false} TiledRelabel(t: Table, n: nat, o: nat, e: Extent)
    requires Tiled(t, n) && o in t && e.length == t[o].length
    ensures Tiled(t[o := e], n)
  {
    var u := t[o := e];
    forall p | p in u ensures Linked(u, n, p) { assert Linked(t, n, p); }
    forall p, q | p in u && q in u && p < q ensures Before(u, p, q) { assert Before(t, p, q); }
  }

  lemma {:induction false} TiledSplit(t: Table, n: nat, o: nat, e: Extent, f: Extent)
    requires Tiled(t, n) && o in t && e.length > 0 && f.length > 0 && e.length + f.length == t[o].length
    ensures o + e.length !in t
    ensures Tiled(t[o + e.length := f][o := e], n)
  {
    var m := o + e.length;
    var u := t[m := f][o := e];
    assert m in t ==> Before(t, o, m);
    assert Linked(t, n, o);
    forall p | p in u ensures Linked(u, n, p) { assert p != m ==> Linked(t, n, p); }
    forall p, q | p in u && q in u && p < q
      ensures Before(u, p, q)
    {
      if p == m {
        assert Before(t, o, q);
      } else if q == m {
        assert p < o ==> Before(t, p, o);
        assert o < p ==> Before(t, o, p);
      } else {
        assert Before(t, p, q);
      }
    }
  }

  lemma {:induction false} TiledMerge(t: Table, n: nat, o: nat, e: Extent)
    requires Tiled(t, n) && o in t && End(t, o) in t
    requires e.length == t[o].length + t[End(t, o)].length
    ensures Tiled((t - {End(t, o)})[o := e], n)
  {
    var m := End(t, o);
    var u := (t - {m})[o := e];
    assert Linked(t, n, o) && Linked(t, n, m);
    forall p | p in u
      ensures Linked(u, n, p)
    {
      assert Linked(t, n, p);
      assert p < o ==> Before(t, p, o);
      assert o < p ==> Before(t, o, p);
    }
    forall p, q | p in u && q in u && p < q
      ensures Before(u, p, q)
    {
      assert q in t && q != m && Before(t, p, q);
      if p == o { assert m < q && Before(t, m, q); }
    }
  }

  // The heap follows the free runs.

  lemma {:induction false} HeapDrop(a: Alloc, o: nat)
    requires HeapMatches(a) && IsFree(a.table, o)
    ensures HeapMatches(Alloc(a.table - {o}, a.heap - {a.table[o].pq}))
    ensures a.table[o].pq == Node(a.table[o].length, o)
  {
    var b := Alloc(a.table - {o}, a.heap - {a.table[o].pq});
    assert Indexed(a, o);
    forall p | IsFree(b.table, p) ensures Indexed(b, p) { assert Indexed(a, p); }
    forall x | x in b.heap ensures Backed(b, x) { assert Backed(a, x); }
  }

  lemma {:induction false} HeapPut(a: Alloc, o: nat, size: nat)
    requires HeapMatches(a) && !IsFree(a.table, o)
    ensures HeapMatches(PutFree(a, o, size))
  {
    var b := PutFree(a, o, size);
    forall p | IsFree(b.table, p) ensures Indexed(b, p) { assert p != o ==> Indexed(a, p); }
    forall x | x in b.heap ensures Backed(b, x) { assert x != Node(size, o) ==> Backed(a, x); }
  }

  /** Changing or removing runs that are in use does not concern the heap. */
  lemma {:induction false} HeapSame(a: Alloc, t: Table)
    requires HeapMatches(a)
    requires forall o {:trigger IsFree(t, o)} ::
      IsFree(t, o) == IsFree(a.table, o) && (IsFree(t, o) ==> t[o] == a.table[o])
    ensures HeapMatches(Alloc(t, a.heap))
  {
    var b := Alloc(t, a.heap);
    forall p | IsFree(b.table, p) ensures Indexed(b, p) { assert Indexed(a, p); }
    forall x | x in b.heap ensures Backed(b, x) { assert Backed(a, x); assert IsFree(t, x.v); }
  }

  // Carving a run out of free space.

  /** The rest of a free run keeps its distance from the other free runs. */
  lemma {:induction false} CoalescedCut(t: Table, n: nat, o: nat, u: Table, m: nat)
    requires Tiled(t, n) && Coalesced(t) && IsFree(t, o) && o < m < End(t, o)
    requires m in u && End(u, m) == End(t, o) && !IsFree(u, o)
    requires forall p {:trigger IsFree(u, p)} :: p != m && IsFree(u, p) ==> IsFree(t, p) && u[p] == t[p]
    ensures Coalesced(u)
  {
    forall p: nat, q: nat | IsFree(u, p) && IsFree(u, q)
      ensures Apart(u, p, q)
    {
      if p == m {
        assert q != m ==> Apart(t, o, q);
      } else if q == m {
        assert p < o ==> Before(t, p, o);
        assert o < p ==> Before(t, o, p);
      } else {
        assert Apart(t, p, q);
      }
    }
  }

  lemma {:induction false} CoalescedFewer(t: Table, u: Table)
    requires Coalesced(t)
    requires forall p {:trigger IsFree(u, p)} :: IsFree(u, p) ==> IsFree(t, p) && u[p] == t[p]
    ensures Coalesced(u)
  {
    forall p, q | IsFree(u, p) && IsFree(u, q) ensures Apart(u, p, q) { assert Apart(t, p, q); }
  }

  lemma {:induction false} ReserveAtKeeps(a: Alloc, n: nat, o: nat, size: nat, st: Status)
    requires Inv(a, n) && IsFree(a.table, o) && size > 0 && !st.Free?
    ensures var r := if a.table[o].length > size then size else a.table[o].length;
      Inv(ReserveAt(a, o, size, st), n) && Held(ReserveAt(a, o, size, st).table) == Held(a.table)[o := r]
  {
    var t: Table, e := a.table, a.table[o].(status := st);
    HeapDrop(a, o);
    var without := Alloc(t - {o}, a.heap - {t[o].pq});
    var u := ReserveAt(a, o, size, st).table;
    if e.length > size {
      var rest := Extent(e.length - size, Free, Node(e.length - size, o + size));
      TiledSplit(t, n, o, e.(length := size), rest);
      CoalescedCut(t, n, o, u, o + size);
      HeapPut(without, o + size, rest.length);
      HeapSame(PutFree(without, o + size, rest.length), u);
    } else {
      TiledRelabel(t, n, o, e);
      CoalescedFewer(t, u);
      HeapSame(without, u);
    }
  }

  lemma {:induction false} ExtendRunKeeps(a: Alloc, n: nat, o: nat, size: nat, st: Status)
    requires Inv(a, n) && o in a.table && !IsFree(a.table, o) && size > 0 && !st.Free?
    requires IsFree(a.table, End(a.table, o)) && a.table[o].length > 0
    ensures var l := a.table[End(a.table, o)].length;
      var r := if l > size then size else l;
      && Inv(ExtendRun(a, o, size, st), n)
      && Held(ExtendRun(a, o, size, st).table) == Held(a.table)[o := a.table[o].length + r]
  {
    var t := a.table;
    var p := End(t, o);
    var l, e := t[p].length, t[o].(status := st);
    HeapDrop(a, p);
    var without := Alloc(t - {p}, a.heap - {t[p].pq});
    var u := ExtendRun(a, o, size, st).table;
    if l > size {
      var used := Extent(size, st, INVALID_NODE);
      var rest := Extent(l - size, Free, Node(l - size, p + size));
      var cut := t[p + size := rest][p := used];
      TiledSplit(t, n, p, used, rest);
      TiledMerge(cut, n, o, e.(length := e.length + size));
      assert u == (cut - {p})[o := e.(length := e.length + size)];
      CoalescedCut(t, n, p, u, p + size);
      HeapPut(without, p + size, rest.length);
      HeapSame(PutFree(without, p + size, rest.length), u);
    } else {
      TiledMerge(t, n, o, e.(length := e.length + l));
      CoalescedFewer(t, u);
      HeapSame(without, u);
    }
  }

  // Freeing.

  lemma {:induction false} PreviousIsUnique(t: Table, n: nat, p: nat, q: nat, o: nat)
    requires Tiled(t, n) && Precedes(t, p, o) && Precedes(t, q, o)
    ensures p == q
  {
    assert Linked(t, n, p) && Linked(t, n, q);
    assert p < q ==> Before(t, p, q);
    assert q < p ==> Before(t, q, p);
  }

  lemma {:induction false} AbsorbNextKeeps(a: Alloc, n: nat, o: nat)
    requires Inv(a, n) && o in a.table && !IsFree(a.table, o)
    ensures var (b, size) := AbsorbNext(a, o);
      && HeapMatches(b) && Coalesced(b.table) && Tiled(b.table[o := Extent(size, Reserved, INVALID_NODE)], n)
      && o in b.table && b.table[o] == a.table[o] && !IsFree(b.table, o + size)
      && Held(b.table) == Held(a.table)
  {
    var t := a.table;
    var hi := End(t, o);
    var (b, size) := AbsorbNext(a, o);
    var e := Extent(size, Reserved, INVALID_NODE);
    CoalescedFewer(t, b.table);
    assert Linked(t, n, o);
    if IsFree(t, hi) {
      TiledMerge(t, n, o, e);
      HeapDrop(a, hi);
      assert IsFree(t, o + size) ==> Apart(t, hi, o + size);
    } else {
      TiledRelabel(t, n, o, e);
    }
  }

  /** A freed run between neighbours that are in use (or at an edge) leaves no free pair. */
  lemma {:induction false} CoalescedAdd(t: Table, n: nat, o: nat, e: Extent)
    requires Tiled(t, n) && o in t && e.status.Free? && e.length == t[o].length
    requires Coalesced(t - {o})
    requires !IsFree(t, End(t, o))
    requires forall p :: Precedes(t, p, o) ==> !IsFree(t, p)
    ensures Coalesced(t[o := e])
  {
    var u := t[o := e];
    assert Linked(t, n, o);
    forall p, q | IsFree(u, p) && IsFree(u, q)
      ensures Apart(u, p, q)
    {
      if p != o && q != o {
        assert IsFree(t - {o}, p) && IsFree(t - {o}, q);
        assert Apart(t - {o}, p, q);
      } else if p != o {
        assert Precedes(t, p, o) ==> !IsFree(t, p);
      }
    }
  }

  lemma {:induction false} FreeAlone(a: Alloc, n: nat, o: nat)
    requires Inv(a, n) && o in a.table && !IsFree(a.table, o)
    requires Previous(a.table, o).None? || !IsFree(a.table, Previous(a.table, o).value)
    ensures Inv(FreeRun(a, o), n)
    ensures Held(FreeRun(a, o).table) == Held(a.table) - {o}
  {
    AbsorbNextKeeps(a, n, o);
    var (b, size) := AbsorbNext(a, o);
    var whole := b.table[o := Extent(size, Reserved, INVALID_NODE)];
    var e := Extent(size, Free, Node(size, o));
    TiledRelabel(whole, n, o, e);
    HeapPut(b, o, size);
    assert whole[o := e] == b.table[o := e];
    CoalescedFewer(b.table, whole - {o});
    forall p | Precedes(whole, p, o)
      ensures !IsFree(whole, p)
    {
      assert Linked(whole, n, p);
      assert Precedes(a.table, p, o);
      PreviousIsUnique(a.table, n, p, Previous(a.table, o).value, o);
    }
    CoalescedAdd(whole, n, o, e);
  }

  lemma {:induction false} FreeIntoPrevious(a: Alloc, n: nat, o: nat)
    requires Inv(a, n) && o in a.table && !IsFree(a.table, o)
    requires Previous(a.table, o).Some? && IsFree(a.table, Previous(a.table, o).value)
    ensures Inv(FreeRun(a, o), n)
    ensures Held(FreeRun(a, o).table) == Held(a.table) - {o}
  {
    AbsorbNextKeeps(a, n, o);
    var (b, size) := AbsorbNext(a, o);
    var whole := b.table[o := Extent(size, Reserved, INVALID_NODE)];
    var p := Previous(a.table, o).value;
    var total := size + a.table[p].length;
    var e := Extent(total, Free, Node(total, p));
    assert Linked(a.table, n, o) && Linked(a.table, n, p);
    var joined := (whole - {o})[p := e];
    TiledMerge(whole, n, p, e);
    assert joined == (b.table - {o})[p := e];

    HeapSame(b, b.table - {o});
    HeapDrop(Alloc(b.table - {o}, b.heap), p);
    HeapPut(Alloc(b.table - {o} - {p}, b.heap - {a.table[p].pq}), p, total);
    assert (b.table - {o} - {p})[p := e] == joined;

    var parted := (whole - {o})[p := e.(status := Reserved)];
    TiledRelabel(joined, n, p, e.(status := Reserved));
    assert joined[p := e.(status := Reserved)] == parted && parted[p := e] == joined;
    CoalescedFewer(b.table, parted - {p});
    forall q | Precedes(parted, q, p)
      ensures !IsFree(parted, q)
    {
      assert Linked(parted, n, q);
      assert IsFree(a.table, q) ==> Apart(a.table, q, p);
    }
    CoalescedAdd(parted, n, p, e);
  }

  lemma {:induction false} FreeRunKeeps(a: Alloc, n: nat, o: nat)
    requires Inv(a, n) && o in a.table && !IsFree(a.table, o)
    ensures Inv(FreeRun(a, o), n)
    ensures Held(FreeRun(a, o).table) == Held(a.table) - {o}
  {
    var prev := Previous(a.table, o);
    if prev.Some? && IsFree(a.table, prev.value) {
      FreeIntoPrevious(a, n, o);
    } else {
      FreeAlone(a, n, o);
    }
  }

  /** Cutting a run in use in two keeps everything; both parts are in use. */
  lemma {:induction false} CutKeeps(a: Alloc, n: nat, o: nat, len: nat, cut: Table)
    requires Inv(a, n) && o in a.table && !IsFree(a.table, o) && 0 < len < a.table[o].length
    requires cut == a.table[o := a.table[o].(status := Committed, length := len)]
                           [o + len := Extent(a.table[o].length - len, Reserved, INVALID_NODE)]
    ensures Inv(Alloc(cut, a.heap), n)
    ensures o + len !in a.table
    ensures Held(cut) == Held(a.table)[o := len][o + len := a.table[o].length - len]
  {
    var e := a.table[o];
    var kept, rest := e.(status := Committed, length := len), Extent(e.length - len, Reserved, INVALID_NODE);
    TiledSplit(a.table, n, o, kept, rest);
    assert cut == a.table[o + len := rest][o := kept];
    CoalescedFewer(a.table, cut);
    HeapSame(a, cut);
  }

  lemma {:induction false} TruncateRunKeeps(a: Alloc, n: nat, o: nat, len: nat)
    requires Inv(a, n) && o in a.table && !IsFree(a.table, o) && len <= a.table[o].length
    ensures Inv(TruncateRun(a, o, len), n)
    ensures Held(TruncateRun(a, o, len).table) ==
            if len == 0 then Held(a.table) - {o} else Held(a.table)[o := len]
  {
    var e := a.table[o];
    var kept := e.(status := Committed, length := len);
    if len == 0 {
      FreeRunKeeps(a, n, o);
    } else if e.length > len {
      TruncateCuts(a, n, o, len);
    } else {
      TiledRelabel(a.table, n, o, kept);
      CoalescedFewer(a.table, a.table[o := kept]);
      HeapSame(a, a.table[o := kept]);
    }
  }

  /** The part behind a cut is freed; the part before it stays. */
  lemma {:induction false} TruncateCuts(a: Alloc, n: nat, o: nat, len: nat)
    requires Inv(a, n) && o in a.table && !IsFree(a.table, o) && 0 < len < a.table[o].length
    ensures Inv(TruncateRun(a, o, len), n)
    ensures Held(TruncateRun(a, o, len).table) == Held(a.table)[o := len]
  {
    var e := a.table[o];
    var cut := a.table[o := e.(status := Committed, length := len)]
                      [o + len := Extent(e.length - len, Reserved, INVALID_NODE)];
    CutKeeps(a, n, o, len, cut);
    FreeRunKeeps(Alloc(cut, a.heap), n, o + len);
    assert o + len !in Held(a.table);
    assert Held(a.table)[o := len][o + len := e.length - len] - {o + len} == Held(a.table)[o := len];
  }

  // ---- Runs are free or committed ---------------------------------------------------------

  ghost predicate Settled(t: Table, o: nat) {
    o in t && !t[o].status.Reserved?
  }

  /** As long as every reservation is committed at once, no run is left in between. */
  ghost predicate NoneReserved(t: Table) {
    forall o {:trigger Settled(t, o)} :: o in t ==> Settled(t, o)
  }

  lemma {:induction false} ReserveSettles(a: Alloc, size: nat, last: Option<FileExtent>, b: Alloc, o: nat, r: nat)
    requires NoneReserved(a.table) && LastOk(a, last) && Reserves(a, size, last, Committed, b, o, r)
    ensures NoneReserved(b.table)
  {
    forall x | x in b.table ensures Settled(b.table, x) { assert x in a.table ==> Settled(a.table, x); }
  }

  /** Whatever the status of the freed run, the others decide. */
  lemma {:induction false} FreeSettles(a: Alloc, o: nat)
    requires o in a.table && forall x {:trigger Settled(a.table, x)} :: x in a.table && x != o ==> Settled(a.table, x)
    ensures NoneReserved(FreeRun(a, o).table)
  {
    var t := FreeRun(a, o).table;
    forall x | x in t ensures Settled(t, x) { assert x in a.table && x != o ==> Settled(a.table, x); }
  }

  lemma {:induction false} TruncateSettles(a: Alloc, o: nat, len: nat)
    requires NoneReserved(a.table) && o in a.table
    ensures NoneReserved(TruncateRun(a, o, len).table)
  {
    if len == 0 {
      FreeSettles(a, o);
    } else {
      var e := a.table[o];
      var kept := a.table[o := e.(status := Committed, length := len)];
      assert forall x :: x in kept && x != o ==> Settled(a.table, x);
      assert forall x :: x in kept ==> Settled(kept, x);
      if e.length > len {
        var cut := kept[o + len := Extent(e.length - len, Reserved, INVALID_NODE)];
        assert forall x :: x in cut && x != o + len ==> Settled(kept, x);
        FreeSettles(Alloc(cut, a.heap), o + len);
      }
    }
  }

  // ---- What the table says about blocks ---------------------------------------------------

  /** Every block of [0, n) lies in a run. */
  lemma {:induction false} CoveringRun(t: Table, n: nat, b: nat) returns (o: nat)
    requires Tiled(t, n) && b < n
    ensures o in t && o <= b < End(t, o)
  {
    if b == 0 {
      o := 0;
    } else {
      o := CoveringRun(t, n, b - 1);
    }
    assert Linked(t, n, o);
    if End(t, o) == b {
      o := b;
      assert Linked(t, n, o);
    }
  }

  /** No block lies in two runs. */
  lemma {:induction false} RunsDisjoint(t: Table, n: nat, o: nat, p: nat, b: nat)
    requires Tiled(t, n) && o in t && p in t && o <= b < End(t, o) && p <= b < End(t, p)
    ensures o == p
  {
    assert o < p ==> Before(t, o, p);
    assert p < o ==> Before(t, p, o);
  }

  /** A block is free exactly when the run around it is. */
  lemma {:induction false} FreeBlockInRun(t: Table, n: nat, o: nat, b: nat)
    requires Tiled(t, n) && o in t && o <= b < End(t, o)
    ensures b in FreeBlocks(Held(t), n) <==> IsFree(t, o)
  {
    assert Linked(t, n, o);
    if IsFree(t, o) {
      forall p ensures !Covers(Held(t), p, b) {
        if Covers(Held(t), p, b) { RunsDisjoint(t, n, o, p, b); }
      }
    } else {
      assert Covers(Held(t), o, b);
    }
  }

  /** The heap is empty exactly when no block is free. */
  lemma {:induction false} HeapEmptyIffFull(a: Alloc, n: nat)
    requires Inv(a, n)
    ensures a.heap == map[] <==> FreeBlocks(Held(a.table), n) == {}
  {
    if x :| x in a.heap {
      assert Backed(a, x);
      assert Linked(a.table, n, x.v);
      FreeBlockInRun(a.table, n, x.v, x.v);
    }
    if b :| b in FreeBlocks(Held(a.table), n) {
      var o := CoveringRun(a.table, n, b);
      FreeBlockInRun(a.table, n, o, b);
      assert Indexed(a, o);
    }
  }

  /** When nothing is in use, the table is the single free run over all blocks. */
  lemma {:induction false} AllFreeIsOneRun(a: Alloc, n: nat)
    requires Inv(a, n) && Held(a.table) == map[]
    ensures a == Initial(n)
  {
    var t := a.table;
    assert forall o :: o in t ==> IsFree(t, o) by {
      forall o | o in t ensures IsFree(t, o) { assert o !in Held(t); }
    }
    assert Linked(t, n, 0);
    assert End(t, 0) in t ==> Apart(t, 0, End(t, 0));
    forall o | o in t ensures o == 0 {
      assert Linked(t, n, o);
      assert o > 0 ==> Before(t, 0, o);
    }
    assert Indexed(a, 0);
    forall x | x in a.heap ensures x == Node(n, 0) && a.heap[x] == 0 { assert Backed(a, x); }
    assert t == Initial(n).table && a.heap == Initial(n).heap;
  }

  // ---- Reserving, whichever run the heap gives up -----------------------------------------

  ghost predicate LastOk(a: Alloc, last: Option<FileExtent>) {
    last.Some? ==>
      && last.value.offset in Held(a.table) && Held(a.table)[last.value.offset] == last.value.length
      && last.value.length > 0
  }

  ghost predicate Extends(a: Alloc, last: Option<FileExtent>) {
    last.Some? && IsFree(a.table, last.value.offset + last.value.length)
  }

  /** mtl_reserve_extent: r blocks reserved; o is where the run that holds them starts. */
  ghost predicate Reserves(a: Alloc, size: nat, last: Option<FileExtent>, st: Status, b: Alloc, o: nat, r: nat)
    requires LastOk(a, last)
  {
    if Extends(a, last) then
      && o == last.value.offset && b == ExtendRun(a, o, size, st)
      && r == Min(size, a.table[End(a.table, o)].length)
    else if a.heap == map[] then b == a && r == 0
    else
      exists x :: x in a.heap && x.v in a.table && o == x.v && b == ReserveAt(a, o, size, st)
                  && r == Min(size, a.table[o].length)
  }

  /** Where the r new blocks are: behind the extended run, or the new run itself. */
  function NewStart(last: Option<FileExtent>, o: nat): nat {
    if last.Some? && last.value.offset == o then o + last.value.length else o
  }

  /** Less than wanted is reserved only up to the end of a free run; and a free block behind the last run is used. */
  ghost predicate NoneMissed(held: map<nat, nat>, n: nat, size: nat, last: Option<FileExtent>, o: nat, r: nat) {
    && (r < size ==> NewStart(last, o) + r !in FreeBlocks(held, n))
    && (last.Some? && last.value.offset + last.value.length in FreeBlocks(held, n) ==> o == last.value.offset)
  }

  /** The block behind a run is free only if a free run starts there. */
  lemma {:induction false} NotFreeUnlessRun(t: Table, n: nat, o: nat)
    requires Tiled(t, n) && o in t
    ensures End(t, o) in FreeBlocks(Held(t), n) ==> IsFree(t, End(t, o))
  {
    var p := End(t, o);
    assert Linked(t, n, o);
    if p < n && !IsFree(t, p) { assert Linked(t, n, p) && Covers(Held(t), p, p); }
  }

  lemma {:induction false} NotFreeBehind(a: Alloc, n: nat, o: nat)
    requires Inv(a, n) && IsFree(a.table, o)
    ensures End(a.table, o) !in FreeBlocks(Held(a.table), n)
  {
    var p := End(a.table, o);
    NotFreeUnlessRun(a.table, n, o);
    assert IsFree(a.table, p) ==> Apart(a.table, o, p);
  }

  /**
   Between 1 and size blocks are reserved unless every block is in use; they were free, they
   are contiguous, and nothing else changes hands. They follow the caller's last run if the block
   behind it is free, and they are as many as are wanted or as the free run has.
   */
  lemma {:induction false} ReservesEffect(
      a: Alloc, n: nat, size: nat, last: Option<FileExtent>, st: Status, b: Alloc, o: nat, r: nat)
    requires Inv(a, n) && size > 0 && !st.Free? && LastOk(a, last) && Reserves(a, size, last, st, b, o, r)
    ensures Inv(b, n) && r <= size
    ensures r == 0 <==> FreeBlocks(Held(a.table), n) == {}
    ensures r == 0 ==> b == a
    ensures r > 0 ==>
      && (if last.Some? && last.value.offset == o
          then Held(b.table) == Held(a.table)[o := last.value.length + r]
          else o !in Held(a.table) && Held(b.table) == Held(a.table)[o := r])
      && (last.Some? && last.value.offset != o ==> o != last.value.offset + last.value.length)
      && (forall x :: NewStart(last, o) <= x < NewStart(last, o) + r ==> x in FreeBlocks(Held(a.table), n))
    ensures r > 0 ==> NoneMissed(Held(a.table), n, size, last, o, r)
  {
    HeapEmptyIffFull(a, n);
    if last.Some? { assert Linked(a.table, n, last.value.offset); }
    if Extends(a, last) {
      var p := End(a.table, o);
      assert Linked(a.table, n, p);
      ExtendRunKeeps(a, n, o, size, st);
      NotFreeBehind(a, n, p);
      forall x | p <= x < p + r ensures x in FreeBlocks(Held(a.table), n) { FreeBlockInRun(a.table, n, p, x); }
      assert p in FreeBlocks(Held(a.table), n);
    } else if a.heap != map[] {
      var x :| x in a.heap && x.v in a.table && o == x.v && b == ReserveAt(a, o, size, st)
               && r == Min(size, a.table[o].length);
      assert Backed(a, x);
      assert Linked(a.table, n, o);
      ReserveAtKeeps(a, n, o, size, st);
      NotFreeBehind(a, n, o);
      if last.Some? { NotFreeUnlessRun(a.table, n, last.value.offset); }
      forall y | o <= y < o + r ensures y in FreeBlocks(Held(a.table), n) { FreeBlockInRun(a.table, n, o, y); }
    }
  }

  // ---- Every run of operations ------------------------------------------------------------

  datatype Op =
    | Reserve(size: nat, last: Option<FileExtent>, st: Status)
    | Truncate(offset: nat, len: nat)
    | Release(offset: nat)

  /** What the operations ask of their callers. */
  ghost predicate Allowed(a: Alloc, op: Op) {
    match op
    case Reserve(size, last, st) => size > 0 && !st.Free? && LastOk(a, last)
    case Truncate(o, len) => o in Held(a.table) && len <= Held(a.table)[o]
    case Release(o) => o in Held(a.table)
  }

  ghost predicate Next(a: Alloc, op: Op, b: Alloc)
    requires Allowed(a, op)
  {
    match op
    case Reserve(size, last, st) => exists o, r :: Reserves(a, size, last, st, b, o, r)
    case Truncate(o, len) => b == TruncateRun(a, o, len)
    case Release(o) => b == FreeRun(a, o)
  }

  /**
   Whatever is reserved, truncated and freed, the table stays a partition of [0, n) into
   non-empty coalesced runs with exactly one heap node per free run; and whenever nothing is
   in use the allocator is back where it started.
   */
  lemma {:induction false} RunsKeepInv(states: seq<Alloc>, ops: seq<Op>, n: nat)
    requires n > 0 && |states| == |ops| + 1 && states[0] == Initial(n)
    requires forall k :: 0 <= k < |ops| ==> Allowed(states[k], ops[k]) && Next(states[k], ops[k], states[k + 1])
    ensures forall k :: 0 <= k < |states| ==>
      Inv(states[k], n) && (Held(states[k].table) == map[] ==> states[k] == Initial(n))
  {
    InitialInv(n);
    var k := 0;
    while k < |ops|
      invariant k <= |ops|
      invariant forall j :: 0 <= j <= k ==> Inv(states[j], n)
    {
      var a, b := states[k], states[k + 1];
      match ops[k] {
        case Reserve(size, last, st) =>
          var o, r :| Reserves(a, size, last, st, b, o, r);
          ReservesEffect(a, n, size, last, st, b, o, r);
        case Truncate(o, len) => TruncateRunKeeps(a, n, o, len);
        case Release(o) => FreeRunKeeps(a, n, o);
      }
      k := k + 1;
    }
    forall j | 0 <= j < |states| && Held(states[j].table) == map[]
      ensures states[j] == Initial(n)
    {
      AllFreeIsOneRun(states[j], n);
    }
  }
}
