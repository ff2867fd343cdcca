/**
 Regular files as inodes with extent lists, and their relation to the extent table: which
 lists own which runs, and what growing, shrinking and dropping a list does to that relation.
 */
module FileTable {
  import opened Basics
  import opened FileExtents
  import opened ExtentTable

  datatype Inode = Inode(length: nat, extents: seq<FileExtent>)
  type Files = map<nat, Inode>

  /** Extent lists by owner. Negative owners hold runs that are about to be freed. */
  type Lists = map<int, seq<FileExtent>>

  function ListsOf(files: Files): Lists {
    map f: int | f in files :: files[f].extents
  }

  predicate Slot(lists: Lists, f: int, i: int) { f in lists && 0 <= i < |lists[f]| }

  ghost predicate SlotHeld(lists: Lists, held: map<nat, nat>, f: int, i: int) {
    && Slot(lists, f, i)
    && lists[f][i].offset in held
    && held[lists[f][i].offset] == lists[f][i].length
  }

  ghost predicate HasOwner(lists: Lists, o: nat) {
    exists f, i :: Slot(lists, f, i) && lists[f][i].offset == o
  }

  /** Two different entries name different runs. */
  ghost predicate Distinct(lists: Lists, f: int, i: int, g: int, j: int) {
    && Slot(lists, f, i)
    && Slot(lists, g, j)
    && (lists[f][i].offset == lists[g][j].offset ==> f == g && i == j)
  }

  /** Every list entry is a run in use, every run in use is one list entry, and no more than one. */
  ghost predicate Owns(lists: Lists, held: map<nat, nat>) {
    && (forall f, i {:trigger SlotHeld(lists, held, f, i)} ::
         Slot(lists, f, i) ==> SlotHeld(lists, held, f, i))
    && (forall o {:trigger HasOwner(lists, o)} ::
         o in held ==> HasOwner(lists, o))
    && (forall f, i, g, j {:trigger Distinct(lists, f, i, g, j)} ::
          Slot(lists, f, i) && Slot(lists, g, j) ==> Distinct(lists, f, i, g, j))
  }

  // ---- Changing one list ------------------------------------------------------------------

  lemma {:induction false} Owner(lists: Lists, held: map<nat, nat>, o: nat) returns (f: int, i: int)
    requires Owns(lists, held) && o in held
    ensures Slot(lists, f, i)
    ensures lists[f][i] == FileExtent(o, held[o])
  {
    assert HasOwner(lists, o);
    f, i :| Slot(lists, f, i) && lists[f][i].offset == o;
    assert SlotHeld(lists, held, f, i);
  }

  lemma {:induction false} OwnsAppend(lists: Lists, held: map<nat, nat>, f: int, e: FileExtent)
    requires Owns(lists, held) && f in lists && e.offset !in held
    ensures Owns(lists[f := lists[f] + [e]], held[e.offset := e.length])
  {
    var l, h, n := lists[f := lists[f] + [e]], held[e.offset := e.length], |lists[f]|;
    forall g, i | Slot(l, g, i)
      ensures SlotHeld(l, h, g, i)
    {
      if g != f || i != n { assert SlotHeld(lists, held, g, i); }
    }
    forall o | o in h
      ensures HasOwner(l, o)
    {
      if o == e.offset {
        assert Slot(l, f, n);
      } else {
        var g, i := Owner(lists, held, o);
        assert Slot(l, g, i);
      }
    }
    forall g, i, g', i' | Slot(l, g, i) && Slot(l, g', i')
      ensures Distinct(l, g, i, g', i')
    {
      var old1, old2 := g != f || i != n, g' != f || i' != n;
      assert old1 ==> SlotHeld(lists, held, g, i);
      assert old2 ==> SlotHeld(lists, held, g', i');
      assert old1 && old2 ==> Distinct(lists, g, i, g', i');
    }
  }

  /** Change the length of one entry, in the list and in the table. */
  lemma {:induction false} OwnsResize(lists: Lists, held: map<nat, nat>, f: int, i: nat, len: nat)
    requires Owns(lists, held) && Slot(lists, f, i)
    ensures Owns(lists[f := lists[f][i := lists[f][i].(length := len)]], held[lists[f][i].offset := len])
  {
    var o := lists[f][i].offset;
    var l, h := lists[f := lists[f][i := lists[f][i].(length := len)]], held[o := len];
    forall g, j | Slot(l, g, j)
      ensures SlotHeld(l, h, g, j)
    {
      assert SlotHeld(lists, held, g, j) && Distinct(lists, f, i, g, j);
    }
    forall p | p in h
      ensures HasOwner(l, p)
    {
      assert SlotHeld(lists, held, f, i);
      var g, j := Owner(lists, held, p);
      assert Slot(l, g, j);
    }
    forall g, j, g', j' | Slot(l, g, j) && Slot(l, g', j')
      ensures Distinct(l, g, j, g', j')
    {
      assert Distinct(lists, g, j, g', j');
    }
  }

  /** Move the tail of a list to another owner that has none. */
  lemma {:induction false} OwnsSplit(lists: Lists, held: map<nat, nat>, f: int, g: int, i: nat)
    requires Owns(lists, held) && f in lists && g !in lists && i <= |lists[f]|
    ensures Owns(lists[f := lists[f][..i]][g := lists[f][i..]], held)
  {
    var l := lists[f := lists[f][..i]][g := lists[f][i..]];
    forall h, j | Slot(l, h, j)
      ensures SlotHeld(l, held, h, j)
    {
      if h == g { assert SlotHeld(lists, held, f, i + j); } else { assert SlotHeld(lists, held, h, j); }
    }
    forall o | o in held
      ensures HasOwner(l, o)
    {
      var h, j := Owner(lists, held, o);
      if h == f && j >= i { assert Slot(l, g, j - i); } else { assert Slot(l, h, j); }
    }
    forall h, j, h', j' | Slot(l, h, j) && Slot(l, h', j')
      ensures Distinct(l, h, j, h', j')
    {
      var a, b := if h == g then f else h, if h == g then i + j else j;
      var a', b' := if h' == g then f else h', if h' == g then i + j' else j';
      assert Distinct(lists, a, b, a', b');
    }
  }

  /** Drop the first entry of a list together with its run. */
  lemma {:induction false} OwnsDropFirst(lists: Lists, held: map<nat, nat>, f: int)
    requires Owns(lists, held) && Slot(lists, f, 0)
    ensures Owns(lists[f := lists[f][1..]], held - {lists[f][0].offset})
  {
    var o := lists[f][0].offset;
    var l, h := lists[f := lists[f][1..]], held - {o};
    forall g, j | Slot(l, g, j)
      ensures SlotHeld(l, h, g, j)
    {
      var k := if g == f then j + 1 else j;
      assert SlotHeld(lists, held, g, k) && Distinct(lists, f, 0, g, k);
    }
    forall p | p in h
      ensures HasOwner(l, p)
    {
      var g, j := Owner(lists, held, p);
      assert Slot(l, g, if g == f then j - 1 else j);
    }
    forall g, j, g', j' | Slot(l, g, j) && Slot(l, g', j')
      ensures Distinct(l, g, j, g', j')
    {
      assert Distinct(lists, g, if g == f then j + 1 else j, g', if g' == f then j' + 1 else j');
    }
  }

  /** Owners with an empty list come and go. */
  lemma {:induction false} OwnsEmpty(lists: Lists, held: map<nat, nat>, f: int)
    requires Owns(lists, held) && (f in lists ==> lists[f] == [])
    ensures Owns(lists - {f}, held)
    ensures Owns(lists[f := []], held)
  {
    OwnsSameSlots(lists, lists - {f}, held);
    OwnsSameSlots(lists, lists[f := []], held);
  }

  lemma {:induction false} OwnsSameSlots(lists: Lists, l: Lists, held: map<nat, nat>)
    requires Owns(lists, held)
    requires forall f, i {:trigger Slot(l, f, i)} ::
      Slot(l, f, i) == Slot(lists, f, i) && (Slot(l, f, i) ==> l[f][i] == lists[f][i])
    ensures Owns(l, held)
  {
    forall g, j | Slot(l, g, j) ensures SlotHeld(l, held, g, j) { assert SlotHeld(lists, held, g, j); }
    forall o | o in held
      ensures HasOwner(l, o)
    {
      var g, j := Owner(lists, held, o);
      assert Slot(l, g, j);
    }
    forall g, j, g', j' | Slot(l, g, j) && Slot(l, g', j')
      ensures Distinct(l, g, j, g', j')
    {
      assert Distinct(lists, g, j, g', j');
    }
  }

  // ---- Blocks and bytes -------------------------------------------------------------------

  /** write_end_blocks: whole blocks, plus one for a remainder. */
  function BlocksFor(bytes: nat, blockSize: nat): nat
    requires blockSize > 0
  {
    bytes / blockSize + if bytes % blockSize != 0 then 1 else 0
  }

  lemma {:induction false} MulOrder(a: nat, b: nat, c: nat)
    requires a <= b
    ensures a * c <= b * c && (a < b ==> a * c + c <= b * c)
  {
    assert b * c == a * c + (b - a) * c;
    if a < b { assert (b - a) * c == c + (b - a - 1) * c; }
  }

  /** BlocksFor rounds up: k blocks suffice exactly when they have room for all bytes. */
  lemma {:induction false} BlocksForRoundsUp(bytes: nat, blockSize: nat, k: nat)
    requires blockSize > 0
    ensures BlocksFor(bytes, blockSize) <= k <==> bytes <= k * blockSize
  {
    var q := bytes / blockSize;
    assert bytes == q * blockSize + bytes % blockSize;
    if k < q { MulOrder(k, q, blockSize); } else if q < k { MulOrder(q, k, blockSize); }
  }

  lemma {:induction false} BlocksForMonotone(a: nat, b: nat, blockSize: nat)
    requires blockSize > 0 && a <= b
    ensures BlocksFor(a, blockSize) <= BlocksFor(b, blockSize)
  {
    BlocksForRoundsUp(b, blockSize, BlocksFor(b, blockSize));
    BlocksForRoundsUp(a, blockSize, BlocksFor(b, blockSize));
  }

  ghost predicate FileOk(f: Inode, blockSize: nat)
    requires blockSize > 0
  {
    && |Blocks(f.extents)| == BlocksFor(f.length, blockSize)
    && Spread(f.extents)
  }

  /** The allocator keeps its invariants, its runs in use are committed, and each is one list entry. */
  ghost predicate Sound(a: Alloc, lists: Lists, n: nat) {
    && Inv(a, n)
    && NoneReserved(a.table)
    && Owns(lists, Held(a.table))
  }

  /** Every extent of every file is a committed run of the table, of the same length. */
  lemma {:induction false} ExtentsAreCommitted(a: Alloc, files: Files, n: nat, blockSize: nat, f: nat, i: nat)
    requires blockSize > 0 && FsInv(a, files, n, blockSize) && f in files && i < |files[f].extents|
    ensures var e := files[f].extents[i];
      e.offset in a.table && a.table[e.offset].status.Committed? && a.table[e.offset].length == e.length > 0
  {
    var e := files[f].extents[i];
    assert Slot(ListsOf(files), f, i) && SlotHeld(ListsOf(files), Held(a.table), f, i);
    assert Settled(a.table, e.offset) && Linked(a.table, n, e.offset);
  }

  predicate ListedAs(files: Files, f: nat, i: nat, e: FileExtent) {
    f in files && i < |files[f].extents| && files[f].extents[i] == e
  }

  /** And every run of the table is free or an extent of a file. */
  lemma {:induction false} RunsAreFreeOrOwned(a: Alloc, files: Files, n: nat, blockSize: nat, o: nat)
    requires blockSize > 0 && FsInv(a, files, n, blockSize) && o in a.table && !IsFree(a.table, o)
    ensures a.table[o].status.Committed?
    ensures exists f, i :: ListedAs(files, f, i, FileExtent(o, a.table[o].length))
  {
    var f, i := Owner(ListsOf(files), Held(a.table), o);
    assert Settled(a.table, o);
    assert ListedAs(files, f, i, FileExtent(o, a.table[o].length));
  }

  /** The whole file layer: a sound allocator, owned run by run, and lists as long as the files. */
  ghost predicate FsInv(a: Alloc, files: Files, n: nat, blockSize: nat)
    requires blockSize > 0
  {
    && Sound(a, ListsOf(files), n)
    && forall f :: f in files ==> FileOk(files[f], blockSize)
  }

  /** Each logical block has its own physical block, across all lists. */
  lemma {:induction false} BlocksAreUnshared(a: Alloc, n: nat, lists: Lists, f: int, l: nat, g: int, m: nat)
    requires Inv(a, n) && Owns(lists, Held(a.table)) && f in lists && g in lists
    requires l < |Blocks(lists[f])| && m < |Blocks(lists[g])| && Blocks(lists[f])[l] == Blocks(lists[g])[m]
    ensures f == g && l == m
  {
    var i, k := ExtentOfBlock(lists[f], l);
    var j, k' := ExtentOfBlock(lists[g], m);
    assert Slot(lists, f, i) && Slot(lists, g, j);
    assert SlotHeld(lists, Held(a.table), f, i) && SlotHeld(lists, Held(a.table), g, j);
    RunsDisjoint(a.table, n, lists[f][i].offset, lists[g][j].offset, Blocks(lists[f])[l]);
    assert Distinct(lists, f, i, g, j);
  }

  ghost predicate OwnedBlock(lists: Lists, b: nat) {
    exists f, l :: BlockOf(lists, f, l, b)
  }

  predicate BlockOf(lists: Lists, f: int, l: int, b: nat) {
    f in lists && 0 <= l < |Blocks(lists[f])| && Blocks(lists[f])[l] == b
  }

  /** The blocks of [0, n) are the free blocks and the blocks of the lists, with nothing in between. */
  lemma {:induction false} BlockFreeOrOwned(a: Alloc, n: nat, lists: Lists, b: nat)
    requires Inv(a, n) && Owns(lists, Held(a.table))
    ensures OwnedBlock(lists, b) <==> b < n && b !in FreeBlocks(Held(a.table), n)
  {
    var held := Held(a.table);
    if OwnedBlock(lists, b) {
      var f, l :| BlockOf(lists, f, l, b);
      var i, k := ExtentOfBlock(lists[f], l);
      assert Slot(lists, f, i) && SlotHeld(lists, held, f, i);
      var o := lists[f][i].offset;
      assert Linked(a.table, n, o);
      assert Covers(held, o, b);
    }
    if b < n && b !in FreeBlocks(held, n) {
      assert InUse(held, b);
      var o :| Covers(held, o, b);
      var f, i := Owner(lists, held, o);
      BlockInExtent(lists[f], i, b - o);
      assert BlockOf(lists, f, |Blocks(lists[f][..i])| + b - o, b);
    }
  }

  ghost function OwnedBlocks(lists: Lists, n: nat): set<nat> {
    set b: nat | b < n && OwnedBlock(lists, b)
  }

  /** The set [start, start + r). */
  function Interval(start: nat, r: nat): (s: set<nat>)
    ensures |s| == r
    ensures forall x :: x in s <==> start <= x < start + r
  {
    if r == 0 then {} else Interval(start, r - 1) + {start + r - 1}
  }

  /** Blocks held by files and free blocks add up to the device, and share none. */
  lemma {:induction false} BlocksConserved(a: Alloc, files: Files, n: nat, blockSize: nat)
    requires blockSize > 0 && FsInv(a, files, n, blockSize)
    ensures OwnedBlocks(ListsOf(files), n) !! FreeBlocks(Held(a.table), n)
    ensures |OwnedBlocks(ListsOf(files), n)| + |FreeBlocks(Held(a.table), n)| == n
  {
    var owned, free := OwnedBlocks(ListsOf(files), n), FreeBlocks(Held(a.table), n);
    forall b: nat | b < n ensures b in owned <==> b !in free { BlockFreeOrOwned(a, n, ListsOf(files), b); }
    assert owned + free == Interval(0, n);
  }

  // ---- Growing ----------------------------------------------------------------------------

  function Last(es: seq<FileExtent>): Option<FileExtent> {
    if es == [] then None else Some(es[|es| - 1])
  }

  /** The list after r blocks were reserved in a run that starts at o. */
  function Grown(es: seq<FileExtent>, o: nat, r: nat): seq<FileExtent> {
    if es != [] && es[|es| - 1].offset == o
    then es[|es| - 1 := FileExtent(o, es[|es| - 1].length + r)]
    else es + [FileExtent(o, r)]
  }

  lemma {:induction false} GrownBlocks(es: seq<FileExtent>, o: nat, r: nat)
    ensures Blocks(Grown(es, o, r)) == Blocks(es) + Run(NewStart(Last(es), o), r)
  {
    if es != [] && es[|es| - 1].offset == o {
      var init, l := es[..|es| - 1], es[|es| - 1].length;
      assert Grown(es, o, r) == init + [FileExtent(o, l + r)];
      BlocksSnoc(init, FileExtent(o, l + r));
      RunSplit(o, l, r);
      Associative(Blocks(init), Run(o, l), Run(o + l, r));
    } else {
      BlocksSnoc(es, FileExtent(o, r));
    }
  }

  lemma {:induction false} LastIsOk(a: Alloc, files: Files, n: nat, blockSize: nat, id: nat)
    requires blockSize > 0 && FsInv(a, files, n, blockSize) && id in files
    ensures LastOk(a, Last(files[id].extents))
  {
    var es := files[id].extents;
    if es != [] {
      assert Slot(ListsOf(files), id, |es| - 1);
      assert SlotHeld(ListsOf(files), Held(a.table), id, |es| - 1);
      assert Linked(a.table, n, es[|es| - 1].offset);
    }
  }

  lemma {:induction false} GrowOwns(
      files: Files, held: map<nat, nat>, id: nat, o: nat, r: nat, length: nat, held': map<nat, nat>)
    requires id in files && Owns(ListsOf(files), held)
    requires Adds(held, held', NewStart(Last(files[id].extents), o), r, o)
    requires Last(files[id].extents).Some? && Last(files[id].extents).value.offset == o ==>
      Last(files[id].extents).value.length > 0 && o in held && held[o] == Last(files[id].extents).value.length
    ensures Owns(ListsOf(files[id := Inode(length, Grown(files[id].extents, o, r))]), held')
  {
    var es := files[id].extents;
    assert ListsOf(files[id := Inode(length, Grown(es, o, r))]) == ListsOf(files)[id := Grown(es, o, r)];
    if es != [] && es[|es| - 1].offset == o {
      assert Slot(ListsOf(files), id, |es| - 1);
      OwnsResize(ListsOf(files), held, id, |es| - 1, es[|es| - 1].length + r);
    } else {
      OwnsAppend(ListsOf(files), held, id, FileExtent(o, r));
    }
  }

  lemma {:induction false} GrownSpread(es: seq<FileExtent>, o: nat, r: nat)
    requires Spread(es)
    requires es != [] && es[|es| - 1].offset != o ==> o != es[|es| - 1].offset + es[|es| - 1].length
    ensures Spread(Grown(es, o, r))
  {
    var fs := Grown(es, o, r);
    forall i: nat | i + 1 < |fs| ensures Gap(fs, i) { assert i + 1 < |es| ==> Gap(es, i); }
  }

  lemma {:induction false} ReserveAdds(a: Alloc, n: nat, size: nat, last: Option<FileExtent>, b: Alloc, o: nat, r: nat)
    requires Inv(a, n) && size > 0 && LastOk(a, last) && Reserves(a, size, last, Committed, b, o, r) && r > 0
    ensures Inv(b, n)
    ensures Adds(Held(a.table), Held(b.table), NewStart(last, o), r, o)
    ensures last.Some? && last.value.offset != o ==> o != last.value.offset + last.value.length
    ensures FreeBlocks(Held(b.table), n) == FreeBlocks(Held(a.table), n) - Interval(NewStart(last, o), r)
    ensures |FreeBlocks(Held(b.table), n)| == |FreeBlocks(Held(a.table), n)| - r
  {
    ReservesEffect(a, n, size, last, Committed, b, o, r);
    FreeShrinks(Held(a.table), Held(b.table), n, NewStart(last, o), r, o);
  }

  /** One round of mtl_expand_inode: the file grows by the reserved blocks, all else stays. */
  lemma {:induction false} GrowKeeps(
      a: Alloc, files: Files, n: nat, blockSize: nat, id: nat, size: nat, b: Alloc, o: nat, r: nat, length: nat)
    requires blockSize > 0 && FsInv(a, files, n, blockSize) && id in files && size > 0
    requires LastOk(a, Last(files[id].extents))
    requires Reserves(a, size, Last(files[id].extents), Committed, b, o, r) && r > 0
    requires BlocksFor(length, blockSize) == |Blocks(files[id].extents)| + r
    ensures FsInv(b, files[id := Inode(length, Grown(files[id].extents, o, r))], n, blockSize)
    ensures |FreeBlocks(Held(b.table), n)| == |FreeBlocks(Held(a.table), n)| - r
  {
    var es := files[id].extents;
    ReserveAdds(a, n, size, Last(es), b, o, r);
    GrownBlocks(es, o, r);
    GrownSpread(es, o, r);
    GrowOwns(files, Held(a.table), id, o, r, length, Held(b.table));
    ReserveSettles(a, size, Last(es), b, o, r);
  }

  /** held' is held with r blocks from start on added, as a new run or behind an old one. */
  ghost predicate Adds(held: map<nat, nat>, held': map<nat, nat>, start: nat, r: nat, o: nat) {
    if start == o then o !in held && held' == held[o := r]
    else o in held && start == o + held[o] && held' == held[o := held[o] + r]
  }

  lemma {:induction false} InUseGrows(held: map<nat, nat>, held': map<nat, nat>, start: nat, r: nat, o: nat, b: nat)
    requires Adds(held, held', start, r, o)
    ensures InUse(held', b) <==> InUse(held, b) || start <= b < start + r
  {
    if p :| Covers(held, p, b) { assert Covers(held', p, b); }
    if start <= b < start + r { assert Covers(held', o, b); }
    if p :| Covers(held', p, b) { assert Covers(held, p, b) || start <= b < start + r; }
  }

  lemma {:induction false} FreeShrinks(held: map<nat, nat>, held': map<nat, nat>, n: nat, start: nat, r: nat, o: nat)
    requires Interval(start, r) <= FreeBlocks(held, n)
    requires Adds(held, held', start, r, o)
    ensures FreeBlocks(held', n) == FreeBlocks(held, n) - Interval(start, r)
    ensures |FreeBlocks(held', n)| == |FreeBlocks(held, n)| - r
  {
    forall b: nat ensures b in FreeBlocks(held', n) <==> b in FreeBlocks(held, n) && b !in Interval(start, r) {
      InUseGrows(held, held', start, r, o, b);
    }
  }

  // ---- Shrinking --------------------------------------------------------------------------

  /** Keep the extents before i, and `keep` blocks of extent i. */
  function Cut(es: seq<FileExtent>, i: nat, keep: nat): seq<FileExtent>
    requires i < |es|
  {
    if keep == 0 then es[..i] else es[..i] + [FileExtent(es[i].offset, keep)]
  }

  lemma {:induction false} CutBlocks(es: seq<FileExtent>, i: nat, keep: nat)
    requires i < |es| && keep <= es[i].length
    ensures |Blocks(es[..i])| + keep <= |Blocks(es)|
    ensures Blocks(Cut(es, i, keep)) == Blocks(es)[..|Blocks(es[..i])| + keep]
    ensures Spread(es) ==> Spread(Cut(es, i, keep))
  {
    BlocksSplit(es, i);
    if keep > 0 { BlocksSnoc(es[..i], FileExtent(es[i].offset, keep)); }
    if Spread(es) {
      var fs := Cut(es, i, keep);
      forall k: nat | k + 1 < |fs| ensures Gap(fs, k) { assert Gap(es, k); }
    }
  }

  /** An entry names a run the allocator lets its owner truncate or free. */
  lemma {:induction false} EntryIsHeld(a: Alloc, lists: Lists, f: int, i: nat)
    requires Owns(lists, Held(a.table)) && Slot(lists, f, i)
    ensures lists[f][i].offset in Held(a.table)
    ensures Held(a.table)[lists[f][i].offset] == lists[f][i].length
  {
    assert SlotHeld(lists, Held(a.table), f, i);
  }

  /** The first extent to go: cut it, and set the ones behind it aside. */
  lemma {:induction false} ShrinkBoundary(a: Alloc, lists: Lists, n: nat, id: int, i: nat, keep: nat)
    requires Sound(a, lists, n) && id in lists && id >= 0 && -1 !in lists
    requires i < |lists[id]| && keep <= lists[id][i].length && lists[id][i].offset in a.table
    ensures var b := TruncateRun(a, lists[id][i].offset, keep);
      Sound(b, lists[id := Cut(lists[id], i, keep)][-1 := lists[id][i + 1..]], n)
  {
    var es, held := lists[id], Held(a.table);
    var o := es[i].offset;
    EntryIsHeld(a, lists, id, i);
    TruncateRunKeeps(a, n, o, keep);
    TruncateSettles(a, o, keep);
    if keep == 0 {
      OwnsSplit(lists, held, id, -1, i);
      var l := lists[id := es[..i]][-1 := es[i..]];
      OwnsDropFirst(l, held, -1);
      assert l[-1 := l[-1][1..]] == lists[id := es[..i]][-1 := es[i + 1..]];
    } else {
      OwnsResize(lists, held, id, i, keep);
      var fs := es[i := es[i].(length := keep)];
      OwnsSplit(lists[id := fs], held[o := keep], id, -1, i + 1);
      assert fs[..i + 1] == Cut(es, i, keep) && fs[i + 1..] == es[i + 1..];
      assert lists[id := fs][id := fs[..i + 1]][-1 := fs[i + 1..]]
          == lists[id := Cut(es, i, keep)][-1 := es[i + 1..]];
    }
  }

  lemma {:induction false} DropRun(a: Alloc, lists: Lists, n: nat, f: int)
    requires Sound(a, lists, n) && Slot(lists, f, 0) && lists[f][0].offset in a.table
    ensures var b := FreeRun(a, lists[f][0].offset);
      Sound(b, lists[f := lists[f][1..]], n)
  {
    EntryIsHeld(a, lists, f, 0);
    FreeRunKeeps(a, n, lists[f][0].offset);
    FreeSettles(a, lists[f][0].offset);
    OwnsDropFirst(lists, Held(a.table), f);
  }

  /** Cutting a list after k blocks leaves the owned blocks but those behind the cut. */
  lemma {:induction false} OwnedShrinks(a: Alloc, n: nat, l: Lists, id: int, es: seq<FileExtent>, k: nat, x: nat)
    requires Inv(a, n) && Owns(l, Held(a.table))
    requires id in l && k <= |Blocks(l[id])| && Blocks(es) == Blocks(l[id])[..k]
    ensures OwnedBlock(l[id := es], x) <==> OwnedBlock(l, x) && x !in Blocks(l[id])[k..]
  {
    var l', rest := l[id := es], Blocks(l[id])[k..];
    forall m | k <= m < |Blocks(l[id])| ensures Blocks(l[id])[m] in rest { assert Blocks(l[id])[m] == rest[m - k]; }
    if OwnedBlock(l', x) {
      var f, m :| BlockOf(l', f, m, x);
      assert BlockOf(l, f, m, x);
      if j :| 0 <= j < |rest| && rest[j] == x {
        assert Blocks(l[id])[k + j] == x;
        BlocksAreUnshared(a, n, l, f, m, id, k + j);
      }
    }
    if OwnedBlock(l, x) && x !in rest {
      var f, m :| BlockOf(l, f, m, x);
      assert BlockOf(l', f, m, x);
    }
  }

  /** Shortening one file frees exactly the blocks it no longer lists. */
  lemma {:induction false} FreedExactlyTheRest(
      a: Alloc, files: Files, b: Alloc, g: Inode, n: nat, blockSize: nat, id: nat, k: nat, x: nat)
    requires blockSize > 0 && id in files && FsInv(a, files, n, blockSize) && FsInv(b, files[id := g], n, blockSize)
    requires k <= |Blocks(files[id].extents)| && Blocks(g.extents) == Blocks(files[id].extents)[..k]
    ensures x in FreeBlocks(Held(b.table), n) <==>
            x in FreeBlocks(Held(a.table), n) || x in Blocks(files[id].extents)[k..]
  {
    var l := ListsOf(files);
    assert ListsOf(files[id := g]) == l[id := g.extents];
    BlockFreeOrOwned(a, n, l, x);
    BlockFreeOrOwned(b, n, l[id := g.extents], x);
    OwnedShrinks(a, n, l, id, g.extents, k, x);
    var rest := Blocks(l[id])[k..];
    if j :| 0 <= j < |rest| && rest[j] == x { assert BlockOf(l, id, k + j, x); }
  }

  // ---- The length of a grown file ---------------------------------------------------------

  /** What mtl_expand_inode leaves in the inode: nothing is written unless a block is added. */
  function LiteralLength(length: nat, size: nat, blockSize: nat): nat
    requires blockSize > 0
  {
    if BlocksFor(length, blockSize) < BlocksFor(size, blockSize) then size else length
  }

  function IntendedLength(length: nat, size: nat): nat { if length < size then size else length }

  /** The literal length is right exactly when the file does not grow or needs another block. */
  lemma {:induction false} LiteralLengthIff(length: nat, size: nat, blockSize: nat)
    requires blockSize > 0
    ensures LiteralLength(length, size, blockSize) == IntendedLength(length, size) <==>
            size <= length || BlocksFor(length, blockSize) < BlocksFor(size, blockSize)
  {
    if size <= length { BlocksForMonotone(size, length, blockSize); }
  }

  /** Ten bytes, then ten more behind them: the file stays ten bytes long. */
  lemma {:induction false} LiteralLengthTooShort()
    ensures LiteralLength(0, 10, 4096) == 10
    ensures LiteralLength(10, 20, 4096) == 10
    ensures IntendedLength(10, 20) == 20
  {
  }
}
